/** Sequence helpers shared by the dataset model: optional and failing results,
    duplicate-free sequences (the model of a java.util.Set), and counting. */
module Seqs {

  datatype Option<T> = None | Some(value: T)

  datatype Result<T, E> = Success(value: T) | Failure(error: E)

  /** No element occurs twice. */
  ghost predicate Distinct<T>(s: seq<T>)
  {
    forall i, j :: 0 <= i < j < |s| ==> s[i] != s[j]
  }

  /** Set-style insertion, as java.util.Set.add: an element already present is not added again. */
  function Insert<T(==)>(s: seq<T>, x: T): (r: seq<T>)
    ensures s <= r && x in r
    ensures |r| == if x in s then |s| else |s| + 1
    ensures Distinct(s) ==> Distinct(r)
  {
    if x in s then s else s + [x]
  }

  /** The elements of `s` in first-occurrence order, each once: inserting them one by one into an empty set. */
  function Dedup<T(==)>(s: seq<T>): (r: seq<T>)
    ensures Distinct(r)
    ensures forall i :: 0 <= i < |r| ==> r[i] in s
    ensures forall i :: 0 <= i < |s| ==> s[i] in r
    ensures |r| <= |s|
  {
    if s == [] then [] else Insert(Dedup(s[..|s| - 1]), s[|s| - 1])
  }

  /** Inserting one more element extends the set-style insertion of the prefix. */
  lemma DedupSnoc<T>(s: seq<T>, x: T)
    ensures Dedup(s + [x]) == Insert(Dedup(s), x)
  {
    assert (s + [x])[..|s|] == s;
  }

  lemma {:induction false} DedupOfDistinct<T>(s: seq<T>)
    requires Distinct(s)
    ensures Dedup(s) == s
  {
    if s != [] {
      var init := s[..|s| - 1];
      assert Distinct(init);
      DedupOfDistinct(init);
      assert s[|s| - 1] !in init;
      assert init + [s[|s| - 1]] == s;
    }
  }

  /** Sum of the multiplicities in `m` of the keys `ks`. */
  function SumCounts<T>(ks: seq<T>, m: multiset<T>): nat
  {
    if ks == [] then 0 else m[ks[0]] + SumCounts(ks[1..], m)
  }

  lemma {:induction false} SumCountsEmpty<T>(ks: seq<T>)
    ensures SumCounts(ks, multiset{}) == 0
  {
    if ks != [] {
      SumCountsEmpty(ks[1..]);
    }
  }

  lemma {:induction false} SumCountsAdd<T>(ks: seq<T>, m: multiset<T>, x: T)
    requires Distinct(ks)
    ensures SumCounts(ks, m + multiset{x}) == SumCounts(ks, m) + (if x in ks then 1 else 0)
  {
    if ks != [] {
      assert Distinct(ks[1..]);
      SumCountsAdd(ks[1..], m, x);
      assert x in ks <==> x == ks[0] || x in ks[1..];
      assert x == ks[0] ==> x !in ks[1..];
    }
  }

  /** Counting the elements of `s` key by key over a duplicate-free list of keys covering
      them adds up to the length of `s`. */
  lemma {:induction false} SumCountsTotal<T>(ks: seq<T>, s: seq<T>)
    requires Distinct(ks)
    requires forall x :: x in s ==> x in ks
    ensures SumCounts(ks, multiset(s)) == |s|
  {
    if s == [] {
      SumCountsEmpty(ks);
    } else {
      var init, last := s[..|s| - 1], s[|s| - 1];
      assert s == init + [last];
      assert forall x :: x in init ==> x in s;
      SumCountsTotal(ks, init);
      assert multiset(s) == multiset(init) + multiset{last};
      SumCountsAdd(ks, multiset(init), last);
    }
  }
}
