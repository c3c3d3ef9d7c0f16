/** What the dataset operations compute, as functions of a dataset value, with the
    properties each promises. The class in module DatasetImpl is proved to compute
    exactly these, and the tree builder is written in terms of them. */
module DatasetSpec {
  import opened Seqs
  import opened Records

  /** A dataset as a value: its records, in the order the model fixes for iterating the
      source's hash set, and its attribute list (the feature attributes only). */
  datatype DS = DS(records: seq<Record>, attrs: seq<Attribute>)

  /** The two scores attribute selection compares, left abstract: the information gain and
      the gain ratio of an attribute on a dataset. */
  datatype Scorer = Scorer(gain: (DS, Attribute) -> real, ratio: (DS, Attribute) -> real)

  // ---------------------------------------------------------------- class values

  /** The class values of the records, in record order. */
  function Classes(rs: seq<Record>): seq<Value>
  {
    seq(|rs|, i requires 0 <= i < |rs| => rs[i].classValue)
  }

  /** The class value every record carries, when the dataset is non-empty and no two
      records disagree on it. */
  function CommonClass(rs: seq<Record>): (c: Option<Value>)
    ensures c.Some? <==>
      |rs| > 0 && forall i, j :: 0 <= i < |rs| && 0 <= j < |rs| ==> rs[i].classValue == rs[j].classValue
    ensures c.Some? ==> forall r :: r in rs ==> r.classValue == c.value
  {
    if |rs| > 0 && forall i :: 0 <= i < |rs| ==> rs[i].classValue == rs[0].classValue
    then Some(rs[0].classValue)
    else None
  }

  lemma ClassesSnoc(rs: seq<Record>, r: Record)
    ensures Classes(rs + [r]) == Classes(rs) + [r.classValue]
    ensures ClassOrder(rs + [r]) == Insert(ClassOrder(rs), r.classValue)
  {
    assert Classes(rs + [r]) == Classes(rs) + [r.classValue];
    DedupSnoc(Classes(rs), r.classValue);
  }

  /** The set of class values observed. */
  function ClassValueSet(rs: seq<Record>): set<Value>
  {
    set r | r in rs :: r.classValue
  }

  /** Frequency of each observed class value, counted record by record as the source's map
      of counters is. */
  function ClassFreq(rs: seq<Record>): map<Value, nat>
  {
    if rs == [] then map[]
    else
      var f := ClassFreq(rs[..|rs| - 1]);
      var c := rs[|rs| - 1].classValue;
      f[c := (if c in f then f[c] else 0) + 1]
  }

  /** The frequency map has exactly the observed class values as keys and maps each to the
      number of records carrying it. */
  lemma {:induction false} ClassFreqCounts(rs: seq<Record>)
    ensures ClassFreq(rs).Keys == ClassValueSet(rs)
    ensures forall v :: v in ClassFreq(rs) ==> ClassFreq(rs)[v] == multiset(Classes(rs))[v] > 0
  {
    if rs != [] {
      var init, last := rs[..|rs| - 1], rs[|rs| - 1];
      assert rs == init + [last];
      ClassFreqCounts(init);
      ClassFreqCountsStep(init, last);
    }
  }

  /** The step of the induction above: one more record keeps the counts exact. */
  lemma ClassFreqCountsStep(rs: seq<Record>, r: Record)
    requires ClassFreq(rs).Keys == ClassValueSet(rs)
    requires forall v :: v in ClassFreq(rs) ==> ClassFreq(rs)[v] == multiset(Classes(rs))[v] > 0
    ensures ClassFreq(rs + [r]).Keys == ClassValueSet(rs + [r])
    ensures forall v :: v in ClassFreq(rs + [r]) ==> ClassFreq(rs + [r])[v] == multiset(Classes(rs + [r]))[v] > 0
  {
    var c := r.classValue;
    var f, f' := ClassFreq(rs), ClassFreq(rs + [r]);
    var m, m' := multiset(Classes(rs)), multiset(Classes(rs + [r]));
    assert f' == f[c := (if c in f then f[c] else 0) + 1] by {
      ClassFreqSnoc(rs, r);
    }
    assert m' == m + multiset{c} by {
      ClassesSnoc(rs, r);
    }
    assert f'.Keys == ClassValueSet(rs + [r]) by {
      ClassValueSetSnoc(rs, r);
    }
    forall v | v in f' ensures f'[v] == m'[v] > 0 {
      if v != c {
        assert v in f;
      }
    }
  }

  lemma ClassValueSetSnoc(rs: seq<Record>, r: Record)
    ensures ClassValueSet(rs + [r]) == ClassValueSet(rs) + {r.classValue}
  {
    assert r in rs + [r];
    assert forall x :: x in rs + [r] <==> x in rs || x == r;
  }

  /** Counting one more record increments the count of its class value. */
  lemma ClassFreqSnoc(rs: seq<Record>, r: Record)
    ensures ClassFreq(rs + [r]) ==
      ClassFreq(rs)[r.classValue := (if r.classValue in ClassFreq(rs) then ClassFreq(rs)[r.classValue] else 0) + 1]
  {
    assert (rs + [r])[..|rs|] == rs;
  }

  /** The order in which the frequency map yields its entries: the model fixes it to the
      order in which class values are first met among the records. */
  function ClassOrder(rs: seq<Record>): seq<Value>
  {
    Dedup(Classes(rs))
  }

  function SumFreq(order: seq<Value>, freq: map<Value, nat>): nat
  {
    if order == [] then 0
    else (if order[0] in freq then freq[order[0]] else 0) + SumFreq(order[1..], freq)
  }

  /** The entries of the frequency map, taken in iteration order: the first one whose count
      is strictly above the highest count so far replaces the candidate. Returns the
      candidate and its count. */
  function MajorityScan(order: seq<Value>, freq: map<Value, nat>): (Option<Value>, nat)
  {
    if order == [] then (None, 0)
    else
      var (maj, high) := MajorityScan(order[..|order| - 1], freq);
      var v := order[|order| - 1];
      var f := if v in freq then freq[v] else 0;
      if f > high then (Some(v), f) else (maj, high)
  }

  /** The most frequent class value; None for an empty dataset. */
  function Majority(rs: seq<Record>): Option<Value>
  {
    MajorityScan(ClassOrder(rs), ClassFreq(rs)).0
  }

  lemma {:induction false} ClassOrderIsKeys(rs: seq<Record>)
    ensures Distinct(ClassOrder(rs))
    ensures forall v :: v in ClassOrder(rs) <==> v in ClassFreq(rs)
  {
    var cs := Classes(rs);
    ClassFreqCounts(rs);
    forall v ensures v in ClassOrder(rs) <==> v in ClassFreq(rs) {
      if v in ClassOrder(rs) {
        var i :| 0 <= i < |ClassOrder(rs)| && ClassOrder(rs)[i] == v;
        var j :| 0 <= j < |cs| && cs[j] == v;
        assert rs[j] in rs;
      }
      if v in ClassFreq(rs) {
        var r :| r in rs && r.classValue == v;
        var j :| 0 <= j < |rs| && rs[j] == r;
        assert cs[j] == v;
      }
    }
  }

  lemma {:induction false} SumFreqIsSumCounts(order: seq<Value>, rs: seq<Record>)
    ensures SumFreq(order, ClassFreq(rs)) == SumCounts(order, multiset(Classes(rs)))
  {
    if order != [] {
      SumFreqIsSumCounts(order[1..], rs);
      ClassFreqCounts(rs);
      var m := multiset(Classes(rs));
      assert order[0] !in ClassFreq(rs) ==> m[order[0]] == 0 by {
        if m[order[0]] > 0 {
          assert order[0] in m;
          var i :| 0 <= i < |Classes(rs)| && Classes(rs)[i] == order[0];
          assert rs[i] in rs;
        }
      }
    }
  }

  /** The class-value counts add up to the size of the dataset. */
  lemma ClassCountsSumToSize(rs: seq<Record>)
    ensures SumFreq(ClassOrder(rs), ClassFreq(rs)) == |rs|
  {
    var cs := Classes(rs);
    ClassOrderIsKeys(rs);
    SumFreqIsSumCounts(ClassOrder(rs), rs);
    SumCountsTotal(ClassOrder(rs), cs);
  }

  /** What the scan leaves behind: nothing for no entries; otherwise an entry with the highest
      count, strictly higher than the count of every entry before it. */
  lemma {:induction false} MajorityScanFacts(order: seq<Value>, freq: map<Value, nat>)
    requires forall v :: v in order ==> v in freq && freq[v] > 0
    ensures MajorityScan(order, freq).0.None? <==> order == []
    ensures MajorityScan(order, freq).0.None? ==> MajorityScan(order, freq).1 == 0
    ensures MajorityScan(order, freq).0.Some? ==>
      var v := MajorityScan(order, freq).0.value;
      var high := MajorityScan(order, freq).1;
      v in freq && high == freq[v] &&
      (forall w :: w in order ==> freq[w] <= high) &&
      exists i :: 0 <= i < |order| && order[i] == v && forall j :: 0 <= j < i ==> freq[order[j]] < high
  {
    if order != [] {
      var init := order[..|order| - 1];
      var last := order[|order| - 1];
      assert forall w :: w in order <==> w in init || w == last;
      MajorityScanFacts(init, freq);
      var (maj, high) := MajorityScan(init, freq);
      if freq[last] > high {
        assert forall j :: 0 <= j < |order| - 1 ==> order[j] == init[j] && init[j] in init;
        assert order[|order| - 1] == last;
      } else {
        assert maj.Some?;
        var i :| 0 <= i < |init| && init[i] == maj.value && forall j :: 0 <= j < i ==> freq[init[j]] < high;
        assert order[i] == maj.value;
        assert forall j :: 0 <= j < i ==> order[j] == init[j];
      }
    }
  }

  /** The majority value is absent exactly for an empty dataset. Otherwise it is an observed
      class value whose count no class value exceeds, and every class value met before it
      in iteration order has a strictly smaller count (the first maximum wins). */
  lemma MajorityIsFirstMostFrequent(rs: seq<Record>)
    ensures Majority(rs).None? <==> rs == []
    ensures Majority(rs).Some? ==>
      var v := Majority(rs).value;
      var freq := ClassFreq(rs);
      var order := ClassOrder(rs);
      v in freq && (forall w :: w in freq ==> freq[w] <= freq[v]) &&
      exists i :: 0 <= i < |order| && order[i] == v &&
        forall j :: 0 <= j < i ==> order[j] in freq && freq[order[j]] < freq[v]
  {
    var freq, order := ClassFreq(rs), ClassOrder(rs);
    assert forall v :: v in order ==> v in freq && freq[v] > 0 by {
      ClassOrderIsKeys(rs);
      ClassFreqCounts(rs);
    }
    assert forall w :: w in freq ==> w in order by {
      ClassOrderIsKeys(rs);
    }
    assert order == [] <==> rs == [] by {
      ClassOrderIsKeys(rs);
      ClassFreqCounts(rs);
      if rs != [] {
        assert rs[0].classValue in freq;
      } else {
        assert freq.Keys == {};
      }
    }
    ScanFindsFirstMax(order, freq);
  }

  /** When the iteration order lists exactly the keys of the frequency map, the scan yields
      a key of maximal count, met after only keys of strictly smaller count. */
  lemma ScanFindsFirstMax(order: seq<Value>, freq: map<Value, nat>)
    requires forall v :: v in order ==> v in freq && freq[v] > 0
    requires forall w :: w in freq ==> w in order
    ensures MajorityScan(order, freq).0.None? <==> order == []
    ensures MajorityScan(order, freq).0.Some? ==>
      var v := MajorityScan(order, freq).0.value;
      v in freq && (forall w :: w in freq ==> freq[w] <= freq[v]) &&
      exists i :: 0 <= i < |order| && order[i] == v &&
        forall j :: 0 <= j < i ==> order[j] in freq && freq[order[j]] < freq[v]
  {
    MajorityScanFacts(order, freq);
    var m := MajorityScan(order, freq);
    if m.0.Some? {
      var i :| 0 <= i < |order| && order[i] == m.0.value && forall j :: 0 <= j < i ==> freq[order[j]] < m.1;
      assert forall j :: 0 <= j < i ==> order[j] in order;
    }
  }

  // ---------------------------------------------------------------- partition

  /** The set of keys observed for `a`, the null key included when a record lacks `a`. */
  function ValuesIn(rs: seq<Record>, a: Attribute): set<Key>
  {
    set r | r in rs :: ValueIn(r, a)
  }

  /** The keys of the records for `a`, in record order. */
  function KeysOf(rs: seq<Record>, a: Attribute): seq<Key>
  {
    seq(|rs|, i requires 0 <= i < |rs| => ValueIn(rs[i], a))
  }

  /** The records whose value for `a` is `k`, in record order. */
  function Select(rs: seq<Record>, a: Attribute, k: Key): (s: seq<Record>)
    ensures forall r :: r in s <==> r in rs && ValueIn(r, a) == k
    ensures |s| == multiset(KeysOf(rs, a))[k]
  {
    if rs == [] then []
    else
      var init := rs[..|rs| - 1];
      var last := rs[|rs| - 1];
      assert rs == init + [last];
      assert KeysOf(rs, a) == KeysOf(init, a) + [ValueIn(last, a)];
      Select(init, a, k) + (if ValueIn(last, a) == k then [last] else [])
  }

  lemma SelectSnoc(rs: seq<Record>, r: Record, a: Attribute, k: Key)
    ensures Select(rs + [r], a, k) == Select(rs, a, k) + (if ValueIn(r, a) == k then [r] else [])
  {
    assert (rs + [r])[..|rs|] == rs;
  }

  /** Every record with its value for `a` dropped, in place: each keeps its class value and
      its value for every other attribute, and holds no value for `a`. */
  function StripAll(rs: seq<Record>, a: Attribute): (s: seq<Record>)
    ensures |s| == |rs|
    ensures forall i :: 0 <= i < |rs| ==>
      s[i].classValue == rs[i].classValue && s[i].values.Keys == rs[i].values.Keys - {a.name} &&
      forall n :: n in s[i].values ==> s[i].values[n] == rs[i].values[n]
  {
    seq(|rs|, i requires 0 <= i < |rs| => Strip(rs[i], a))
  }

  /** The records the partition puts into the sub-dataset of `k`, before `a` is removed:
      record by record, each is added to the set of its own key. */
  function Members(rs: seq<Record>, a: Attribute, k: Key): seq<Record>
  {
    if rs == [] then []
    else
      var m := Members(rs[..|rs| - 1], a, k);
      var last := rs[|rs| - 1];
      if ValueIn(last, a) == k then Insert(m, last) else m
  }

  /** One more record joins the members of its own key and leaves the others as they were. */
  lemma MembersSnoc(rs: seq<Record>, r: Record, a: Attribute, k: Key)
    ensures Members(rs + [r], a, k) == if ValueIn(r, a) == k then Insert(Members(rs, a, k), r) else Members(rs, a, k)
  {
    assert (rs + [r])[..|rs|] == rs;
  }

  /** Filling the sub-datasets record by record gives, for each key, the records with that
      key in order of first occurrence, each once. */
  lemma {:induction false} MembersIsDedupSelect(rs: seq<Record>, a: Attribute, k: Key)
    ensures Members(rs, a, k) == Dedup(Select(rs, a, k))
  {
    if rs != [] {
      var init, last := rs[..|rs| - 1], rs[|rs| - 1];
      assert rs == init + [last];
      MembersIsDedupSelect(init, a, k);
      SelectSnoc(init, last, a, k);
      if ValueIn(last, a) == k {
        DedupSnoc(Select(init, a, k), last);
      } else {
        assert Select(rs, a, k) == Select(init, a, k);
      }
    }
  }

  /** The members of a key are the records with that key, each once. */
  lemma MembersFacts(rs: seq<Record>, a: Attribute, k: Key)
    ensures Distinct(Members(rs, a, k))
    ensures forall r :: r in Members(rs, a, k) <==> r in rs && ValueIn(r, a) == k
  {
    MembersIsDedupSelect(rs, a, k);
    var s := Select(rs, a, k);
    var d := Dedup(s);
    forall r ensures r in d <==> r in s {
      if r in d {
        var i :| 0 <= i < |d| && d[i] == r;
      }
      if r in s {
        var i :| 0 <= i < |s| && s[i] == r;
      }
    }
  }

  /** The sub-dataset of `k` once `a` is removed from its attribute list and its records. */
  function Child(ds: DS, a: Attribute, k: Key): DS
  {
    DS(StripAll(Members(ds.records, a, k), a), RemoveAttr(ds.attrs, a))
  }

  /** Partition of a dataset by the values of an attribute: one sub-dataset per observed key.
      A numeric attribute cannot be split. */
  function Split(ds: DS, a: Attribute): (res: Result<map<Key, DS>, Error>)
    ensures res.Success? <==> a.Nominal?
    ensures res.Success? ==> res.value.Keys == ValuesIn(ds.records, a)
    ensures res.Success? && a.name in Names(ds.attrs) ==>
      forall k :: k in res.value ==> |res.value[k].attrs| == |ds.attrs| - 1
  {
    if a.Continuous? then Failure(UnsupportedSplit)
    else Success(map k | k in ValuesIn(ds.records, a) :: Child(ds, a, k))
  }

  /** No sub-dataset of a partition is empty: each key was observed on some record. */
  lemma SplitChildrenNonEmpty(ds: DS, a: Attribute)
    requires a.Nominal?
    ensures forall k :: k in Split(ds, a).value ==> |Split(ds, a).value[k].records| > 0
  {
    forall k | k in Split(ds, a).value ensures |Split(ds, a).value[k].records| > 0 {
      var r :| r in ds.records && ValueIn(r, a) == k;
      MembersFacts(ds.records, a, k);
      assert r in Members(ds.records, a, k);
    }
  }

  /** Every record goes to the sub-dataset of its own key and to no other; stripped of `a`,
      it is found there. */
  lemma SplitExhaustiveDisjoint(ds: DS, a: Attribute)
    requires a.Nominal?
    ensures forall r :: r in ds.records ==> ValueIn(r, a) in Split(ds, a).value
    ensures forall r, k :: r in ds.records && k in Split(ds, a).value ==>
      (r in Members(ds.records, a, k) <==> ValueIn(r, a) == k)
    ensures forall r :: r in ds.records ==> Strip(r, a) in Split(ds, a).value[ValueIn(r, a)].records
  {
    forall k {
      MembersFacts(ds.records, a, k);
    }
    forall r | r in ds.records ensures Strip(r, a) in Split(ds, a).value[ValueIn(r, a)].records {
      var k := ValueIn(r, a);
      var ms := Members(ds.records, a, k);
      assert r in ms;
      var i :| 0 <= i < |ms| && ms[i] == r;
      assert StripAll(ms, a)[i] == Strip(r, a);
    }
  }

  /** A sub-dataset holds nothing but records of the parent with that key, each with `a`
      dropped and every other value and the class value unchanged; its attribute list is the
      parent's with `a` removed. */
  lemma SplitChildContents(ds: DS, a: Attribute)
    requires a.Nominal?
    ensures forall k :: k in Split(ds, a).value ==> Split(ds, a).value[k].attrs == RemoveAttr(ds.attrs, a)
    ensures forall k, c :: k in Split(ds, a).value && c in Split(ds, a).value[k].records ==>
      a.name !in c.values && StrippedFrom(ds, a, k, c)
  {
    forall k, c | k in Split(ds, a).value && c in Split(ds, a).value[k].records
      ensures a.name !in c.values && StrippedFrom(ds, a, k, c)
    {
      ChildRecordOrigin(ds, a, k, c);
    }
  }

  /** `c` is a record of the parent with key `k` for `a`, with the value for `a` dropped. */
  ghost predicate StrippedFrom(ds: DS, a: Attribute, k: Key, c: Record)
  {
    exists r :: r in ds.records && ValueIn(r, a) == k && c.classValue == r.classValue &&
      c.values.Keys == r.values.Keys - {a.name} &&
      forall n :: n in c.values ==> c.values[n] == r.values[n]
  }

  lemma ChildRecordOrigin(ds: DS, a: Attribute, k: Key, c: Record)
    requires c in Child(ds, a, k).records
    ensures a.name !in c.values && StrippedFrom(ds, a, k, c)
  {
    MembersFacts(ds.records, a, k);
    var ms := Members(ds.records, a, k);
    var i :| 0 <= i < |ms| && StripAll(ms, a)[i] == c;
    var r := ms[i];
    assert r in ms;
    assert c == Strip(r, a);
  }

  /** Records that share their value for `a` stay apart once `a` is dropped. */
  lemma StripInjective(r1: Record, r2: Record, a: Attribute)
    requires ValueIn(r1, a) == ValueIn(r2, a) && Strip(r1, a) == Strip(r2, a)
    ensures r1 == r2
  {
    assert r1.values == r2.values by {
      forall n ensures n in r1.values <==> n in r2.values {
        if n != a.name {
          assert n in r1.values <==> n in Strip(r1, a).values;
          assert n in r2.values <==> n in Strip(r2, a).values;
        }
      }
      forall n | n in r1.values ensures r1.values[n] == r2.values[n] {
        if n != a.name {
          assert r1.values[n] == Strip(r1, a).values[n];
        }
      }
    }
  }

  /** A set of records split by `a` gives sets: no sub-dataset holds a record twice, even after
      `a` is dropped from its records. */
  lemma SplitKeepsRecordsDistinct(ds: DS, a: Attribute)
    requires a.Nominal?
    ensures forall k :: k in Split(ds, a).value ==> Distinct(Split(ds, a).value[k].records)
  {
    forall k | k in Split(ds, a).value ensures Distinct(Split(ds, a).value[k].records) {
      MembersFacts(ds.records, a, k);
      var ms := Members(ds.records, a, k);
      var cs := Split(ds, a).value[k].records;
      forall i, j | 0 <= i < j < |cs| ensures cs[i] != cs[j] {
        assert ms[i] in ms && ms[j] in ms;
        if cs[i] == cs[j] {
          StripInjective(ms[i], ms[j], a);
        }
      }
    }
  }

  /** The order in which the partition map yields its keys (first met among the records). */
  function KeyOrder(rs: seq<Record>, a: Attribute): seq<Key>
  {
    Dedup(KeysOf(rs, a))
  }

  function SumSizes(ks: seq<Key>, subsets: map<Key, DS>): nat
  {
    if ks == [] then 0
    else (if ks[0] in subsets then |subsets[ks[0]].records| else 0) + SumSizes(ks[1..], subsets)
  }

  lemma {:induction false} SelectOfDistinct(rs: seq<Record>, a: Attribute, k: Key)
    requires Distinct(rs)
    ensures Distinct(Select(rs, a, k))
  {
    if rs != [] {
      var init := rs[..|rs| - 1];
      assert Distinct(init);
      SelectOfDistinct(init, a, k);
      assert rs[|rs| - 1] !in init;
    }
  }

  lemma {:induction false} SumSizesIsSumCounts(ks: seq<Key>, ds: DS, a: Attribute)
    requires a.Nominal? && Distinct(ds.records)
    ensures SumSizes(ks, Split(ds, a).value) == SumCounts(ks, multiset(KeysOf(ds.records, a)))
  {
    if ks != [] {
      SumSizesIsSumCounts(ks[1..], ds, a);
      var k := ks[0];
      var m := multiset(KeysOf(ds.records, a));
      if k in Split(ds, a).value {
        MembersIsDedupSelect(ds.records, a, k);
        SelectOfDistinct(ds.records, a, k);
        DedupOfDistinct(Select(ds.records, a, k));
      }
    }
  }

  lemma KeyOrderIsSplitKeys(rs: seq<Record>, a: Attribute)
    ensures forall k :: k in ValuesIn(rs, a) <==> k in KeyOrder(rs, a)
  {
    var ks := KeysOf(rs, a);
    forall k ensures k in ValuesIn(rs, a) <==> k in KeyOrder(rs, a) {
      if k in KeyOrder(rs, a) {
        var i :| 0 <= i < |ks| && ks[i] == k;
        assert rs[i] in rs;
      }
      if k in ValuesIn(rs, a) {
        var r :| r in rs && ValueIn(r, a) == k;
        var i :| 0 <= i < |rs| && rs[i] == r;
        assert ks[i] == k;
      }
    }
  }

  /** For a set of records the sub-dataset sizes add up to the size of the dataset, also after
      `a` is dropped; the keys are taken in the order the partition map yields them. */
  lemma SplitSizesSumToSize(ds: DS, a: Attribute)
    requires a.Nominal? && Distinct(ds.records)
    ensures forall k :: k in Split(ds, a).value <==> k in KeyOrder(ds.records, a)
    ensures SumSizes(KeyOrder(ds.records, a), Split(ds, a).value) == |ds.records|
  {
    KeyOrderIsSplitKeys(ds.records, a);
    SumSizesIsSumCounts(KeyOrder(ds.records, a), ds, a);
    SumCountsTotal(KeyOrder(ds.records, a), KeysOf(ds.records, a));
  }

  // ---------------------------------------------------------------- attribute selection

  /** Every attribute of the list is discrete. */
  predicate AllNominal(attrs: seq<Attribute>)
  {
    forall i :: 0 <= i < |attrs| ==> attrs[i].Nominal?
  }

  /** The state of the selection loop after the attributes `attrs`: the highest gain ratio so
      far (starting from 0) and the attribute that first reached it; Failure once a numeric
      attribute is scored, as scoring one needs its partition. */
  function SelectScan(ds: DS, attrs: seq<Attribute>, sc: Scorer): (res: Result<(real, Option<Attribute>), Error>)
    ensures res.Success? <==> AllNominal(attrs)
    ensures res.Success? ==> res.value.0 >= 0.0
    ensures res.Success? && res.value.1.Some? ==>
      res.value.1.value in attrs && res.value.1.value.Nominal? && res.value.0 > 0.0
  {
    if attrs == [] then Success((0.0, None))
    else
      var init := attrs[..|attrs| - 1];
      var a := attrs[|attrs| - 1];
      assert forall i :: 0 <= i < |attrs| ==> attrs[i] == if i < |init| then init[i] else a;
      var prev := SelectScan(ds, init, sc);
      if prev.Failure? then prev
      else if a.Continuous? then Failure(UnsupportedSplit)
      else if sc.ratio(ds, a) > prev.value.0 then Success((sc.ratio(ds, a), Some(a)))
      else prev
  }

  /** The sum of the gains of the attributes. */
  function GainSum(ds: DS, attrs: seq<Attribute>, sc: Scorer): real
  {
    if attrs == [] then 0.0 else GainSum(ds, attrs[..|attrs| - 1], sc) + sc.gain(ds, attrs[|attrs| - 1])
  }

  /** The mean gain over the attribute list. */
  function MeanGain(ds: DS, sc: Scorer): real
    requires |ds.attrs| > 0
  {
    GainSum(ds, ds.attrs, sc) / (|ds.attrs| as real)
  }

  /** The split attribute: the attribute with the highest positive gain ratio, unless its gain
      falls below `threshold` times the mean gain over the attribute list. */
  function BestAttr(ds: DS, threshold: real, sc: Scorer): (res: Result<Option<Attribute>, Error>)
    ensures res.Success? <==> AllNominal(ds.attrs)
    ensures res.Success? && res.value.Some? ==> res.value.value in ds.attrs && res.value.value.Nominal?
  {
    var scan := SelectScan(ds, ds.attrs, sc);
    if scan.Failure? then Failure(scan.error)
    else
      var best := scan.value.1;
      if best.None? then Success(None)
      else if sc.gain(ds, best.value) < threshold * MeanGain(ds, sc) then Success(None)
      else Success(best)
  }

  /** `i` is the position of the first attribute with the highest gain ratio, and that ratio
      is positive. */
  ghost predicate FirstBest(ds: DS, sc: Scorer, attrs: seq<Attribute>, i: int)
  {
    0 <= i < |attrs| && sc.ratio(ds, attrs[i]) > 0.0 &&
    (forall j :: 0 <= j < |attrs| ==> sc.ratio(ds, attrs[j]) <= sc.ratio(ds, attrs[i])) &&
    (forall j :: 0 <= j < i ==> sc.ratio(ds, attrs[j]) < sc.ratio(ds, attrs[i]))
  }

  lemma {:induction false} SelectScanFacts(ds: DS, attrs: seq<Attribute>, sc: Scorer)
    requires AllNominal(attrs)
    ensures SelectScan(ds, attrs, sc).value.1.None? <==>
      forall j :: 0 <= j < |attrs| ==> sc.ratio(ds, attrs[j]) <= 0.0
    ensures SelectScan(ds, attrs, sc).value.1.None? ==> SelectScan(ds, attrs, sc).value.0 == 0.0
    ensures SelectScan(ds, attrs, sc).value.1.Some? ==>
      exists i :: FirstBest(ds, sc, attrs, i) && attrs[i] == SelectScan(ds, attrs, sc).value.1.value &&
        SelectScan(ds, attrs, sc).value.0 == sc.ratio(ds, attrs[i])
  {
    if attrs != [] {
      var init := attrs[..|attrs| - 1];
      assert AllNominal(init);
      SelectScanFacts(ds, init, sc);
      SelectScanStep(ds, init, attrs[|attrs| - 1], sc);
      assert attrs == init + [attrs[|attrs| - 1]];
    }
  }

  /** The step of the induction above: scoring one more attribute. */
  lemma SelectScanStep(ds: DS, init: seq<Attribute>, a: Attribute, sc: Scorer)
    requires AllNominal(init) && a.Nominal?
    requires SelectScan(ds, init, sc).value.1.None? <==>
      forall j :: 0 <= j < |init| ==> sc.ratio(ds, init[j]) <= 0.0
    requires SelectScan(ds, init, sc).value.1.None? ==> SelectScan(ds, init, sc).value.0 == 0.0
    requires SelectScan(ds, init, sc).value.1.Some? ==>
      exists i :: FirstBest(ds, sc, init, i) && init[i] == SelectScan(ds, init, sc).value.1.value &&
        SelectScan(ds, init, sc).value.0 == sc.ratio(ds, init[i])
    ensures AllNominal(init + [a])
    ensures SelectScan(ds, init + [a], sc).value.1.None? <==>
      forall j :: 0 <= j < |init + [a]| ==> sc.ratio(ds, (init + [a])[j]) <= 0.0
    ensures SelectScan(ds, init + [a], sc).value.1.None? ==> SelectScan(ds, init + [a], sc).value.0 == 0.0
    ensures SelectScan(ds, init + [a], sc).value.1.Some? ==>
      exists i :: FirstBest(ds, sc, init + [a], i) && (init + [a])[i] == SelectScan(ds, init + [a], sc).value.1.value &&
        SelectScan(ds, init + [a], sc).value.0 == sc.ratio(ds, (init + [a])[i])
  {
    var attrs := init + [a];
    assert attrs[..|attrs| - 1] == init;
    var (maxRatio, best) := SelectScan(ds, init, sc).value;
    if sc.ratio(ds, a) > maxRatio {
      assert forall j :: 0 <= j < |init| ==> sc.ratio(ds, init[j]) <= maxRatio by {
        if best.Some? {
          var i :| FirstBest(ds, sc, init, i) && maxRatio == sc.ratio(ds, init[i]);
        }
      }
      NewBest(ds, init, a, sc, maxRatio);
    } else if best.Some? {
      var i :| FirstBest(ds, sc, init, i) && init[i] == best.value && maxRatio == sc.ratio(ds, init[i]);
      KeptBest(ds, init, a, sc, i);
    }
  }

  /** An attribute whose ratio beats the best so far becomes the first best. */
  lemma NewBest(ds: DS, init: seq<Attribute>, a: Attribute, sc: Scorer, maxRatio: real)
    requires maxRatio >= 0.0 && sc.ratio(ds, a) > maxRatio
    requires forall j :: 0 <= j < |init| ==> sc.ratio(ds, init[j]) <= maxRatio
    ensures FirstBest(ds, sc, init + [a], |init|)
  {
    var attrs := init + [a];
    assert forall j :: 0 <= j < |init| ==> attrs[j] == init[j];
  }

  /** An attribute whose ratio does not beat the first best leaves it the first best. */
  lemma KeptBest(ds: DS, init: seq<Attribute>, a: Attribute, sc: Scorer, i: int)
    requires FirstBest(ds, sc, init, i) && sc.ratio(ds, a) <= sc.ratio(ds, init[i])
    ensures FirstBest(ds, sc, init + [a], i) && (init + [a])[i] == init[i]
  {
    var attrs := init + [a];
    assert forall j :: 0 <= j < |init| ==> attrs[j] == init[j];
  }

  /** The first attribute with the highest positive gain ratio is chosen unless its gain is
      below `threshold` times the mean gain, in which case no attribute is. */
  lemma BestAttrIsFirstBest(ds: DS, threshold: real, sc: Scorer, i: int)
    requires AllNominal(ds.attrs)
    requires FirstBest(ds, sc, ds.attrs, i)
    ensures BestAttr(ds, threshold, sc) ==
      if sc.gain(ds, ds.attrs[i]) < threshold * MeanGain(ds, sc) then Success(None)
      else Success(Some(ds.attrs[i]))
  {
    ScanFindsFirstBest(ds, sc, i);
  }

  lemma ScanFindsFirstBest(ds: DS, sc: Scorer, i: int)
    requires AllNominal(ds.attrs)
    requires FirstBest(ds, sc, ds.attrs, i)
    ensures SelectScan(ds, ds.attrs, sc).value.1 == Some(ds.attrs[i])
  {
    SelectScanFacts(ds, ds.attrs, sc);
    var best := SelectScan(ds, ds.attrs, sc).value.1;
    var i' :| FirstBest(ds, sc, ds.attrs, i') && ds.attrs[i'] == best.value;
    FirstBestUnique(ds, sc, ds.attrs, i, i');
  }

  lemma FirstBestUnique(ds: DS, sc: Scorer, attrs: seq<Attribute>, i: int, i': int)
    requires FirstBest(ds, sc, attrs, i) && FirstBest(ds, sc, attrs, i')
    ensures i == i'
  {
  }

  /** No attribute is chosen when none has a positive gain ratio (an empty list included). */
  lemma BestAttrNoneWithoutPositiveRatio(ds: DS, threshold: real, sc: Scorer)
    requires AllNominal(ds.attrs)
    requires forall j :: 0 <= j < |ds.attrs| ==> sc.ratio(ds, ds.attrs[j]) <= 0.0
    ensures BestAttr(ds, threshold, sc) == Success(None)
  {
    SelectScanFacts(ds, ds.attrs, sc);
  }

  // ---------------------------------------------------------------- numeric promotion

  function Promote(a: Attribute, hasOnlyNumber: Attribute -> bool): Attribute
  {
    if a.Nominal? && hasOnlyNumber(a) then Continuous(a.name) else a
  }

  /** The attribute list with every discrete attribute whose values are all numbers promoted
      to a numeric one: same length, same names at the same positions, and only those entries
      changed. */
  function PromoteAll(attrs: seq<Attribute>, hasOnlyNumber: Attribute -> bool): (r: seq<Attribute>)
    ensures |r| == |attrs|
    ensures forall i :: 0 <= i < |attrs| ==> r[i].name == attrs[i].name
    ensures forall i :: 0 <= i < |attrs| ==>
      (r[i] != attrs[i] <==> attrs[i].Nominal? && hasOnlyNumber(attrs[i]))
    ensures forall i :: 0 <= i < |attrs| ==>
      (r[i].Continuous? <==> attrs[i].Continuous? || hasOnlyNumber(attrs[i]))
  {
    seq(|attrs|, i requires 0 <= i < |attrs| => Promote(attrs[i], hasOnlyNumber))
  }
}
