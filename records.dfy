/** The shapes of the values, attributes and records a dataset is made of.
    Only what the dataset and the tree builder rely on is modelled: an attribute is
    identified by its name, a record maps attribute names to values and carries its
    class value apart. */
module Records {
  import opened Seqs

  type AttrName = string

  /** An attribute value or a class value, kept as its text. */
  type Value = string

  /** What a record yields for an attribute: its value, or None (a null reference) when the
      record holds no value under that attribute's name. Partition keys and tree branches
      are of this type. */
  type Key = Option<Value>

  /** A discrete attribute, or one promoted to numeric because all its values are numbers. */
  datatype Attribute = Nominal(name: AttrName) | Continuous(name: AttrName)

  datatype Record = Record(values: map<AttrName, Value>, classValue: Value)

  /** Splitting on a numeric attribute is not implemented (the partition is a null map). */
  datatype Error = UnsupportedSplit

  /** How many values a record holds: one per attribute plus its class value. */
  function RecordSize(r: Record): nat
  {
    |r.values| + 1
  }

  function ValueIn(r: Record, a: Attribute): Key
  {
    if a.name in r.values then Some(r.values[a.name]) else None
  }

  /** The record with its value for `a` dropped: it keeps its class value and its value for
      every other attribute, and holds one value fewer when it had one for `a`. */
  function Strip(r: Record, a: Attribute): (s: Record)
    ensures s.classValue == r.classValue && ValueIn(s, a) == None
    ensures forall b: Attribute :: b.name != a.name ==> ValueIn(s, b) == ValueIn(r, b)
    ensures RecordSize(s) == if a.name in r.values then RecordSize(r) - 1 else RecordSize(r)
  {
    Record(r.values - {a.name}, r.classValue)
  }

  function Names(attrs: seq<Attribute>): set<AttrName>
  {
    set i | 0 <= i < |attrs| :: attrs[i].name
  }

  lemma NamesCons(attrs: seq<Attribute>)
    requires attrs != []
    ensures Names(attrs) == {attrs[0].name} + Names(attrs[1..])
  {
    forall n | n in Names(attrs) ensures n in {attrs[0].name} + Names(attrs[1..]) {
      var i :| 0 <= i < |attrs| && attrs[i].name == n;
      if i > 0 { assert attrs[1..][i - 1] == attrs[i]; }
    }
    forall n | n in Names(attrs[1..]) ensures n in Names(attrs) {
      var i :| 0 <= i < |attrs[1..]| && attrs[1..][i].name == n;
      assert attrs[i + 1] == attrs[1..][i];
    }
  }

  /** The position of the first attribute named `n`, or the length of the list if none is. */
  function FirstNamed(attrs: seq<Attribute>, n: AttrName): (i: nat)
    ensures i <= |attrs|
    ensures forall j :: 0 <= j < i ==> attrs[j].name != n
    ensures i < |attrs| ==> attrs[i].name == n
  {
    if attrs == [] then 0 else if attrs[0].name == n then 0 else 1 + FirstNamed(attrs[1..], n)
  }

  /** Removal from an attribute list, as java.util.List.remove: the first attribute with the
      name of `a` is taken out and the others keep their order; a list without that name is
      left as it is. */
  function RemoveAttr(attrs: seq<Attribute>, a: Attribute): (r: seq<Attribute>)
    ensures a.name !in Names(attrs) ==> r == attrs
    ensures a.name in Names(attrs) ==> |r| == |attrs| - 1
    ensures a.name in Names(attrs) ==>
      exists i :: 0 <= i < |attrs| && attrs[i].name == a.name &&
        (forall j :: 0 <= j < i ==> attrs[j].name != a.name) && r == attrs[..i] + attrs[i + 1..]
  {
    var i := FirstNamed(attrs, a.name);
    if i < |attrs| then attrs[..i] + attrs[i + 1..] else attrs
  }

  /** Removal keeps only attributes of the original list. */
  lemma RemoveAttrSubset(attrs: seq<Attribute>, a: Attribute)
    ensures forall x :: x in RemoveAttr(attrs, a) ==> x in attrs
  {
    var r := RemoveAttr(attrs, a);
    var i := FirstNamed(attrs, a.name);
    if i < |attrs| {
      assert forall j :: 0 <= j < |r| ==> r[j] == (if j < i then attrs[j] else attrs[j + 1]);
      forall x | x in r ensures x in attrs {
        var j :| 0 <= j < |r| && r[j] == x;
      }
    }
  }

  /** Attribute names along a list occur once each. */
  ghost predicate UniqueNames(attrs: seq<Attribute>)
  {
    forall i, j :: 0 <= i < j < |attrs| ==> attrs[i].name != attrs[j].name
  }

  /** On a list with unique names, removing an attribute that is in the list shortens the list
      by one, keeps the names unique, and takes out exactly that name. */
  lemma RemoveAttrNames(attrs: seq<Attribute>, a: Attribute)
    requires UniqueNames(attrs) && a.name in Names(attrs)
    ensures |RemoveAttr(attrs, a)| == |attrs| - 1
    ensures UniqueNames(RemoveAttr(attrs, a))
    ensures Names(RemoveAttr(attrs, a)) == Names(attrs) - {a.name}
  {
    var r := RemoveAttr(attrs, a);
    var i := FirstNamed(attrs, a.name);
    assert forall j :: 0 <= j < |r| ==> r[j] == (if j < i then attrs[j] else attrs[j + 1]);
    forall n | n in Names(r) ensures n in Names(attrs) - {a.name} {
      var j :| 0 <= j < |r| && r[j].name == n;
    }
    forall n | n in Names(attrs) - {a.name} ensures n in Names(r) {
      var j :| 0 <= j < |attrs| && attrs[j].name == n;
      if j < i { assert r[j].name == n; } else { assert j != i; assert r[j - 1].name == n; }
    }
  }

  /** A list with unique names has as many names as entries. */
  lemma {:induction false} UniqueNamesCount(attrs: seq<Attribute>)
    requires UniqueNames(attrs)
    ensures |Names(attrs)| == |attrs|
  {
    if attrs != [] {
      var tail := attrs[1..];
      UniqueNamesCount(tail);
      NamesCons(attrs);
      forall i | 0 <= i < |tail| ensures tail[i].name != attrs[0].name {
        assert tail[i] == attrs[i + 1];
      }
    }
  }
}
