/** The tree builder: grows a decision tree over a dataset by the stopping and pruning rules
    of the source, splitting on the attribute of best gain ratio and recursing into every
    sub-dataset of the split. */
module DecisionTreeGenerator {
  import opened Seqs
  import opened Records
  import opened DatasetSpec
  import opened DatasetImpl

  /** A grown tree. NoNode stands for the null node the builder returns for a dataset whose
      records do not fit its attribute list; a leaf carries a class value (None only for the
      majority of no records); an internal node tests an attribute and has one branch per key. */
  datatype Tree = NoNode | Leaf(cls: Option<Value>) | Internal(attr: Attribute, children: map<Key, Tree>)

  /** Pruning settings: a node whose dataset is smaller than `sizeThreshold` times the root's
      size becomes a leaf, and `gainThreshold` is the threshold handed to attribute selection. */
  datatype Config = Config(sizeThreshold: real, gainThreshold: real)

  const DefaultSizeThreshold: real := 0.1

  /** Size pruning: the dataset has fewer records than the size threshold times the root size. */
  predicate TooSmall(ds: DS, baseSize: real, cfg: Config)
  {
    (|ds.records| as real) < cfg.sizeThreshold * baseSize
  }

  /** Every record holds one value per attribute of the list, plus its class value. */
  predicate Ready(ds: DS)
  {
    forall r :: r in ds.records ==> RecordSize(r) == |ds.attrs| + 1
  }

  /** The dimension check: one pass over the records that clears a flag on every record of the
      wrong size, without stopping early. */
  method IsReady(trainData: Dataset) returns (b: bool)
    ensures b <==> Ready(trainData.Model())
  {
    var dimension := |trainData.attrlist|;
    var rs := trainData.records;
    b := true;
    var i := 0;
    while i < |rs|
      invariant 0 <= i <= |rs|
      invariant b <==> forall j :: 0 <= j < i ==> RecordSize(rs[j]) == dimension + 1
    {
      if RecordSize(rs[i]) != dimension + 1 {
        b := false;
      }
      i := i + 1;
    }
  }

  /** The tree grown from `ds`, where `baseSize` is the size of the root dataset. The rules are
      tried in order: the dimension check, a single common class value, an empty attribute
      list, size pruning, and no selected attribute; otherwise the dataset is split on the
      selected attribute. Selection fails on a numeric attribute, and the failure is passed up. */
  function Generate(ds: DS, baseSize: real, cfg: Config, sc: Scorer): (res: Result<Tree, Error>)
    decreases |ds.attrs|, 1
    ensures res.Success? && res.value.Internal? ==> res.value.attr in ds.attrs && res.value.attr.Nominal?
  {
    if !Ready(ds) then Success(NoNode)
    else if CommonClass(ds.records).Some? then Success(Leaf(CommonClass(ds.records)))
    else if |ds.attrs| == 0 then Success(Leaf(Majority(ds.records)))
    else if TooSmall(ds, baseSize, cfg) then Success(Leaf(Majority(ds.records)))
    else
      var best := BestAttr(ds, cfg.gainThreshold, sc);
      if best.Failure? then Failure(best.error)
      else if best.value.None? then Success(Leaf(Majority(ds.records)))
      else
        var a := best.value.value;
        assert a.name in Names(ds.attrs) by {
          var i :| 0 <= i < |ds.attrs| && ds.attrs[i] == a;
        }
        Grow(ds, a, baseSize, cfg, sc)
  }

  /** An internal node on `a`: one branch per key of the split, each holding the tree grown
      from that key's sub-dataset (an empty sub-dataset would get the parent's majority class).
      A failure in any branch is passed up. */
  function Grow(ds: DS, a: Attribute, baseSize: real, cfg: Config, sc: Scorer): (res: Result<Tree, Error>)
    requires a.Nominal? && a.name in Names(ds.attrs)
    decreases |ds.attrs|, 0
    ensures res.Success? ==> res.value.Internal? && res.value.attr == a
  {
    var subsets := Split(ds, a).value;
    var grown := map k | k in subsets ::
      if subsets[k].records == [] then Success(Leaf(Majority(ds.records)))
      else Generate(subsets[k], baseSize, cfg, sc);
    if exists k :: k in grown && grown[k].Failure? then Failure(UnsupportedSplit)
    else Success(Internal(a, map k | k in grown :: grown[k].value))
  }

  /** The entry point: the root's size is the base of size pruning for the whole tree. */
  method Run(trainData: Dataset, cfg: Config, sc: Scorer) returns (tree: Result<Tree, Error>)
    ensures tree == Generate(trainData.Model(), trainData.Size() as real, cfg, sc)
  {
    var baseSize := trainData.Size() as real;
    tree := Generate(trainData.Model(), baseSize, cfg, sc);
  }

  // ---------------------------------------------------------------- stopping rules

  /** The null node comes out exactly for a dataset that fails the dimension check. */
  lemma NoNodeIffNotReady(ds: DS, baseSize: real, cfg: Config, sc: Scorer)
    ensures Generate(ds, baseSize, cfg, sc) == Success(NoNode) <==> !Ready(ds)
  {
  }

  /** A dataset of the right shape whose records all carry class value `c` is a leaf of `c`,
      whatever the attribute list and the pruning settings. */
  lemma PureDatasetIsLeaf(ds: DS, baseSize: real, cfg: Config, sc: Scorer, c: Value)
    requires Ready(ds) && |ds.records| > 0
    requires forall r :: r in ds.records ==> r.classValue == c
    ensures Generate(ds, baseSize, cfg, sc) == Success(Leaf(Some(c)))
  {
    assert ds.records[0] in ds.records;
  }

  /** A mixed dataset becomes a leaf of its majority class value when no attribute is left,
      when it is smaller than the size threshold times the root size, or when selection
      chooses no attribute. */
  lemma MajorityLeafRules(ds: DS, baseSize: real, cfg: Config, sc: Scorer)
    requires Ready(ds) && CommonClass(ds.records).None?
    requires |ds.attrs| == 0 || TooSmall(ds, baseSize, cfg) ||
      BestAttr(ds, cfg.gainThreshold, sc) == Success(None)
    ensures Generate(ds, baseSize, cfg, sc) == Success(Leaf(Majority(ds.records)))
  {
  }

  /** A leaf grown directly from a dataset carries its common class value when it has one,
      and its majority class value otherwise. */
  lemma LeafLabel(ds: DS, baseSize: real, cfg: Config, sc: Scorer)
    requires Generate(ds, baseSize, cfg, sc).Success? && Generate(ds, baseSize, cfg, sc).value.Leaf?
    ensures Generate(ds, baseSize, cfg, sc).value.cls ==
      if CommonClass(ds.records).Some? then CommonClass(ds.records) else Majority(ds.records)
  {
  }

  /** The common class value of a pure dataset, or else the majority class value, is a most
      frequent class value; it is absent only for an empty dataset. */
  lemma LeafValueIsMostFrequent(rs: seq<Record>)
    ensures var l := if CommonClass(rs).Some? then CommonClass(rs) else Majority(rs);
      var freq := ClassFreq(rs);
      (l.None? <==> rs == []) &&
      (l.Some? ==> l.value in freq && forall w :: w in freq ==> freq[w] <= freq[l.value])
  {
    MajorityIsFirstMostFrequent(rs);
    ClassFreqCounts(rs);
    var c := CommonClass(rs);
    if c.Some? {
      var freq := ClassFreq(rs);
      assert rs[0] in rs;
      assert c.value in freq;
      forall w | w in freq ensures w == c.value {
        var r :| r in rs && r.classValue == w;
      }
    }
  }

  // ---------------------------------------------------------------- internal nodes

  /** An internal node tests the attribute selection picks; its branches are exactly the keys
      observed for that attribute, and each branch holds the tree grown, with the same base
      size, from the non-empty sub-dataset of its key, whose attribute list is one shorter. */
  lemma InternalNodeShape(ds: DS, baseSize: real, cfg: Config, sc: Scorer)
    requires Generate(ds, baseSize, cfg, sc).Success? && Generate(ds, baseSize, cfg, sc).value.Internal?
    ensures var t := Generate(ds, baseSize, cfg, sc).value;
      Ready(ds) && CommonClass(ds.records).None? && |ds.attrs| > 0 &&
      !TooSmall(ds, baseSize, cfg) &&
      BestAttr(ds, cfg.gainThreshold, sc) == Success(Some(t.attr)) &&
      t.children.Keys == ValuesIn(ds.records, t.attr) &&
      forall k :: k in t.children ==>
        var child := Child(ds, t.attr, k);
        |child.records| > 0 && |child.attrs| == |ds.attrs| - 1 &&
        Generate(child, baseSize, cfg, sc) == Success(t.children[k])
  {
    var t := Generate(ds, baseSize, cfg, sc).value;
    var a := t.attr;
    assert a.name in Names(ds.attrs) by {
      var i :| 0 <= i < |ds.attrs| && ds.attrs[i] == a;
    }
    SplitChildrenNonEmpty(ds, a);
  }

  /** Conversely, once selection picks `a` at a node that passes the stopping rules and every
      sub-dataset of the split grows without failure, the node is an internal node on `a`
      whose branches hold exactly those trees. */
  lemma InternalWhenSelected(ds: DS, baseSize: real, cfg: Config, sc: Scorer, a: Attribute)
    requires Ready(ds) && CommonClass(ds.records).None? && |ds.attrs| > 0 && !TooSmall(ds, baseSize, cfg)
    requires BestAttr(ds, cfg.gainThreshold, sc) == Success(Some(a))
    requires forall k :: k in ValuesIn(ds.records, a) ==> Generate(Child(ds, a, k), baseSize, cfg, sc).Success?
    ensures Generate(ds, baseSize, cfg, sc).Success?
    ensures var t := Generate(ds, baseSize, cfg, sc).value;
      t == Internal(a, t.children) && t.children.Keys == ValuesIn(ds.records, a) &&
      forall k :: k in t.children ==> Generate(Child(ds, a, k), baseSize, cfg, sc) == Success(t.children[k])
  {
    assert a.name in Names(ds.attrs) by {
      var i :| 0 <= i < |ds.attrs| && ds.attrs[i] == a;
    }
    SplitChildrenNonEmpty(ds, a);
    var subsets := Split(ds, a).value;
    var grown := map k | k in subsets ::
      if subsets[k].records == [] then Success(Leaf(Majority(ds.records)))
      else Generate(subsets[k], baseSize, cfg, sc);
    assert forall k :: k in grown ==> grown[k] == Generate(Child(ds, a, k), baseSize, cfg, sc);
    assert !exists k :: k in grown && grown[k].Failure?;
    assert Generate(ds, baseSize, cfg, sc) == Grow(ds, a, baseSize, cfg, sc);
  }

  // ---------------------------------------------------------------- whole trees

  /** Every path from the root passes at most `n` internal nodes. */
  predicate DepthAtMost(t: Tree, n: nat)
  {
    match t
    case Internal(_, children) => n > 0 && forall k :: k in children ==> DepthAtMost(children[k], n - 1)
    case _ => true
  }

  /** The recursion ends: each level removes the tested attribute from the list, so no path is
      longer than the attribute list of the root. */
  lemma {:induction false} DepthBound(ds: DS, baseSize: real, cfg: Config, sc: Scorer)
    requires Generate(ds, baseSize, cfg, sc).Success?
    ensures DepthAtMost(Generate(ds, baseSize, cfg, sc).value, |ds.attrs|)
    decreases |ds.attrs|
  {
    var t := Generate(ds, baseSize, cfg, sc).value;
    if t.Internal? {
      InternalNodeShape(ds, baseSize, cfg, sc);
      forall k | k in t.children ensures DepthAtMost(t.children[k], |ds.attrs| - 1) {
        DepthBound(Child(ds, t.attr, k), baseSize, cfg, sc);
      }
    }
  }

  /** Every internal node tests an attribute named in `names`, and no node below it tests
      an attribute of the same name. */
  predicate TestsDistinctNames(t: Tree, names: set<AttrName>)
  {
    match t
    case Internal(a, children) =>
      a.name in names && forall k :: k in children ==> TestsDistinctNames(children[k], names - {a.name})
    case _ => true
  }

  /** Over an attribute list with unique names, the tree tests only attributes of the list,
      and no path tests the same attribute twice. */
  lemma {:induction false} TestsAreDistinctOnPaths(ds: DS, baseSize: real, cfg: Config, sc: Scorer)
    requires UniqueNames(ds.attrs) && Generate(ds, baseSize, cfg, sc).Success?
    ensures TestsDistinctNames(Generate(ds, baseSize, cfg, sc).value, Names(ds.attrs))
    decreases |ds.attrs|
  {
    var t := Generate(ds, baseSize, cfg, sc).value;
    if t.Internal? {
      var a := t.attr;
      InternalNodeShape(ds, baseSize, cfg, sc);
      assert a.name in Names(ds.attrs) by {
        var i :| 0 <= i < |ds.attrs| && ds.attrs[i] == a;
      }
      RemoveAttrNames(ds.attrs, a);
      SplitChildContents(ds, a);
      forall k | k in t.children ensures TestsDistinctNames(t.children[k], Names(ds.attrs) - {a.name}) {
        TestsAreDistinctOnPaths(Child(ds, a, k), baseSize, cfg, sc);
      }
    }
  }

  /** A discrete attribute list never makes the builder fail: a failure comes only from
      selection meeting a numeric attribute, and then only at a node that reaches selection. */
  lemma {:induction false} FailsOnlyOnNumeric(ds: DS, baseSize: real, cfg: Config, sc: Scorer)
    ensures Generate(ds, baseSize, cfg, sc).Failure? <==>
      Ready(ds) && CommonClass(ds.records).None? && |ds.attrs| > 0 && !TooSmall(ds, baseSize, cfg) &&
      !AllNominal(ds.attrs)
    decreases |ds.attrs|
  {
    if Ready(ds) && CommonClass(ds.records).None? && |ds.attrs| > 0 && !TooSmall(ds, baseSize, cfg) &&
      AllNominal(ds.attrs)
    {
      var best := BestAttr(ds, cfg.gainThreshold, sc);
      if best.value.Some? {
        var a := best.value.value;
        assert a.name in Names(ds.attrs) by {
          var i :| 0 <= i < |ds.attrs| && ds.attrs[i] == a;
        }
        RemoveAttrSubset(ds.attrs, a);
        SplitChildrenNonEmpty(ds, a);
        var subsets := Split(ds, a).value;
        forall k | k in subsets ensures Generate(subsets[k], baseSize, cfg, sc).Success? {
          assert AllNominal(subsets[k].attrs);
          FailsOnlyOnNumeric(subsets[k], baseSize, cfg, sc);
        }
      }
    }
  }

  /** The records carry a value for exactly the attributes of a list with unique names. */
  ghost predicate Conforms(ds: DS)
  {
    UniqueNames(ds.attrs) && forall r :: r in ds.records ==> r.values.Keys == Names(ds.attrs)
  }

  /** A tree without null nodes or null branch keys whose leaves all carry a value of `vals`. */
  predicate Complete(t: Tree, vals: set<Value>)
  {
    match t
    case NoNode => false
    case Leaf(l) => l.Some? && l.value in vals
    case Internal(_, children) => forall k :: k in children ==> k.Some? && Complete(children[k], vals)
  }

  /** Conforming data passes the dimension check. */
  lemma ConformsIsReady(ds: DS)
    requires Conforms(ds)
    ensures Ready(ds)
  {
    UniqueNamesCount(ds.attrs);
    forall r | r in ds.records ensures RecordSize(r) == |ds.attrs| + 1 {
      assert |r.values| == |r.values.Keys|;
    }
  }

  /** Each sub-dataset of a split on a listed discrete attribute of conforming data conforms
      too, is keyed by a real value, and holds only class values of its parent. */
  lemma ChildConforms(ds: DS, a: Attribute, k: Key)
    requires Conforms(ds) && a.Nominal? && a.name in Names(ds.attrs) && k in Split(ds, a).value
    ensures k.Some? && Conforms(Child(ds, a, k))
    ensures |Child(ds, a, k).records| > 0
    ensures ClassValueSet(Child(ds, a, k).records) <= ClassValueSet(ds.records)
  {
    var child := Child(ds, a, k);
    var r :| r in ds.records && ValueIn(r, a) == k;
    RemoveAttrNames(ds.attrs, a);
    SplitChildrenNonEmpty(ds, a);
    SplitChildContents(ds, a);
    forall c | c in child.records
      ensures c.values.Keys == Names(child.attrs) && c.classValue in ClassValueSet(ds.records)
    {
      assert StrippedFrom(ds, a, k, c);
    }
  }

  /** From non-empty conforming data the builder grows a complete tree: every node passes the
      dimension check, every branch key is a real value, and every leaf is labelled with a class
      value observed in the data. */
  lemma {:induction false} ConformingDataGivesCompleteTree(ds: DS, baseSize: real, cfg: Config, sc: Scorer, vals: set<Value>)
    requires Conforms(ds) && |ds.records| > 0 && ClassValueSet(ds.records) <= vals
    requires Generate(ds, baseSize, cfg, sc).Success?
    ensures Complete(Generate(ds, baseSize, cfg, sc).value, vals)
    decreases |ds.attrs|
  {
    ConformsIsReady(ds);
    var t := Generate(ds, baseSize, cfg, sc).value;
    if t.Leaf? {
      LeafLabel(ds, baseSize, cfg, sc);
      LeafValueIsMostFrequent(ds.records);
      ClassFreqCounts(ds.records);
    } else if t.Internal? {
      var a := t.attr;
      InternalNodeShape(ds, baseSize, cfg, sc);
      assert a.name in Names(ds.attrs) by {
        var i :| 0 <= i < |ds.attrs| && ds.attrs[i] == a;
      }
      forall k | k in t.children ensures k.Some? && Complete(t.children[k], vals) {
        ChildConforms(ds, a, k);
        ConformingDataGivesCompleteTree(Child(ds, a, k), baseSize, cfg, sc, vals);
      }
    }
  }

  // ---------------------------------------------------------------- a worked case

  /** Two records with values `x` and `y` for their one attribute `n` and class values
      `p` and `q`. */
  function TwoRecords(n: AttrName, x: Value, y: Value, p: Value, q: Value): DS
  {
    DS([Record(map[n := x], p), Record(map[n := y], q)], [Nominal(n)])
  }

  lemma TwoRecordsSelect(n: AttrName, x: Value, y: Value, p: Value, q: Value, cfg: Config, sc: Scorer)
    requires p != q
    requires sc.ratio(TwoRecords(n, x, y, p, q), Nominal(n)) > 0.0
    requires sc.gain(TwoRecords(n, x, y, p, q), Nominal(n)) >= 0.0 && cfg.gainThreshold <= 1.0
    ensures Ready(TwoRecords(n, x, y, p, q)) && CommonClass(TwoRecords(n, x, y, p, q).records).None?
    ensures BestAttr(TwoRecords(n, x, y, p, q), cfg.gainThreshold, sc) == Success(Some(Nominal(n)))
  {
    var ds, a := TwoRecords(n, x, y, p, q), Nominal(n);
    assert ds.records[0].values.Keys == {n} && ds.records[1].values.Keys == {n};
    assert ds.records[1].classValue != ds.records[0].classValue;
    assert [a][..0] == [];
    assert SelectScan(ds, [a], sc) == Success((sc.ratio(ds, a), Some(a)));
    var g := sc.gain(ds, a);
    assert GainSum(ds, ds.attrs, sc) == g;
    assert MeanGain(ds, sc) == g;
    assert cfg.gainThreshold * g <= g by {
      assert (1.0 - cfg.gainThreshold) * g >= 0.0;
    }
  }

  lemma TwoRecordsSplitKeys(n: AttrName, x: Value, y: Value, p: Value, q: Value)
    ensures ValuesIn(TwoRecords(n, x, y, p, q).records, Nominal(n)) == {Some(x), Some(y)}
  {
    var ds, a := TwoRecords(n, x, y, p, q), Nominal(n);
    assert ValueIn(ds.records[0], a) == Some(x);
    assert ValueIn(ds.records[1], a) == Some(y);
    assert ds.records[0] in ds.records && ds.records[1] in ds.records;
  }

  lemma TwoRecordsChildren(n: AttrName, x: Value, y: Value, p: Value, q: Value)
    requires x != y
    ensures Child(TwoRecords(n, x, y, p, q), Nominal(n), Some(x)) == DS([Record(map[], p)], [])
    ensures Child(TwoRecords(n, x, y, p, q), Nominal(n), Some(y)) == DS([Record(map[], q)], [])
  {
    var ds, a := TwoRecords(n, x, y, p, q), Nominal(n);
    var r1, r2 := ds.records[0], ds.records[1];
    assert ValueIn(r1, a) == Some(x) && ValueIn(r2, a) == Some(y);
    assert ds.records[..1] == [r1] && [r1][..0] == [];
    assert Members([], a, Some(x)) == [] && Members([], a, Some(y)) == [];
    assert Members([r1], a, Some(x)) == [r1] && Members([r1], a, Some(y)) == [];
    assert FirstNamed(ds.attrs, n) == 0;
    assert r1.values - {n} == map[] && r2.values - {n} == map[];
  }

  /** A single record with no values over an empty attribute list is a leaf of its class. */
  lemma LoneRecordLeaf(c: Value, baseSize: real, cfg: Config, sc: Scorer)
    ensures Generate(DS([Record(map[], c)], []), baseSize, cfg, sc) == Success(Leaf(Some(c)))
  {
    var ds := DS([Record(map[], c)], []);
    var none: map<AttrName, Value> := map[];
    assert |none| == 0;
    assert Ready(ds);
    PureDatasetIsLeaf(ds, baseSize, cfg, sc, c);
  }

  /** Each child of the two records is the leaf of its record's class. */
  lemma TwoRecordsChildLeaves(n: AttrName, x: Value, y: Value, p: Value, q: Value, baseSize: real, cfg: Config, sc: Scorer)
    requires x != y
    ensures Generate(Child(TwoRecords(n, x, y, p, q), Nominal(n), Some(x)), baseSize, cfg, sc) == Success(Leaf(Some(p)))
    ensures Generate(Child(TwoRecords(n, x, y, p, q), Nominal(n), Some(y)), baseSize, cfg, sc) == Success(Leaf(Some(q)))
  {
    TwoRecordsChildren(n, x, y, p, q);
    LoneRecordLeaf(p, baseSize, cfg, sc);
    LoneRecordLeaf(q, baseSize, cfg, sc);
  }

  /** A node that passes the stopping rules, selects `a` and sees exactly two keys for it is
      the internal node on `a` whose two branches are the trees of the two children. */
  lemma StumpOfTwoKeys(ds: DS, baseSize: real, cfg: Config, sc: Scorer, a: Attribute, kx: Key, ky: Key, tx: Tree, ty: Tree)
    requires Ready(ds) && CommonClass(ds.records).None? && |ds.attrs| > 0 && !TooSmall(ds, baseSize, cfg)
    requires BestAttr(ds, cfg.gainThreshold, sc) == Success(Some(a))
    requires ValuesIn(ds.records, a) == {kx, ky}
    requires Generate(Child(ds, a, kx), baseSize, cfg, sc) == Success(tx)
    requires Generate(Child(ds, a, ky), baseSize, cfg, sc) == Success(ty)
    ensures Generate(ds, baseSize, cfg, sc).Success?
    ensures var t := Generate(ds, baseSize, cfg, sc).value;
      t.Internal? && t.attr == a && t.children.Keys == {kx, ky} && t.children[kx] == tx && t.children[ky] == ty
  {
    forall k | k in ValuesIn(ds.records, a) ensures Generate(Child(ds, a, k), baseSize, cfg, sc).Success? {
      assert k == kx || k == ky;
    }
    InternalWhenSelected(ds, baseSize, cfg, sc, a);
    var t := Generate(ds, baseSize, cfg, sc).value;
    assert kx in t.children && ky in t.children;
  }

  /** The tree grown from the two records when `n` has a positive gain ratio and the pruning
      rules let the root split: a stump on `n` with one leaf per value, each labelled with the
      class of its record. */
  lemma TwoRecordStump(n: AttrName, x: Value, y: Value, p: Value, q: Value, baseSize: real, cfg: Config, sc: Scorer)
    requires x != y && p != q
    requires !TooSmall(TwoRecords(n, x, y, p, q), baseSize, cfg)
    requires sc.ratio(TwoRecords(n, x, y, p, q), Nominal(n)) > 0.0
    requires sc.gain(TwoRecords(n, x, y, p, q), Nominal(n)) >= 0.0 && cfg.gainThreshold <= 1.0
    ensures Generate(TwoRecords(n, x, y, p, q), baseSize, cfg, sc).Success?
    ensures var t := Generate(TwoRecords(n, x, y, p, q), baseSize, cfg, sc).value;
      t.Internal? && t.attr == Nominal(n) && t.children.Keys == {Some(x), Some(y)} &&
      t.children[Some(x)] == Leaf(Some(p)) && t.children[Some(y)] == Leaf(Some(q))
  {
    var ds, a := TwoRecords(n, x, y, p, q), Nominal(n);
    TwoRecordsSelect(n, x, y, p, q, cfg, sc);
    TwoRecordsChildLeaves(n, x, y, p, q, baseSize, cfg, sc);
    TwoRecordsSplitKeys(n, x, y, p, q);
    StumpOfTwoKeys(ds, baseSize, cfg, sc, a, Some(x), Some(y), Leaf(Some(p)), Leaf(Some(q)));
  }

  /** With the default size threshold and the whole dataset as the root, the root of the two
      records is not pruned. */
  lemma TwoRecordsDefaultStump(n: AttrName, x: Value, y: Value, p: Value, q: Value, gainThreshold: real, sc: Scorer)
    requires x != y && p != q
    requires sc.ratio(TwoRecords(n, x, y, p, q), Nominal(n)) > 0.0
    requires sc.gain(TwoRecords(n, x, y, p, q), Nominal(n)) >= 0.0 && gainThreshold <= 1.0
    ensures Generate(TwoRecords(n, x, y, p, q), 2.0, Config(DefaultSizeThreshold, gainThreshold), sc).Success?
    ensures var t := Generate(TwoRecords(n, x, y, p, q), 2.0, Config(DefaultSizeThreshold, gainThreshold), sc).value;
      t.Internal? && t.attr == Nominal(n) && t.children.Keys == {Some(x), Some(y)} &&
      t.children[Some(x)] == Leaf(Some(p)) && t.children[Some(y)] == Leaf(Some(q))
  {
    TwoRecordStump(n, x, y, p, q, 2.0, Config(DefaultSizeThreshold, gainThreshold), sc);
  }
}
