/** The dataset object: a set of records and the attribute list they share. Its methods
    work as the source's do, by loops over the records and the attribute list, and each is
    proved to compute the corresponding function of module DatasetSpec. */
module DatasetImpl {
  import opened Seqs
  import opened Records
  import opened DatasetSpec

  /** One more record in the counting loop increments the count of its class value. */
  lemma CountStep(rs: seq<Record>, i: nat)
    requires i < |rs|
    ensures var f, c := ClassFreq(rs[..i]), rs[i].classValue;
      ClassFreq(rs[..i + 1]) == f[c := (if c in f then f[c] else 0) + 1]
  {
    assert rs[..i + 1] == rs[..i] + [rs[i]];
    ClassFreqSnoc(rs[..i], rs[i]);
  }

  /** Distinct keys lead to distinct datasets. */
  predicate Injective(subsets: map<Key, Dataset>)
  {
    forall k1, k2 :: k1 in subsets && k2 in subsets && k1 != k2 ==> subsets[k1] != subsets[k2]
  }

  /** One new, empty dataset over `attrs` per key. */
  method NewSubsets(keys: set<Key>, attrs: seq<Attribute>) returns (subsets: map<Key, Dataset>)
    ensures subsets.Keys == keys && Injective(subsets)
    ensures forall k :: k in subsets ==> fresh(subsets[k])
    ensures forall k :: k in subsets ==> subsets[k].records == [] && subsets[k].attrlist == attrs
  {
    subsets := map[];
    var remaining := keys;
    while remaining != {}
      invariant remaining <= keys
      invariant subsets.Keys == keys - remaining && Injective(subsets)
      invariant forall k :: k in subsets ==> fresh(subsets[k])
      invariant forall k :: k in subsets ==> subsets[k].records == [] && subsets[k].attrlist == attrs
      decreases remaining
    {
      var k :| k in remaining;
      var subDS := new Dataset.Empty(attrs);
      subsets := subsets[k := subDS];
      remaining := remaining - {k};
    }
  }

  /** Adds every record, in order, to the dataset of its key for `a`. */
  method Distribute(rs: seq<Record>, a: Attribute, subsets: map<Key, Dataset>)
    requires ValuesIn(rs, a) <= subsets.Keys && Injective(subsets)
    requires forall k :: k in subsets ==> subsets[k].records == []
    modifies set k | k in subsets :: subsets[k]
    ensures forall k :: k in subsets ==> subsets[k].records == Members(rs, a, k)
    ensures forall k :: k in subsets ==> subsets[k].attrlist == old(subsets[k].attrlist)
  {
    var i := 0;
    while i < |rs|
      invariant 0 <= i <= |rs|
      invariant forall k :: k in subsets ==> subsets[k].attrlist == old(subsets[k].attrlist)
      invariant forall k :: k in subsets ==> subsets[k].records == Members(rs[..i], a, k)
    {
      assert rs[i] in rs;
      assert rs[..i + 1] == rs[..i] + [rs[i]];
      Place(subsets, rs[i], a, rs[..i]);
      i := i + 1;
    }
    assert rs[..i] == rs;
  }

  /** Adds one record to the dataset of its key. */
  method Place(subsets: map<Key, Dataset>, r: Record, a: Attribute, ghost done: seq<Record>)
    requires ValueIn(r, a) in subsets && Injective(subsets)
    requires forall k :: k in subsets ==> subsets[k].records == Members(done, a, k)
    modifies set k | k in subsets :: subsets[k]
    ensures forall k :: k in subsets ==> subsets[k].records == Members(done + [r], a, k)
    ensures forall k :: k in subsets ==> subsets[k].attrlist == old(subsets[k].attrlist)
  {
    forall k {
      MembersSnoc(done, r, a, k);
    }
    var _ := subsets[ValueIn(r, a)].Add(r);
  }

  /** Removes `a` from every dataset of the map, from its attribute list and its records. */
  method StripSubsets(subsets: map<Key, Dataset>, a: Attribute)
    requires Injective(subsets)
    modifies set k | k in subsets :: subsets[k]
    ensures forall k :: k in subsets ==>
      subsets[k].records == StripAll(old(subsets[k].records), a) &&
      subsets[k].attrlist == RemoveAttr(old(subsets[k].attrlist), a)
  {
    var remaining := subsets.Keys;
    while remaining != {}
      invariant remaining <= subsets.Keys
      invariant forall k :: k in subsets && k !in remaining ==>
        subsets[k].records == StripAll(old(subsets[k].records), a) &&
        subsets[k].attrlist == RemoveAttr(old(subsets[k].attrlist), a)
      invariant forall k :: k in remaining ==>
        subsets[k].records == old(subsets[k].records) && subsets[k].attrlist == old(subsets[k].attrlist)
      decreases remaining
    {
      var k :| k in remaining;
      subsets[k].RemoveValueInAttr(a);
      remaining := remaining - {k};
    }
  }

  class Dataset {
    /** The record set, as a sequence in the order the model fixes for iterating it. */
    var records: seq<Record>
    var attrlist: seq<Attribute>

    /** The dataset's current value. */
    function Model(): DS
      reads this
    {
      DS(records, attrlist)
    }

    /** The record sequence stands for a set: it holds no record twice. */
    ghost predicate Valid()
      reads this
    {
      Distinct(records)
    }

    /** A dataset over a given record set (a set holds no record twice). */
    constructor (recordSet: seq<Record>, attrlist: seq<Attribute>)
      requires Distinct(recordSet)
      ensures records == recordSet && this.attrlist == attrlist
      ensures Valid()
    {
      records := recordSet;
      this.attrlist := attrlist;
    }

    /** A dataset with no records yet. */
    constructor Empty(attrlist: seq<Attribute>)
      ensures records == [] && this.attrlist == attrlist
      ensures Valid()
    {
      records := [];
      this.attrlist := attrlist;
    }

    function Size(): nat
      reads this
    {
      |records|
    }

    predicate IsEmpty()
      reads this
    {
      records == []
    }

    /** Adds a record unless an equal one is present; tells whether it was added. */
    method Add(rcd: Record) returns (added: bool)
      modifies this
      ensures added <==> rcd !in old(records)
      ensures records == Insert(old(records), rcd) && attrlist == old(attrlist)
      ensures old(Valid()) ==> Valid()
    {
      added := rcd !in records;
      if added {
        records := records + [rcd];
      }
    }

    /** Replaces, in place, every discrete attribute whose values are all numbers by a numeric
        attribute of the same name. */
    method ReplaceContinuousAttribute(hasOnlyNumber: Attribute -> bool)
      modifies this
      ensures attrlist == PromoteAll(old(attrlist), hasOnlyNumber) && records == old(records)
    {
      var i := 0;
      while i < |attrlist|
        invariant 0 <= i <= |attrlist| == |old(attrlist)|
        invariant records == old(records)
        invariant forall j :: 0 <= j < i ==> attrlist[j] == Promote(old(attrlist)[j], hasOnlyNumber)
        invariant forall j :: i <= j < |attrlist| ==> attrlist[j] == old(attrlist)[j]
      {
        var attr := attrlist[i];
        if attr.Nominal? && hasOnlyNumber(attr) {
          attrlist := attrlist[i := Continuous(attr.name)];
        }
        i := i + 1;
      }
    }

    /** The class value shared by all records; None when there are none or two differ. */
    method CommonClassValue() returns (nv: Option<Value>)
      ensures nv == CommonClass(records)
    {
      nv := None;
      var i := 0;
      while i < |records|
        invariant 0 <= i <= |records|
        invariant nv == if i == 0 then None else Some(records[0].classValue)
        invariant forall j :: 0 <= j < i ==> records[j].classValue == records[0].classValue
      {
        var r := records[i];
        if nv.Some? && nv.value != r.classValue {
          return None;
        }
        nv := Some(r.classValue);
        i := i + 1;
      }
    }

    /** The frequency map of the class values. */
    method CountClassFrequency() returns (freq: map<Value, nat>)
      ensures freq == ClassFreq(records)
    {
      freq := map[];
      var rs := records;
      assert rs[..0] == [];
      var i := 0;
      while i < |rs|
        invariant 0 <= i <= |rs|
        invariant freq == ClassFreq(rs[..i])
      {
        var nv := rs[i].classValue;
        var count := (if nv in freq then freq[nv] else 0) + 1;
        CountStep(rs, i);
        freq := freq[nv := count];
        i := i + 1;
      }
      assert rs[..i] == rs;
    }

    /** The most frequent class value (the first met on a tie); None for no records. */
    method MajorityClassValue() returns (majValue: Option<Value>)
      ensures majValue == Majority(records)
    {
      var valueFrequency := CountClassFrequency();
      // the frequency map yields its keys in the order the class values are first met
      var order := ClassOrder(records);
      ClassOrderIsKeys(records);
      majValue := None;
      var highFreq := 0;
      var i := 0;
      while i < |order|
        invariant 0 <= i <= |order|
        invariant (majValue, highFreq) == MajorityScan(order[..i], valueFrequency)
      {
        var v := order[i];
        var f := valueFrequency[v];
        if f > highFreq {
          majValue := Some(v);
          highFreq := f;
        }
        assert order[..i + 1][..i] == order[..i];
        i := i + 1;
      }
      assert order[..i] == order;
    }

    /** The split attribute chosen by gain ratio, with the gain pruning of `threshold`. */
    method BestAttrByGainRatio(threshold: real, sc: Scorer) returns (res: Result<Option<Attribute>, Error>)
      ensures res == BestAttr(Model(), threshold, sc)
    {
      var gainSum := 0.0;
      var maxGainRatio := 0.0;
      var bestAttr: Option<Attribute> := None;
      var i := 0;
      while i < |attrlist|
        invariant 0 <= i <= |attrlist|
        invariant SelectScan(Model(), attrlist[..i], sc) == Success((maxGainRatio, bestAttr))
        invariant gainSum == GainSum(Model(), attrlist[..i], sc)
      {
        var attr := attrlist[i];
        assert attrlist[..i + 1][..i] == attrlist[..i];
        if attr.Continuous? {
          // scoring a numeric attribute needs its partition, which is not implemented
          assert !AllNominal(attrlist);
          assert BestAttr(Model(), threshold, sc).Failure?;
          assert BestAttr(Model(), threshold, sc).error == UnsupportedSplit;
          return Failure(UnsupportedSplit);
        }
        gainSum := gainSum + sc.gain(Model(), attr);
        var gainRatio := sc.ratio(Model(), attr);
        if gainRatio > maxGainRatio {
          maxGainRatio := gainRatio;
          bestAttr := Some(attr);
        }
        i := i + 1;
      }
      assert attrlist[..i] == attrlist;
      if bestAttr.None? {
        return Success(None);
      }
      var gainAve := gainSum / (|attrlist| as real);
      if sc.gain(Model(), bestAttr.value) < threshold * gainAve {
        bestAttr := None;
      }
      return Success(bestAttr);
    }

    /** The set of keys the records hold for `attr`. */
    method ValuesInAttr(attr: Attribute) returns (allValues: set<Key>)
      ensures allValues == ValuesIn(records, attr)
    {
      allValues := {};
      var i := 0;
      while i < |records|
        invariant 0 <= i <= |records|
        invariant allValues == ValuesIn(records[..i], attr)
      {
        assert records[..i + 1] == records[..i] + [records[i]];
        allValues := allValues + {ValueIn(records[i], attr)};
        i := i + 1;
      }
      assert records[..i] == records;
    }

    /** The set of class values the records hold. */
    method ClassValues() returns (allValues: set<Value>)
      ensures allValues == ClassValueSet(records)
    {
      allValues := {};
      var i := 0;
      while i < |records|
        invariant 0 <= i <= |records|
        invariant allValues == ClassValueSet(records[..i])
      {
        assert records[..i + 1] == records[..i] + [records[i]];
        allValues := allValues + {records[i].classValue};
        i := i + 1;
      }
      assert records[..i] == records;
    }

    /** Removes `removeAttr` from the attribute list and drops its value from every record. */
    method RemoveValueInAttr(removeAttr: Attribute)
      modifies this
      ensures attrlist == RemoveAttr(old(attrlist), removeAttr)
      ensures records == StripAll(old(records), removeAttr)
    {
      attrlist := RemoveAttr(attrlist, removeAttr);
      var i := 0;
      while i < |records|
        invariant 0 <= i <= |records| == |old(records)|
        invariant attrlist == RemoveAttr(old(attrlist), removeAttr)
        invariant forall j :: 0 <= j < i ==> records[j] == Strip(old(records)[j], removeAttr)
        invariant forall j :: i <= j < |records| ==> records[j] == old(records)[j]
      {
        records := records[i := Strip(records[i], removeAttr)];
        i := i + 1;
      }
    }

    /** One new dataset per observed key of a discrete attribute, each with a copy of the
        attribute list, filled by one pass that adds every record to the dataset of its key. */
    method SplitByNominalAttr(splitNA: Attribute) returns (subsets: map<Key, Dataset>)
      requires splitNA.Nominal?
      ensures subsets.Keys == ValuesIn(records, splitNA) && Injective(subsets)
      ensures forall k :: k in subsets ==> fresh(subsets[k])
      ensures forall k :: k in subsets ==>
        subsets[k].records == Members(records, splitNA, k) && subsets[k].attrlist == attrlist
    {
      var allValues := ValuesInAttr(splitNA);
      subsets := NewSubsets(allValues, attrlist);
      Distribute(records, splitNA, subsets);
    }

    /** Partition by `splitAttr`: the sub-datasets of the discrete split, each with `splitAttr`
        then removed from its attribute list and its records; Failure for a numeric attribute. */
    method SplitByAttr(splitAttr: Attribute) returns (res: Result<map<Key, Dataset>, Error>)
      ensures res.Success? <==> splitAttr.Nominal?
      ensures res.Success? ==> res.value.Keys == Split(Model(), splitAttr).value.Keys
      ensures res.Success? ==> forall k :: k in res.value ==>
        fresh(res.value[k]) && res.value[k].Model() == Split(Model(), splitAttr).value[k]
      ensures res.Success? ==> Injective(res.value)
      ensures res.Success? ==> forall k :: k in res.value ==> res.value[k].Valid()
    {
      if splitAttr.Continuous? {
        return Failure(UnsupportedSplit);
      }
      var subsets := SplitByNominalAttr(splitAttr);
      StripSubsets(subsets, splitAttr);
      SplitKeepsRecordsDistinct(Model(), splitAttr);
      return Success(subsets);
    }
  }
}
