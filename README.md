# MyDecisionTree core, modelled in Dafny

This project models the core of MyDecisionTree, a small Java decision-tree learner in the
style of C4.5. It covers two parts:

- **The dataset** (`src/data/Dataset.java`). A dataset is a set of records plus an attribute list.
  It answers class-value queries: the common class value, class frequencies and the majority class value.
  It picks the split attribute of best gain ratio, with pruning by mean gain.
  It partitions itself by an attribute: one sub-dataset per observed value, with that attribute
  removed from the sub-dataset's attribute list and from its records.
- **The tree builder** (`src/main/DecisionTreeGenerator.java`). The builder first checks that every
  record fits the attribute list. It then applies its stopping and pruning rules in order, and
  recurses into every sub-dataset of the chosen split.

The Dafny files:

- `seqs.dfy` (module `Seqs`). Option and Result types. Duplicate-free sequences model a
  `java.util.Set`, with `Insert` playing the role of `Set.add`. Counting lemmas.
- `records.dfy` (module `Records`). Attributes, records and attribute-list removal.
  - A record maps attribute names to values and keeps its class value apart.
  - Looking up an attribute the record lacks gives `None`, the source's `null`. `null` can
    therefore be a partition key.
  - Record and attribute classes themselves are not part of this model. Only what the dataset
    relies on is kept.
- `dataset_spec.dfy` (module `DatasetSpec`). What each dataset operation computes, as functions of
  a dataset value, and the properties proved about them.
- `dataset.dfy` (module `DatasetImpl`). The `Dataset` class. Its fields `records` and `attrlist` are
  updated in place by its methods, the way the Java class's fields are. Each method is proved to
  compute the matching function of `DatasetSpec`. The loops of the source are loops here.
- `generator.dfy` (module `DecisionTreeGenerator`).
  - The dimension check, as a loop.
  - The tree builder, as a recursive function, as in the source.
  - Lemmas for each stopping rule and about whole trees: depth bound, distinct tests along a path,
    when building fails, completeness on well-formed data.
  - A worked two-record example.

Modelling choices:

- **Iteration order.** A Java `HashSet` or `HashMap` yields its elements in an order the program
  does not control. The model fixes it:
  - records are kept in a sequence, in insertion order; `Dataset.Valid` says the sequence holds
    no record twice, and the constructors, `Add` and the sub-datasets of a split keep it;
  - the class-frequency map and the partition map yield their keys in the order their records
    are first met.
  - Where the result depends on this order, the lemmas say so. The majority class value is the
    *first* most frequent value in that order. The builder labels leaves with the majority value,
    so under a tie in class counts every majority leaf of a tree inherits this tie-break. The
    common class value, the set of keys of the partition and the set of class values do not
    depend on the order.
- **Scoring.** Information gain and gain ratio are floating-point entropy computations. Here they
  are two abstract functions of a `Scorer`. Attribute selection is proved for every choice of them.
- **Numeric attributes.** Splitting on a numeric (continuous) attribute is a stub in the source: it
  returns `null`, and `putAll(null)` then throws. So does scoring such an attribute, because
  scoring splits. The model turns both into `Failure(UnsupportedSplit)`. Attribute selection
  fails exactly when the attribute list holds a numeric attribute.
- **Selection in the builder.** `DecisionTreeGenerator.java:59` calls `getBestAttrByGainRation()`
  with no argument, and line 85 calls `getSet()`. Neither exists in `Dataset.java`, which has
  `bestAttrByGainRation(double)` (line 148) and `getRecordSet()` (line 51). The model follows the
  dataset's code: the builder calls selection with a gain threshold taken from its `Config`, and
  reads the record set directly.
- **Trees.** A tree is `NoNode` (the `null` node returned for a dataset that fails the dimension
  check), a `Leaf` with an optional class value, or an `Internal` node with a map from branch key
  to subtree.

## Model

| member | source | states |
|---|---|---|
| Seqs.Insert | src/data/Dataset.java:64-66 | set-style insertion keeps the old elements in place, contains the new element, grows by one exactly when the element was absent, and keeps a duplicate-free sequence duplicate-free |
| Records.Strip | src/data/Dataset.java:284-285 | a stripped record keeps its class value and its value for every other attribute, holds none for the removed attribute, and holds one value fewer when it had one |
| Records.RemoveAttr | src/data/Dataset.java:283 | removing an attribute from the list takes out the first attribute of that name: no earlier entry has the name, and the entries before and after it keep their order; a list without the name is unchanged, otherwise it is one shorter |
| Records.RemoveAttrSubset | src/data/Dataset.java:283 | after removal only attributes of the original list remain |
| Records.RemoveAttrNames | src/data/Dataset.java:283 | on a list with unique names, removing a listed attribute shortens it by one, keeps names unique and removes exactly that name |
| Records.UniqueNamesCount | src/main/DecisionTreeGenerator.java:83-86 | a list with unique names has as many names as entries, so a record with a value for each name has the size the dimension check expects |
| DatasetSpec.CommonClass | src/data/Dataset.java:99-108 | a common class value exists exactly when the dataset is non-empty and all records share their class value, and it is that value |
| DatasetSpec.ClassFreq | src/data/Dataset.java:133-141 | the class-frequency map, record by record; it has no contract of its own: ClassFreqCounts states its keys and counts, ClassFreqSnoc its step, and CountClassFrequency computes it by the loop |
| DatasetSpec.ClassesSnoc | src/data/Dataset.java:135-138 | one more record appends its class value to the class list and inserts it into the frequency map's key order |
| DatasetSpec.ClassFreqSnoc | src/data/Dataset.java:135-138 | counting one more record adds one to its class value's count (starting from 0 when absent) and changes nothing else |
| DatasetSpec.ClassFreqCounts | src/data/Dataset.java:133-141 | the frequency map has exactly the observed class values as keys, each mapped to its positive number of occurrences |
| DatasetSpec.ClassFreqCountsStep | src/data/Dataset.java:135-138 | a frequency map that counts a record list exactly still counts it exactly after one more record |
| DatasetSpec.ClassValueSetSnoc | src/data/Dataset.java:276-281 | one more record adds its class value to the set of observed class values |
| DatasetSpec.ClassOrderIsKeys | src/data/Dataset.java:120 | the iteration order of the frequency map lists each of its keys exactly once |
| DatasetSpec.SumFreqIsSumCounts | src/data/Dataset.java:133-141 | summing the map's counts along any key list equals summing the multiplicities of those class values |
| DatasetSpec.ClassCountsSumToSize | src/data/Dataset.java:133-141 | the class-value counts add up to the number of records |
| DatasetSpec.MajorityScan | src/data/Dataset.java:118-127 | the strict-greater scan over the map entries in iteration order; no contract of its own: MajorityScanFacts and ScanFindsFirstMax state what it finds |
| DatasetSpec.MajorityScanFacts | src/data/Dataset.java:118-127 | the strict-greater scan over map entries yields nothing exactly for no entries; otherwise an entry whose count no entry exceeds and which beats every entry before it |
| DatasetSpec.Majority | src/data/Dataset.java:114-128 | the majority class value; no contract of its own: MajorityIsFirstMostFrequent states it, and MajorityClassValue computes it by the two loops |
| DatasetSpec.ScanFindsFirstMax | src/data/Dataset.java:118-127 | when the iteration order lists exactly the map's keys, the scan finds nothing only for no keys, and otherwise a key of maximal count met after only keys of strictly smaller count |
| DatasetSpec.MajorityIsFirstMostFrequent | src/data/Dataset.java:114-128 | the majority class value is absent exactly for an empty dataset; otherwise it is an observed class value of maximal frequency, strictly more frequent than every value met before it |
| DatasetSpec.Select | src/data/Dataset.java:253-259 | the records with key k for an attribute are exactly the records whose value is k, and there are as many as k occurs among the keys |
| DatasetSpec.SelectSnoc | src/data/Dataset.java:253-259 | one more record joins the selection of its own key only |
| DatasetSpec.StripAll | src/data/Dataset.java:284-285 | removing an attribute from every record keeps the count and the order; each record keeps its class value and its value for every other attribute name, and holds no value for the removed one |
| DatasetSpec.Members | src/data/Dataset.java:253-259 | the records distributed to a key's sub-dataset, one Set.add per record; no contract of its own: MembersSnoc, MembersIsDedupSelect and MembersFacts state it, and Distribute computes it by the loop |
| DatasetSpec.MembersSnoc | src/data/Dataset.java:253-259 | distributing one more record adds it, set-style, to its own key's sub-dataset and to no other |
| DatasetSpec.MembersIsDedupSelect | src/data/Dataset.java:253-259 | filling a sub-dataset record by record gives the selection of its key without repeats |
| DatasetSpec.MembersFacts | src/data/Dataset.java:253-259 | a sub-dataset before stripping holds no record twice and holds exactly the parent's records with its key |
| DatasetSpec.ValuesIn | src/data/Dataset.java:270-275 | the keys observed for an attribute, null included; no contract of its own: ValuesInAttr computes it by the loop, and Split uses it as its key set |
| DatasetSpec.ClassValueSet | src/data/Dataset.java:276-281 | the observed class values; no contract of its own: ClassValueSetSnoc states its step and ClassValues computes it by the loop |
| DatasetSpec.Child | src/data/Dataset.java:237-240 | a sub-dataset after the attribute is removed; no contract of its own: SplitChildContents, ChildRecordOrigin and SplitKeepsRecordsDistinct state what it holds |
| DatasetSpec.Split | src/data/Dataset.java:228-242 | the partition succeeds exactly for a discrete attribute; its keys are the observed values, null included; when the attribute is listed every sub-dataset's attribute list is one shorter |
| DatasetSpec.SplitChildrenNonEmpty | src/data/Dataset.java:246-259 | no sub-dataset of a partition is empty |
| DatasetSpec.SplitExhaustiveDisjoint | src/data/Dataset.java:244-262 | every record's key is a partition key, the record belongs to its own key's sub-dataset and no other, and is found there stripped of the attribute |
| DatasetSpec.SplitChildContents | src/data/Dataset.java:237-240 | every sub-dataset's attribute list is the parent's with the attribute removed, and each of its records is a parent record with that key, stripped of the attribute |
| DatasetSpec.ChildRecordOrigin | src/data/Dataset.java:282-286 | a record of a sub-dataset lacks the split attribute and comes from a parent record with that key, the same class value and the same other values |
| DatasetSpec.StripInjective | src/data/Dataset.java:284-285 | two records with the same key that are equal once stripped were equal before |
| DatasetSpec.SplitKeepsRecordsDistinct | src/data/Dataset.java:253-259 | splitting a set of records gives sub-datasets that are sets, even after stripping in place |
| DatasetSpec.SelectOfDistinct | src/data/Dataset.java:253-259 | selecting from a duplicate-free record list gives a duplicate-free list |
| DatasetSpec.SumSizesIsSumCounts | src/data/Dataset.java:244-262 | the sub-dataset sizes along a key list add up to how often those keys occur among the records |
| DatasetSpec.KeyOrderIsSplitKeys | src/data/Dataset.java:246-250 | the partition map's iteration order lists exactly the observed keys |
| DatasetSpec.SplitSizesSumToSize | src/data/Dataset.java:244-262 | for a set of records, the sizes of the sub-datasets add up to the size of the dataset |
| DatasetSpec.SelectScan | src/data/Dataset.java:150-161 | the selection loop fails exactly when a numeric attribute is scored; its best ratio is never negative, and a chosen attribute is a listed discrete attribute of positive ratio |
| DatasetSpec.BestAttr | src/data/Dataset.java:148-174 | selection fails exactly when the list holds a numeric attribute; a chosen attribute is a listed discrete attribute |
| DatasetSpec.SelectScanFacts | src/data/Dataset.java:150-161 | the scan chooses nothing exactly when no ratio is positive; otherwise it chooses the first attribute of highest ratio and keeps that ratio |
| DatasetSpec.SelectScanStep | src/data/Dataset.java:152-161 | scoring one more discrete attribute keeps the scan's result the first attribute of highest positive ratio, or none when no ratio is positive |
| DatasetSpec.NewBest | src/data/Dataset.java:157-159 | an attribute whose ratio beats the best so far is the first best of the longer list |
| DatasetSpec.KeptBest | src/data/Dataset.java:157-160 | an attribute whose ratio does not beat the first best leaves it the first best |
| DatasetSpec.BestAttrIsFirstBest | src/data/Dataset.java:148-174 | the first attribute of highest positive ratio is chosen, unless its gain is below the threshold times the mean gain, in which case none is |
| DatasetSpec.ScanFindsFirstBest | src/data/Dataset.java:152-161 | the scan ends on the first attribute of highest positive ratio |
| DatasetSpec.FirstBestUnique | src/data/Dataset.java:157-160 | there is only one first attribute of highest ratio |
| DatasetSpec.BestAttrNoneWithoutPositiveRatio | src/data/Dataset.java:157-164 | with no positive gain ratio, an empty list included, no attribute is chosen |
| DatasetSpec.PromoteAll | src/data/Dataset.java:83-93 | promotion keeps the length and every name in place, changes exactly the discrete attributes whose values are all numbers, and makes numeric exactly those and the already numeric ones |
| DatasetImpl.CountStep | src/data/Dataset.java:135-138 | one loop step of the frequency count adds one to the count of the next record's class value |
| DatasetImpl.NewSubsets | src/data/Dataset.java:247-250 | one new empty dataset per observed key, each with the parent's attribute list, no two the same object |
| DatasetImpl.Distribute | src/data/Dataset.java:253-259 | after the loop each sub-dataset holds exactly the parent's records with its key, each once, and keeps its attribute list |
| DatasetImpl.Place | src/data/Dataset.java:255-259 | adding one record to its key's sub-dataset extends that key's members and leaves every other sub-dataset's contents as they were |
| DatasetImpl.StripSubsets | src/data/Dataset.java:237-240 | every sub-dataset of the map loses the attribute from its list and from its records, in place, each exactly once |
| DatasetImpl.Dataset.constructor | src/data/Dataset.java:30-33 | the dataset holds the given record set and attribute list, and its records are a set |
| DatasetImpl.Dataset.Empty | src/data/Dataset.java:34-36 | the dataset holds no record and the given attribute list, and its records are a set |
| DatasetImpl.Dataset.Add | src/data/Dataset.java:64-66 | adding reports whether the record was absent and inserts it set-style, the attribute list unchanged; records that were a set stay a set |
| DatasetImpl.Dataset.ReplaceContinuousAttribute | src/data/Dataset.java:83-93 | the attribute list becomes its promotion in place, the records unchanged |
| DatasetImpl.Dataset.CommonClassValue | src/data/Dataset.java:99-108 | the loop returns the common class value of the records |
| DatasetImpl.Dataset.CountClassFrequency | src/data/Dataset.java:133-141 | the loop returns the class-frequency map of the records |
| DatasetImpl.Dataset.MajorityClassValue | src/data/Dataset.java:114-128 | the two loops return the majority class value of the records |
| DatasetImpl.Dataset.BestAttrByGainRatio | src/data/Dataset.java:148-174 | the loop and the pruning test return the split attribute selection chooses, or fail on a numeric attribute |
| DatasetImpl.Dataset.ValuesInAttr | src/data/Dataset.java:270-275 | the loop collects the set of keys observed for the attribute |
| DatasetImpl.Dataset.ClassValues | src/data/Dataset.java:276-281 | the loop collects the set of observed class values |
| DatasetImpl.Dataset.RemoveValueInAttr | src/data/Dataset.java:282-286 | the attribute is removed from the list and from every record, in place |
| DatasetImpl.Dataset.SplitByNominalAttr | src/data/Dataset.java:244-262 | returns new sub-datasets, one per observed key, no two the same object, each holding exactly the records with its key and the parent's attribute list |
| DatasetImpl.Dataset.SplitByAttr | src/data/Dataset.java:228-242 | fails exactly for a numeric attribute; otherwise returns new distinct sub-datasets whose values are exactly the partition of the dataset, each holding its records as a set |
| DecisionTreeGenerator.IsReady | src/main/DecisionTreeGenerator.java:82-91 | the check answers true exactly when every record holds one value per attribute plus its class value |
| DecisionTreeGenerator.Generate | src/main/DecisionTreeGenerator.java:34-80 | an internal node tests a listed discrete attribute; the lemmas below characterise the rest: NoNodeIffNotReady, PureDatasetIsLeaf, MajorityLeafRules and LeafLabel for each stopping rule, InternalNodeShape and InternalWhenSelected for branching, FailsOnlyOnNumeric for failure, DepthBound, TestsAreDistinctOnPaths and ConformingDataGivesCompleteTree for whole trees |
| DecisionTreeGenerator.Grow | src/main/DecisionTreeGenerator.java:62-79 | when branching succeeds, the node is an internal node on the chosen attribute |
| DecisionTreeGenerator.Run | src/main/DecisionTreeGenerator.java:28-32 | the tree is grown from the whole dataset with the root's size as the base size for every level |
| DecisionTreeGenerator.NoNodeIffNotReady | src/main/DecisionTreeGenerator.java:37-40 | the null node comes out exactly for a dataset that fails the dimension check |
| DecisionTreeGenerator.PureDatasetIsLeaf | src/main/DecisionTreeGenerator.java:45-48 | a well-formed non-empty dataset of one class value is a leaf of that value, before every other rule |
| DecisionTreeGenerator.MajorityLeafRules | src/main/DecisionTreeGenerator.java:50-61 | a mixed dataset becomes a leaf of its majority class value when no attribute is left, when size pruning applies, or when no attribute is chosen |
| DecisionTreeGenerator.LeafLabel | src/main/DecisionTreeGenerator.java:46-61 | a leaf is labelled with the common class value if there is one, and with the majority class value otherwise |
| DecisionTreeGenerator.LeafValueIsMostFrequent | src/main/DecisionTreeGenerator.java:46-61 | a leaf's label is absent only for no records; otherwise it is an observed class value of maximal frequency |
| DecisionTreeGenerator.InternalNodeShape | src/main/DecisionTreeGenerator.java:58-79 | an internal node passes every stopping rule and tests the chosen attribute; its branches are exactly the observed keys, and each branch holds the tree grown from a non-empty sub-dataset with one attribute fewer and the same base size |
| DecisionTreeGenerator.InternalWhenSelected | src/main/DecisionTreeGenerator.java:58-79 | conversely, a node that passes the stopping rules, with an attribute chosen and no failing sub-dataset, is an internal node whose branches hold exactly the trees of the sub-datasets |
| DecisionTreeGenerator.DepthBound | src/main/DecisionTreeGenerator.java:63-75 | no path of the tree has more internal nodes than the root's attribute list has attributes |
| DecisionTreeGenerator.TestsAreDistinctOnPaths | src/main/DecisionTreeGenerator.java:62-76 | with unique attribute names, every internal node tests a listed attribute and no path tests the same attribute twice |
| DecisionTreeGenerator.FailsOnlyOnNumeric | src/main/DecisionTreeGenerator.java:58-63 | building fails exactly when a node that reaches attribute selection has a numeric attribute in its list |
| DecisionTreeGenerator.ConformsIsReady | src/main/DecisionTreeGenerator.java:82-91 | records with a value for exactly the listed attributes pass the dimension check |
| DecisionTreeGenerator.ChildConforms | src/main/DecisionTreeGenerator.java:63-76 | each sub-dataset of such data is non-empty, keyed by a real value, conforms to its shorter list, and holds only class values of its parent |
| DecisionTreeGenerator.ConformingDataGivesCompleteTree | src/main/DecisionTreeGenerator.java:34-80 | from non-empty conforming data the tree has no null node and no null branch key, and every leaf is labelled with an observed class value |
| DecisionTreeGenerator.TwoRecordsSelect | src/data/Dataset.java:148-174 | on two records with one attribute and different class values, that attribute is chosen when its gain ratio is positive and its gain not negative, for a threshold of at most 1 |
| DecisionTreeGenerator.TwoRecordsSplitKeys | src/data/Dataset.java:270-275 | the two records give exactly the keys of their two values |
| DecisionTreeGenerator.TwoRecordsChildren | src/data/Dataset.java:228-262 | for two different values each of the two sub-datasets holds one record with no values, and no attributes |
| DecisionTreeGenerator.LoneRecordLeaf | src/main/DecisionTreeGenerator.java:45-48 | a one-record dataset with no attributes becomes a leaf of its class value |
| DecisionTreeGenerator.TwoRecordsChildLeaves | src/main/DecisionTreeGenerator.java:45-48 | each child of the two records is the leaf of its record's class value |
| DecisionTreeGenerator.StumpOfTwoKeys | src/main/DecisionTreeGenerator.java:62-79 | a node that passes the stopping rules, selects an attribute and sees exactly two keys is the internal node on that attribute whose two branches are the trees of the two children |
| DecisionTreeGenerator.TwoRecordStump | src/main/DecisionTreeGenerator.java:34-80 | two records with different values and classes, not pruned, grow a stump on their attribute with one branch per value, leading to the leaf of that record's class |
| DecisionTreeGenerator.TwoRecordsDefaultStump | src/main/DecisionTreeGenerator.java:18 | with the default size threshold 0.1 the root of the two records is not pruned |

## Left out

- File reading is not modelled. The constructor `Dataset(Path, Attributelist)` (src/data/Dataset.java:37-48) and `run(Path, Path)` (src/main/DecisionTreeGenerator.java:23-27) are I/O. After reading, the constructor calls `replaceContinuousAttribute`, which is modelled.
- `clone` (src/data/Dataset.java:70-80) and its `CloneNotSupportedException` path are not modelled. The copies the source makes of attribute lists and records are value copies here. Diagnostic printing to standard output and standard error is dropped.
- The getters `getRecordSet` and `getAttrlist` are field reads here. `size` and `isEmpty` are the functions `Size` and `IsEmpty`.
- The entropy computations `info`, `infoByAttr`, `gain`, `splitInfoByAttr` and `gainRatio` (src/data/Dataset.java:175-220) are floating-point arithmetic. They are abstract functions of a `Scorer`. NaN and rounding are not modelled; neither is the division by a zero split information.
- `hasOnlyNumber` and `toContinuous` belong to the attribute classes, which are not part of this model. Whether an attribute holds only numbers is a parameter.
- Record, Attributelist, the attribute and value classes, and the tree classes (`DecisionTree`, `InternalNode`, `LeafNode`, `Branch`) are not part of this model. Their observable behaviour is modelled by values.
- The iteration order of the source's hash sets and hash maps is fixed to first-met order. Results that depend on it (the majority class value under a tie, which attribute the loop sees first) are stated for that order.
- The record-set constructor keeps the caller's set without copying it. The model does not capture aliasing between that set and the caller's.
- Records stripped in place by `removeValueInAttr` stay in a `HashSet` whose hash codes they changed. The model treats the record collection as a sequence, so nothing about hash lookups after mutation is modelled. Distinctness is proved to survive the stripping for the sub-datasets of a split (`SplitKeepsRecordsDistinct`); `RemoveValueInAttr` on its own promises nothing about it, since stripping two records that differ only in the removed attribute makes them equal, and the source's set then holds both.
- Java `int` counters and `size()` cannot overflow at the sizes the model concerns; counts are unbounded naturals.
- Splitting on a numeric attribute (`splitByContinuousAttr`, src/data/Dataset.java:264-268) is a stub that returns `null`. The model does not model the resulting exception, only that splitting and selection then fail (`UnsupportedSplit`).
- DecisionTreeGenerator.Generate: the builder's empty-sub-dataset branch (src/main/DecisionTreeGenerator.java:69-72) is modelled but can never be taken, since no sub-dataset is empty.
