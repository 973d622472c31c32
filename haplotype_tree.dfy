/** The haplotype significance tree of the migec2 generation
    (`com.milaboratory.migec2.core.haplotype.HaplotypeTree`). Corrected consensuses are
    folded into per-reference haplotype counters; then every child haplotype is tested
    against every parent at least as abundant, and the haplotypes not explained as errors are
    returned. The error statistics, the haplotype construction and difference, and the
    counters' p-value update are classes outside this model and appear as
    uninterpreted functions. */
module HaplotypeModel {
  import opened Wrappers

  /** The reference a mutation difference is read against. */
  datatype Reference = Reference(name: string)

  /** A haplotype: its reference sequence and the signature of its mutations. */
  datatype Haplotype = Haplotype(referenceSequence: string, mutationsSignature: seq<int>)

  /** The corrected consensus handed to `add`. */
  datatype CorrectedConsensus = CorrectedConsensus(
    referenceSequence: string, mutationCodes: seq<int>, coverageMask: set<int>,
    maxPValue: real, migSize: int)

  /** One group of the difference between two haplotypes: mutations on one reference. */
  datatype MutationDifference = MutationDifference(reference: Reference, mutations: seq<int>)

  /** `HaplotypeCounters`: MIG count, read count and current p-value. */
  datatype Counters = Counters(count: int, readCount: int, pValue: real)

  /** A fresh `HaplotypeCounters`: nothing counted, and a p-value of 1 that stays 1 when
      no parent ever explains the haplotype. */
  const NEW_COUNTERS: Counters := Counters(0, 0, 1.0)

  /** `HaplotypeTreeParameters`. */
  datatype Parameters = Parameters(
    pValueThreshold: real,
    childMajorRatioForPValue: real,
    depth: int,
    filterSingleMigs: bool)

  /** `HaplotypeErrorStatistics`: `totalCountForMutation(reference, mutation)` and
      `calculatePValue(reference, mutation, parentReadCount, childReadCount)`. */
  datatype ErrorStatistics = ErrorStatistics(
    totalCountForMutation: (Reference, int) -> int,
    calculatePValue: (Reference, int, int, int) -> real)

  /** The methods of other classes the tree calls: `CorrectedConsensus.generateHaplotype`,
      `Haplotype.getMutationDifferences(parent, child)` and
      `HaplotypeCounters.updatepValue(current, new)`. */
  datatype HaplotypeOps = HaplotypeOps(
    generateHaplotype: CorrectedConsensus -> Haplotype,
    getMutationDifferences: (Haplotype, Haplotype) -> seq<MutationDifference>,
    updatepValue: (real, real) -> real)

  /** `haplotypesByReference`. */
  type Index = map<string, map<Haplotype, Counters>>

  /** Haplotypes are filed under their own reference sequence, each inner map is
      non-empty, and every stored haplotype was added at least once. */
  ghost predicate Partitioned(t: Index)
  {
    forall r :: r in t ==>
      (t[r] != map[] && forall h :: h in t[r] ==> h.referenceSequence == r && t[r][h].count >= 1)
  }

  // ---------------------------------------------------------------------------------
  // Accumulation

  /** The counters of `h`, when it has been added. */
  function Lookup(t: Index, h: Haplotype): Option<Counters>
  {
    if h.referenceSequence in t && h in t[h.referenceSequence] then Some(t[h.referenceSequence][h]) else None
  }

  /** The counters after one more consensus of `migSize` reads. */
  function Bumped(c: Counters, migSize: int): Counters
  {
    c.(count := c.count + 1, readCount := c.readCount + migSize)
  }

  /** The index after `add(haplotype, migSize)`. */
  function Added(t: Index, h: Haplotype, migSize: int): Index
  {
    var inner := if h.referenceSequence in t then t[h.referenceSequence] else map[];
    var c := if h in inner then inner[h] else NEW_COUNTERS;
    t[h.referenceSequence := inner[h := Bumped(c, migSize)]]
  }

  /** `add` raises the count of `h` by one and its read count by `migSize`, creating its
      counters if needed; every other haplotype's counters stay as they were. */
  lemma AddedLookup(t: Index, h: Haplotype, migSize: int, g: Haplotype)
    ensures Lookup(Added(t, h, migSize), g) ==
      if g == h then Some(Bumped(if Lookup(t, h).Some? then Lookup(t, h).value else NEW_COUNTERS, migSize)) else Lookup(t, g)
  {
  }

  /** `add` touches only the inner map of the haplotype's own reference. */
  lemma AddedTouchesOneReference(t: Index, h: Haplotype, migSize: int)
    ensures Added(t, h, migSize).Keys == t.Keys + {h.referenceSequence}
    ensures forall r :: r in t && r != h.referenceSequence ==> Added(t, h, migSize)[r] == t[r]
  {
  }

  lemma AddedKeepsPartitioned(t: Index, h: Haplotype, migSize: int)
    requires Partitioned(t)
    ensures Partitioned(Added(t, h, migSize))
  {
  }

  /** The read count never falls below the MIG count when every MIG has a read. */
  lemma AddedKeepsReadsAtLeastMigs(t: Index, h: Haplotype, migSize: int)
    requires forall r, g :: r in t && g in t[r] ==> t[r][g].readCount >= t[r][g].count
    requires migSize >= 1
    ensures var t' := Added(t, h, migSize);
      forall r, g :: r in t' && g in t'[r] ==> t'[r][g].readCount >= t'[r][g].count
  {
  }

  /** Two `add` calls commute. */
  lemma AddedCommute(t: Index, h1: Haplotype, s1: int, h2: Haplotype, s2: int)
    ensures Added(Added(t, h1, s1), h2, s2) == Added(Added(t, h2, s2), h1, s1)
  {
    if h1.referenceSequence != h2.referenceSequence {
      AddedCommuteApart(t, h1, s1, h2, s2);
    } else if h1 != h2 {
      AddedCommuteSameReference(t, h1, s1, h2, s2);
    } else {
      var inner := if h1.referenceSequence in t then t[h1.referenceSequence] else map[];
      var c := if h1 in inner then inner[h1] else NEW_COUNTERS;
      assert Bumped(Bumped(c, s1), s2) == Bumped(Bumped(c, s2), s1);
      assert Added(Added(t, h1, s1), h2, s2)[h1.referenceSequence] == Added(Added(t, h2, s2), h1, s1)[h1.referenceSequence];
    }
  }

  lemma AddedCommuteApart(t: Index, h1: Haplotype, s1: int, h2: Haplotype, s2: int)
    requires h1.referenceSequence != h2.referenceSequence
    ensures Added(Added(t, h1, s1), h2, s2) == Added(Added(t, h2, s2), h1, s1)
  {
    var a, b := Added(Added(t, h1, s1), h2, s2), Added(Added(t, h2, s2), h1, s1);
    assert a.Keys == b.Keys;
    assert a[h1.referenceSequence] == b[h1.referenceSequence];
    assert a[h2.referenceSequence] == b[h2.referenceSequence];
  }

  lemma AddedCommuteSameReference(t: Index, h1: Haplotype, s1: int, h2: Haplotype, s2: int)
    requires h1.referenceSequence == h2.referenceSequence && h1 != h2
    ensures Added(Added(t, h1, s1), h2, s2) == Added(Added(t, h2, s2), h1, s1)
  {
    var a, b := Added(Added(t, h1, s1), h2, s2), Added(Added(t, h2, s2), h1, s1);
    assert a.Keys == b.Keys;
    assert a[h1.referenceSequence] == b[h1.referenceSequence];
  }

  /** The index after `add(correctedConsensus)` for each consensus, in order. */
  function AddAll(ops: HaplotypeOps, t: Index, consensuses: seq<CorrectedConsensus>): Index
    decreases |consensuses|
  {
    if consensuses == [] then t
    else
      var cc := consensuses[0];
      AddAll(ops, Added(t, ops.generateHaplotype(cc), cc.migSize), consensuses[1..])
  }

  /** Adding the k-th consensus first gives the same index. */
  lemma {:induction false} AddAllMoveToFront(ops: HaplotypeOps, t: Index, consensuses: seq<CorrectedConsensus>, k: nat)
    requires k < |consensuses|
    ensures var cc := consensuses[k];
      AddAll(ops, t, consensuses) ==
      AddAll(ops, Added(t, ops.generateHaplotype(cc), cc.migSize), consensuses[..k] + consensuses[k + 1..])
    decreases k
  {
    if k == 0 {
      assert consensuses[..0] + consensuses[1..] == consensuses[1..];
    } else {
      var first, rest := consensuses[0], consensuses[1..];
      var cc := consensuses[k];
      var t1 := Added(t, ops.generateHaplotype(first), first.migSize);
      AddAllMoveToFront(ops, t1, rest, k - 1);
      assert rest[k - 1] == cc;
      var others := rest[..k - 1] + rest[k..];
      AddedCommute(t, ops.generateHaplotype(first), first.migSize, ops.generateHaplotype(cc), cc.migSize);
      var moved := consensuses[..k] + consensuses[k + 1..];
      assert moved == [first] + others;
      assert moved[0] == first && moved[1..] == others;
    }
  }

  /** The final counts and read counts do not depend on the order of the `add` calls. */
  lemma {:induction false} AddAllOrderIndependent(ops: HaplotypeOps, t: Index, xs: seq<CorrectedConsensus>, ys: seq<CorrectedConsensus>)
    requires multiset(xs) == multiset(ys)
    ensures AddAll(ops, t, xs) == AddAll(ops, t, ys)
    decreases |xs|
  {
    if xs == [] {
      assert |ys| == |multiset(ys)| == 0;
    } else {
      var x := xs[0];
      assert x in multiset(ys);
      var k :| 0 <= k < |ys| && ys[k] == x;
      var others := ys[..k] + ys[k + 1..];
      assert ys == ys[..k] + [x] + ys[k + 1..];
      assert multiset(ys) == multiset(others) + multiset{x};
      assert xs == [x] + xs[1..];
      assert multiset(xs) == multiset{x} + multiset(xs[1..]);
      assert multiset(xs[1..]) == multiset(xs) - multiset{x};
      assert multiset(others) == multiset(ys) - multiset{x};
      AddAllMoveToFront(ops, t, ys, k);
      AddAllOrderIndependent(ops, Added(t, ops.generateHaplotype(x), x.migSize), xs[1..], others);
    }
  }

  // ---------------------------------------------------------------------------------
  // The parent-explains-child p-value

  /** `count / (double) total <= ratio`. When `total` is 0 the Java division gives NaN
      for a zero count, which compares false, and an infinity of the count's sign
      otherwise, which is below every ratio only when it is negative. */
  predicate RatioWithin(childCount: int, total: int, ratio: real)
  {
    if total == 0 then childCount < 0 else (childCount as real) / (total as real) <= ratio
  }

  /** Every mutation of a group passes the ratio test: the child is rare enough against
      the mutation's total count for the mutation to be an artifact of the parent. */
  predicate MutationsWithin(st: ErrorStatistics, ratio: real, childCount: int, ref: Reference, mutations: seq<int>)
  {
    forall j :: 0 <= j < |mutations| ==> RatioWithin(childCount, st.totalCountForMutation(ref, mutations[j]), ratio)
  }

  /** Every mutation of every group passes the ratio test. */
  predicate AllWithin(st: ErrorStatistics, ratio: real, childCount: int, diffs: seq<MutationDifference>)
  {
    forall i :: 0 <= i < |diffs| ==> MutationsWithin(st, ratio, childCount, diffs[i].reference, diffs[i].mutations)
  }

  /** `start` multiplied, in order, by `calculatePValue` of each mutation of one group. */
  function GroupProduct(st: ErrorStatistics, start: real, ref: Reference, mutations: seq<int>, parentReads: int, childReads: int): real
  {
    if mutations == [] then start
    else
      GroupProduct(st, start, ref, mutations[..|mutations| - 1], parentReads, childReads)
      * st.calculatePValue(ref, mutations[|mutations| - 1], parentReads, childReads)
  }

  /** 1 multiplied, in order, by `calculatePValue` of every mutation of every group. */
  function DifferencesProduct(st: ErrorStatistics, diffs: seq<MutationDifference>, parentReads: int, childReads: int): real
  {
    if diffs == [] then 1.0
    else
      var d := diffs[|diffs| - 1];
      GroupProduct(st, DifferencesProduct(st, diffs[..|diffs| - 1], parentReads, childReads),
                   d.reference, d.mutations, parentReads, childReads)
  }

  /** The p-value of a (parent, child) pair: 0 when there are more difference groups than
      `depth` or some mutation fails the ratio test, and otherwise the product, from 1,
      of `calculatePValue` over all difference mutations. */
  function DifferencesPValue(params: Parameters, st: ErrorStatistics, diffs: seq<MutationDifference>,
                             parentReads: int, childCount: int, childReads: int): real
  {
    if |diffs| > params.depth || !AllWithin(st, params.childMajorRatioForPValue, childCount, diffs)
    then 0.0
    else DifferencesProduct(st, diffs, parentReads, childReads)
  }

  /** One mutation that fails the ratio test forces the pair's p-value to 0. */
  lemma OneFrequentMutationGivesZero(params: Parameters, st: ErrorStatistics, diffs: seq<MutationDifference>,
                                     parentReads: int, childCount: int, childReads: int, i: int, j: int)
    requires 0 <= i < |diffs| && 0 <= j < |diffs[i].mutations|
    requires !RatioWithin(childCount, st.totalCountForMutation(diffs[i].reference, diffs[i].mutations[j]),
                          params.childMajorRatioForPValue)
    ensures DifferencesPValue(params, st, diffs, parentReads, childCount, childReads) == 0.0
  {
    assert !MutationsWithin(st, params.childMajorRatioForPValue, childCount, diffs[i].reference, diffs[i].mutations);
  }

  lemma AllWithinSnoc(st: ErrorStatistics, ratio: real, childCount: int, diffs: seq<MutationDifference>, i: nat)
    requires i < |diffs|
    ensures AllWithin(st, ratio, childCount, diffs[..i + 1]) <==>
      AllWithin(st, ratio, childCount, diffs[..i]) &&
      MutationsWithin(st, ratio, childCount, diffs[i].reference, diffs[i].mutations)
  {
    var p := diffs[..i + 1];
    assert p[i] == diffs[i];
    assert forall k :: 0 <= k < i ==> p[k] == diffs[..i][k];
  }

  lemma MutationsWithinSnoc(st: ErrorStatistics, ratio: real, childCount: int, ref: Reference, ms: seq<int>, j: nat)
    requires j < |ms|
    ensures MutationsWithin(st, ratio, childCount, ref, ms[..j + 1]) <==>
      MutationsWithin(st, ratio, childCount, ref, ms[..j]) &&
      RatioWithin(childCount, st.totalCountForMutation(ref, ms[j]), ratio)
  {
    var p := ms[..j + 1];
    assert p[j] == ms[j];
    assert forall k :: 0 <= k < j ==> p[k] == ms[..j][k];
  }

  lemma GroupProductSnoc(st: ErrorStatistics, start: real, ref: Reference, ms: seq<int>, pr: int, cr: int, j: nat)
    requires j < |ms|
    ensures GroupProduct(st, start, ref, ms[..j + 1], pr, cr) ==
      GroupProduct(st, start, ref, ms[..j], pr, cr) * st.calculatePValue(ref, ms[j], pr, cr)
  {
    assert ms[..j + 1][..j] == ms[..j];
  }

  lemma DifferencesProductSnoc(st: ErrorStatistics, diffs: seq<MutationDifference>, pr: int, cr: int, i: nat)
    requires i < |diffs|
    ensures DifferencesProduct(st, diffs[..i + 1], pr, cr) ==
      GroupProduct(st, DifferencesProduct(st, diffs[..i], pr, cr), diffs[i].reference, diffs[i].mutations, pr, cr)
  {
    assert diffs[..i + 1][..i] == diffs[..i];
  }

  /** A (parent, child) pair `calculatePValues` tests: distinct haplotypes, the parent at
      least as frequent, and a non-singleton child when singletons are filtered. */
  predicate Eligible(params: Parameters, parent: Haplotype, parentCount: int, child: Haplotype, childCount: int)
  {
    parent != child && (!params.filterSingleMigs || childCount > 1) && parentCount >= childCount
  }

  /** The child's p-value after the parents in `parents` have been tried, in order. */
  ghost function FoldParents(params: Parameters, st: ErrorStatistics, ops: HaplotypeOps,
                             inner: map<Haplotype, Counters>, child: Haplotype, parents: seq<Haplotype>): real
    requires child in inner
  {
    if parents == [] then inner[child].pValue
    else
      var acc := FoldParents(params, st, ops, inner, child, parents[..|parents| - 1]);
      var p := parents[|parents| - 1];
      var cc := inner[child];
      if p in inner && Eligible(params, p, inner[p].count, child, cc.count) then
        ops.updatepValue(acc, DifferencesPValue(params, st, ops.getMutationDifferences(p, child),
                                                inner[p].readCount, cc.count, cc.readCount))
      else acc
  }

  /** A child with no eligible parent keeps its p-value. */
  lemma {:induction false} NoEligibleParentKeepsPValue(params: Parameters, st: ErrorStatistics, ops: HaplotypeOps,
                                                       inner: map<Haplotype, Counters>, child: Haplotype, parents: seq<Haplotype>)
    requires child in inner
    requires forall p :: p in inner ==> !Eligible(params, p, inner[p].count, child, inner[child].count)
    ensures FoldParents(params, st, ops, inner, child, parents) == inner[child].pValue
    decreases |parents|
  {
    if parents != [] {
      NoEligibleParentKeepsPValue(params, st, ops, inner, child, parents[..|parents| - 1]);
    }
  }

  /** The inner map after every child has been tried against every parent in `order`. */
  ghost function PValuesUpdated(params: Parameters, st: ErrorStatistics, ops: HaplotypeOps,
                                inner: map<Haplotype, Counters>, order: seq<Haplotype>): map<Haplotype, Counters>
  {
    map c | c in inner :: ChildUpdated(params, st, ops, inner, c, order)
  }

  /** A (parent, child) pair `updatePValue` accepts: it is not tested, or the two
      haplotypes differ. */
  predicate PairOk(params: Parameters, ops: HaplotypeOps, inner: map<Haplotype, Counters>, parent: Haplotype, child: Haplotype)
    requires parent in inner && child in inner
  {
    Eligible(params, parent, inner[parent].count, child, inner[child].count) ==>
      ops.getMutationDifferences(parent, child) != []
  }

  /** Some tested pair whose haplotypes have no difference: `updatePValue` throws. */
  ghost predicate SomePairUndistinguished(params: Parameters, ops: HaplotypeOps, inner: map<Haplotype, Counters>)
  {
    exists c, p :: c in inner && p in inner && !PairOk(params, ops, inner, p, c)
  }

  lemma FoldParentsSnoc(params: Parameters, st: ErrorStatistics, ops: HaplotypeOps,
                        inner: map<Haplotype, Counters>, child: Haplotype, order: seq<Haplotype>, k: nat)
    requires child in inner && k < |order|
    ensures var p, cc := order[k], inner[child];
      FoldParents(params, st, ops, inner, child, order[..k + 1]) ==
      if p in inner && Eligible(params, p, inner[p].count, child, cc.count) then
        ops.updatepValue(FoldParents(params, st, ops, inner, child, order[..k]),
                         DifferencesPValue(params, st, ops.getMutationDifferences(p, child),
                                           inner[p].readCount, cc.count, cc.readCount))
      else FoldParents(params, st, ops, inner, child, order[..k])
  {
    assert order[..k + 1][..k] == order[..k];
  }

  /** The haplotype counted strictly more often than every other one of its reference
      is never a child, so it keeps its p-value. */
  lemma MostAbundantKeepsPValue(params: Parameters, st: ErrorStatistics, ops: HaplotypeOps,
                                inner: map<Haplotype, Counters>, child: Haplotype, order: seq<Haplotype>)
    requires child in inner
    requires forall p :: p in inner && p != child ==> inner[p].count < inner[child].count
    ensures PValuesUpdated(params, st, ops, inner, order)[child] == inner[child]
  {
    NoEligibleParentKeepsPValue(params, st, ops, inner, child, order);
  }

  /** With singleton filtering, a haplotype seen in one MIG is never a child. */
  lemma SingletonKeepsPValue(params: Parameters, st: ErrorStatistics, ops: HaplotypeOps,
                             inner: map<Haplotype, Counters>, child: Haplotype, order: seq<Haplotype>)
    requires child in inner && params.filterSingleMigs && inner[child].count <= 1
    ensures PValuesUpdated(params, st, ops, inner, order)[child] == inner[child]
  {
    NoEligibleParentKeepsPValue(params, st, ops, inner, child, order);
  }

  /** No tested pair with `child` among the parents in `parents` lacks a difference. */
  ghost predicate ChildOk(params: Parameters, ops: HaplotypeOps, inner: map<Haplotype, Counters>,
                          child: Haplotype, parents: seq<Haplotype>)
    requires child in inner
  {
    forall q :: 0 <= q < |parents| && parents[q] in inner ==> PairOk(params, ops, inner, parents[q], child)
  }

  lemma ChildOkSnoc(params: Parameters, ops: HaplotypeOps, inner: map<Haplotype, Counters>,
                    child: Haplotype, parents: seq<Haplotype>, k: nat)
    requires child in inner && k < |parents| && parents[k] in inner
    ensures ChildOk(params, ops, inner, child, parents[..k + 1]) <==>
      ChildOk(params, ops, inner, child, parents[..k]) && PairOk(params, ops, inner, parents[k], child)
  {
    var p := parents[..k + 1];
    assert p[k] == parents[k];
    assert forall q :: 0 <= q < k ==> p[q] == parents[..k][q];
  }

  /** A pass that is clean for each child of an enumeration is clean for the map. */
  lemma EveryChildOk(params: Parameters, ops: HaplotypeOps, inner: map<Haplotype, Counters>, order: seq<Haplotype>)
    requires IsEnumeration(order, inner.Keys)
    requires forall k :: 0 <= k < |order| ==> order[k] in inner && ChildOk(params, ops, inner, order[k], order)
    ensures !SomePairUndistinguished(params, ops, inner)
  {
    forall c, p | c in inner && p in inner
      ensures PairOk(params, ops, inner, p, c)
    {
      var k :| 0 <= k < |order| && order[k] == c;
      var q :| 0 <= q < |order| && order[q] == p;
      assert ChildOk(params, ops, inner, order[k], order);
    }
  }

  /** The child's counters once it has tried every parent in `order`. */
  ghost function ChildUpdated(params: Parameters, st: ErrorStatistics, ops: HaplotypeOps,
                              inner: map<Haplotype, Counters>, child: Haplotype, order: seq<Haplotype>): Counters
    requires child in inner
  {
    inner[child].(pValue := FoldParents(params, st, ops, inner, child, order))
  }

  /** `order` lists the keys once each. */
  ghost predicate IsEnumeration<T(!new)>(order: seq<T>, keys: set<T>)
  {
    (forall h :: h in keys <==> h in order)
    && (forall i, j :: 0 <= i < j < |order| ==> order[i] != order[j])
  }

  /** Two inner maps with the same haplotypes, counts and read counts. */
  ghost predicate SameCounts(a: map<Haplotype, Counters>, b: map<Haplotype, Counters>)
  {
    a.Keys == b.Keys &&
    forall h :: h in a ==> a[h].count == b[h].count && a[h].readCount == b[h].readCount
  }

  /** Two indexes with the same haplotypes, counts and read counts. */
  ghost predicate SameShape(a: Index, b: Index)
  {
    a.Keys == b.Keys && forall r :: r in a ==> SameCounts(a[r], b[r])
  }

  lemma SameShapeKeepsPartitioned(a: Index, b: Index)
    requires Partitioned(a) && SameShape(a, b)
    ensures Partitioned(b)
  {
    forall r | r in b
      ensures b[r] != map[]
      ensures forall h :: h in b[r] ==> h.referenceSequence == r && b[r][h].count >= 1
    {
      assert SameCounts(a[r], b[r]);
      assert a[r].Keys == b[r].Keys;
    }
  }

  // ---------------------------------------------------------------------------------
  // Filtering

  /** The haplotypes `getHaplotypes(threshold)` keeps. */
  predicate Keep(c: Counters, threshold: real, filterSingleMigs: bool)
  {
    c.pValue <= threshold && (!filterSingleMigs || c.count > 1)
  }

  function Selected(t: Index, threshold: real, filterSingleMigs: bool): set<Haplotype>
  {
    SelectedIn(t, t.Keys, threshold, filterSingleMigs)
  }

  /** A haplotype is selected exactly when it is stored with an accepted p-value and, if
      singletons are filtered, a count above 1. */
  lemma SelectedMembership(t: Index, threshold: real, filterSingleMigs: bool, h: Haplotype)
    requires Partitioned(t)
    ensures h in Selected(t, threshold, filterSingleMigs) <==>
      Lookup(t, h).Some? && Lookup(t, h).value.pValue <= threshold &&
      (!filterSingleMigs || Lookup(t, h).value.count > 1)
  {
    if h in Selected(t, threshold, filterSingleMigs) {
      var r :| r in t && h in t[r] && Keep(t[r][h], threshold, filterSingleMigs);
      assert h.referenceSequence == r;
    }
  }

  /** The selected haplotypes of the references in `refs`. */
  function SelectedIn(t: Index, refs: set<string>, threshold: real, filterSingleMigs: bool): set<Haplotype>
  {
    set r, h | r in refs && r in t && h in t[r] && Keep(t[r][h], threshold, filterSingleMigs) :: h
  }

  /** The selected haplotypes among `hs` of one inner map. */
  function SelectedFrom(inner: map<Haplotype, Counters>, hs: set<Haplotype>, threshold: real, filterSingleMigs: bool): set<Haplotype>
  {
    set h | h in hs && h in inner && Keep(inner[h], threshold, filterSingleMigs)
  }

  lemma SelectedFromAdd(inner: map<Haplotype, Counters>, hs: set<Haplotype>, h: Haplotype, threshold: real, f: bool)
    requires h in inner
    ensures SelectedFrom(inner, hs + {h}, threshold, f) ==
      SelectedFrom(inner, hs, threshold, f) + if Keep(inner[h], threshold, f) then {h} else {}
  {
  }

  lemma SelectedInAdd(t: Index, refs: set<string>, r: string, threshold: real, f: bool)
    requires r in t
    ensures SelectedIn(t, refs + {r}, threshold, f) == SelectedIn(t, refs, threshold, f) + SelectedFrom(t[r], t[r].Keys, threshold, f)
  {
  }

  /** A larger threshold returns a superset. */
  lemma SelectedMonotone(t: Index, t1: real, t2: real, filterSingleMigs: bool)
    requires t1 <= t2
    ensures Selected(t, t1, filterSingleMigs) <= Selected(t, t2, filterSingleMigs)
  {
  }

  // ---------------------------------------------------------------------------------
  // The tree

  class HaplotypeTree {
    const parameters: Parameters
    const statistics: ErrorStatistics
    const ops: HaplotypeOps
    var haplotypesByReference: Index

    ghost predicate Valid()
      reads this
    {
      Partitioned(haplotypesByReference)
    }

    constructor (statistics: ErrorStatistics, parameters: Parameters, ops: HaplotypeOps)
      ensures Valid() && haplotypesByReference == map[]
      ensures this.statistics == statistics && this.parameters == parameters && this.ops == ops
    {
      this.statistics := statistics;
      this.parameters := parameters;
      this.ops := ops;
      haplotypesByReference := map[];
    }

    /** `add(haplotype, migSize)`. */
    method AddHaplotype(haplotype: Haplotype, migSize: int)
      requires Valid()
      modifies this
      ensures Valid()
      ensures haplotypesByReference == Added(old(haplotypesByReference), haplotype, migSize)
    {
      var referenceSequence := haplotype.referenceSequence;
      var haplotypeDataCountMap: map<Haplotype, Counters>;
      if referenceSequence in haplotypesByReference {
        haplotypeDataCountMap := haplotypesByReference[referenceSequence];
      } else {
        haplotypeDataCountMap := map[];
      }
      var count: Counters;
      if haplotype in haplotypeDataCountMap {
        count := haplotypeDataCountMap[haplotype];
      } else {
        count := NEW_COUNTERS;
      }
      ghost var before := count;
      count := count.(count := count.count + 1);
      count := count.(readCount := count.readCount + migSize);
      assert count == Bumped(before, migSize);
      haplotypesByReference := haplotypesByReference[referenceSequence := haplotypeDataCountMap[haplotype := count]];
      AddedKeepsPartitioned(old(haplotypesByReference), haplotype, migSize);
    }

    /** `add(correctedConsensus)`. */
    method Add(correctedConsensus: CorrectedConsensus)
      requires Valid()
      modifies this
      ensures Valid()
      ensures haplotypesByReference ==
        Added(old(haplotypesByReference), ops.generateHaplotype(correctedConsensus), correctedConsensus.migSize)
    {
      AddHaplotype(ops.generateHaplotype(correctedConsensus), correctedConsensus.migSize);
    }

    /** `updatePValue(parent, parentCounter, child, childCounter)`: fails when the two
        haplotypes have no difference; otherwise gives the child's counters with their
        p-value updated by the pair's p-value. */
    method UpdatePValue(parent: Haplotype, parentCounter: Counters, child: Haplotype, childCounter: Counters)
      returns (r: Result<Counters, string>)
      ensures var diffs := ops.getMutationDifferences(parent, child);
        if diffs == [] then r.Failure?
        else r == Success(childCounter.(pValue := ops.updatepValue(childCounter.pValue,
               DifferencesPValue(parameters, statistics, diffs, parentCounter.readCount,
                                 childCounter.count, childCounter.readCount))))
    {
      var mutationDifferencesList := ops.getMutationDifferences(parent, child);
      if |mutationDifferencesList| == 0 {
        return Failure("Parent and child should be different haplotypes");
      }
      ghost var ratio, count := parameters.childMajorRatioForPValue, childCounter.count;
      ghost var pr, cr := parentCounter.readCount, childCounter.readCount;
      // `within` and `product` describe the groups seen so far.
      ghost var within, product := true, 1.0;

      var pValue := 1.0;
      var m := 0;
      var i := 0;
      while i < |mutationDifferencesList|
        invariant 0 <= i <= |mutationDifferencesList|
        invariant m == i
        invariant i == 0 || i <= parameters.depth
        invariant within == AllWithin(statistics, ratio, count, mutationDifferencesList[..i])
        invariant product == DifferencesProduct(statistics, mutationDifferencesList[..i], pr, cr)
        invariant pValue == if within then product else 0.0
      {
        var mutationDifferences := mutationDifferencesList[i];
        var reference := mutationDifferences.reference;
        ghost var ms := mutationDifferences.mutations;
        var j := 0;
        while j < |mutationDifferences.mutations|
          invariant 0 <= j <= |ms|
          invariant MutationsWithin(statistics, ratio, count, reference, ms[..j])
          invariant pValue == if within then GroupProduct(statistics, product, reference, ms[..j], pr, cr) else 0.0
        {
          var mutation := mutationDifferences.mutations[j];
          var totalCountForMutation := statistics.totalCountForMutation(reference, mutation);
          MutationsWithinSnoc(statistics, ratio, count, reference, ms, j);
          if RatioWithin(childCounter.count, totalCountForMutation, parameters.childMajorRatioForPValue) {
            var pi := statistics.calculatePValue(reference, mutation, parentCounter.readCount, childCounter.readCount);
            GroupProductSnoc(statistics, product, reference, ms, pr, cr, j);
            pValue := pValue * pi;
          } else {
            pValue := 0.0;
            break;
          }
          j := j + 1;
        }
        AllWithinSnoc(statistics, ratio, count, mutationDifferencesList, i);
        DifferencesProductSnoc(statistics, mutationDifferencesList, pr, cr, i);
        if j == |ms| {
          assert ms[..j] == ms;
        }
        within := within && j == |ms|;
        product := GroupProduct(statistics, product, reference, ms, pr, cr);
        m := m + 1;
        if m > parameters.depth {
          pValue := 0.0;
          break;
        }
        i := i + 1;
      }
      assert i == |mutationDifferencesList| ==> mutationDifferencesList[..i] == mutationDifferencesList;
      r := Success(childCounter.(pValue := ops.updatepValue(childCounter.pValue, pValue)));
    }

    /** `calculatePValues()`: every reference's haplotypes are tested pairwise in the
        map's iteration order. Counts and read counts never change. The call fails
        exactly when some reference holds a tested pair without a difference;
        otherwise each reference's counters become `PValuesUpdated` of the old ones,
        for the enumeration `orders` of that reference's haplotypes. */
    method CalculatePValues() returns (r: Outcome<string>, ghost orders: map<string, seq<Haplotype>>)
      requires Valid()
      modifies this
      ensures Valid()
      ensures SameShape(old(haplotypesByReference), haplotypesByReference)
      ensures r.Fail? <==>
        (exists ref :: ref in old(haplotypesByReference) &&
           SomePairUndistinguished(parameters, ops, old(haplotypesByReference)[ref]))
      ensures r.Pass? ==> forall ref :: ref in old(haplotypesByReference) ==>
        ReferenceDone(parameters, statistics, ops, old(haplotypesByReference), haplotypesByReference, orders, ref)
    {
      var t0 := haplotypesByReference;
      var t := t0;
      orders := map[];
      var references := Enumerate(t0.Keys);
      var k := 0;
      while k < |references|
        invariant 0 <= k <= |references|
        invariant haplotypesByReference == t0
        invariant CalcState(parameters, statistics, ops, t0, t, orders, references, k)
      {
        var reference := references[k];
        CalcAt(parameters, statistics, ops, t0, t, orders, references, k);
        var updated, order := ReferencePValues(t[reference]);
        if updated.Failure? {
          return Fail(updated.error), orders;
        }
        CalcStep(parameters, statistics, ops, t0, t, orders, references, k, order, updated.value);
        t := t[reference := updated.value];
        orders := orders[reference := order];
        k := k + 1;
      }
      CalcDone(parameters, statistics, ops, t0, t, orders, references);
      haplotypesByReference := t;
      r := Pass;
    }

    /** One reference's pass of `calculatePValues`, on a copy of its inner map: each
        child in `order` tries each parent in `order`. */
    method ReferencePValues(inner: map<Haplotype, Counters>)
      returns (r: Result<map<Haplotype, Counters>, string>, order: seq<Haplotype>)
      ensures IsEnumeration(order, inner.Keys)
      ensures r.Failure? <==> SomePairUndistinguished(parameters, ops, inner)
      ensures r.Success? ==> r.value == PValuesUpdated(parameters, statistics, ops, inner, order)
    {
      order := Enumerate(inner.Keys);
      var updated := inner;
      ghost var done: set<Haplotype> := {};
      var ci := 0;
      while ci < |order|
        invariant 0 <= ci <= |order|
        invariant PassState(parameters, statistics, ops, inner, order, ci, done, updated)
      {
        var child := order[ci];
        var counters := ChildPValue(inner, updated, child, order);
        if counters.Failure? {
          var q :| 0 <= q < |order| && order[q] in inner && !PairOk(parameters, ops, inner, order[q], child);
          assert child in inner && order[q] in inner;
          return Failure(counters.error), order;
        }
        PassStep(parameters, statistics, ops, inner, order, ci, done, updated, counters.value);
        updated := updated[child := counters.value];
        done := done + {child};
        ci := ci + 1;
      }
      PassDone(parameters, statistics, ops, inner, order, done, updated);
      r := Success(updated);
    }

    /** The innermost loop of `calculatePValues`: the child's counters after it has
        tried every parent in `order`, reading the parents' counters from `counters`. */
    method ChildPValue(inner: map<Haplotype, Counters>, counters: map<Haplotype, Counters>,
                       child: Haplotype, order: seq<Haplotype>)
      returns (r: Result<Counters, string>)
      requires SameCounts(inner, counters) && child in inner && counters[child] == inner[child]
      requires forall q :: 0 <= q < |order| ==> order[q] in inner
      ensures r.Failure? <==> !ChildOk(parameters, ops, inner, child, order)
      ensures r.Success? ==> r.value == ChildUpdated(parameters, statistics, ops, inner, child, order)
    {
      var childCounter := counters[child];
      var pi := 0;
      while pi < |order|
        invariant 0 <= pi <= |order|
        invariant childCounter == inner[child].(pValue := FoldParents(parameters, statistics, ops, inner, child, order[..pi]))
        invariant ChildOk(parameters, ops, inner, child, order[..pi])
      {
        var parent := order[pi];
        FoldParentsSnoc(parameters, statistics, ops, inner, child, order, pi);
        ChildOkSnoc(parameters, ops, inner, child, order, pi);
        if parent != child && (!parameters.filterSingleMigs || childCounter.count > 1)
           && counters[parent].count >= childCounter.count {
          var res := UpdatePValue(parent, counters[parent], child, childCounter);
          if res.Failure? {
            assert !PairOk(parameters, ops, inner, order[pi], child);
            return Failure(res.error);
          }
          childCounter := res.value;
        }
        pi := pi + 1;
      }
      assert order[..pi] == order;
      r := Success(childCounter);
    }

    /** `getHaplotypes(pValueThreshold)`: the haplotypes of every reference with a p-value
        at most the threshold and, when singletons are filtered, a count above 1. */
    method GetHaplotypes(pValueThreshold: real) returns (filteredHaplotypes: set<Haplotype>)
      ensures filteredHaplotypes == Selected(haplotypesByReference, pValueThreshold, parameters.filterSingleMigs)
    {
      var t, f := haplotypesByReference, parameters.filterSingleMigs;
      filteredHaplotypes := {};
      var references := t.Keys;
      ghost var seen: set<string> := {};
      while references != {}
        invariant references + seen == t.Keys && references !! seen
        invariant filteredHaplotypes == SelectedIn(t, seen, pValueThreshold, f)
        decreases |references|
      {
        var reference :| reference in references;
        filteredHaplotypes := AddSelected(filteredHaplotypes, t[reference], pValueThreshold, f);
        SelectedInAdd(t, seen, reference, pValueThreshold, f);
        references := references - {reference};
        seen := seen + {reference};
      }
      assert seen == t.Keys;
    }

    /** `getHaplotypes()`: the selection at the configured p-value threshold. */
    method GetDefaultHaplotypes() returns (haplotypes: set<Haplotype>)
      ensures haplotypes == Selected(haplotypesByReference, parameters.pValueThreshold, parameters.filterSingleMigs)
    {
      haplotypes := GetHaplotypes(parameters.pValueThreshold);
    }
  }

  /** The inner loop of `getHaplotypes`: adds the selected haplotypes of one inner map
      to `filteredHaplotypes`. */
  method AddSelected(filteredHaplotypes: set<Haplotype>, haplotypeCountersMap: map<Haplotype, Counters>,
                     pValueThreshold: real, filterSingleMigs: bool)
    returns (result: set<Haplotype>)
    ensures result == filteredHaplotypes + SelectedFrom(haplotypeCountersMap, haplotypeCountersMap.Keys, pValueThreshold, filterSingleMigs)
  {
    result := filteredHaplotypes;
    var entries := haplotypeCountersMap.Keys;
    ghost var done: set<Haplotype> := {};
    while entries != {}
      invariant entries + done == haplotypeCountersMap.Keys && entries !! done
      invariant result == filteredHaplotypes + SelectedFrom(haplotypeCountersMap, done, pValueThreshold, filterSingleMigs)
      decreases |entries|
    {
      var haplotype :| haplotype in entries;
      var counters := haplotypeCountersMap[haplotype];
      SelectedFromAdd(haplotypeCountersMap, done, haplotype, pValueThreshold, filterSingleMigs);
      if counters.pValue <= pValueThreshold && (!filterSingleMigs || counters.count > 1) {
        result := result + {haplotype};
      }
      entries := entries - {haplotype};
      done := done + {haplotype};
    }
  }

  /** An enumeration of a finite set, standing for a `HashMap`'s unspecified iteration
      order. */
  method Enumerate<T(==,!new)>(keys: set<T>) returns (order: seq<T>)
    ensures IsEnumeration(order, keys)
  {
    order := [];
    var rest := keys;
    while rest != {}
      invariant forall h :: h in keys <==> h in order || h in rest
      invariant forall h :: h in rest ==> h !in order
      invariant forall i, j :: 0 <= i < j < |order| ==> order[i] != order[j]
      decreases |rest|
    {
      var h :| h in rest;
      order := order + [h];
      rest := rest - {h};
    }
  }

  /** The state of one reference's pass after the children `order[..ci]`, collected in
      `done`, have been updated. */
  ghost predicate PassState(params: Parameters, st: ErrorStatistics, ops: HaplotypeOps,
                            inner: map<Haplotype, Counters>, order: seq<Haplotype>, ci: nat,
                            done: set<Haplotype>, updated: map<Haplotype, Counters>)
  {
    IsEnumeration(order, inner.Keys) && ci <= |order| &&
    updated.Keys == inner.Keys && done <= inner.Keys &&
    (forall h :: h in done ==> updated[h] == ChildUpdated(params, st, ops, inner, h, order)) &&
    (forall h :: h in inner && h !in done ==> updated[h] == inner[h]) &&
    (forall h :: h in done ==> ChildOk(params, ops, inner, h, order)) &&
    (forall k :: 0 <= k < ci ==> order[k] in done) &&
    (forall k :: ci <= k < |order| ==> order[k] !in done)
  }

  lemma PassStep(params: Parameters, st: ErrorStatistics, ops: HaplotypeOps,
                 inner: map<Haplotype, Counters>, order: seq<Haplotype>, ci: nat,
                 done: set<Haplotype>, updated: map<Haplotype, Counters>, v: Counters)
    requires PassState(params, st, ops, inner, order, ci, done, updated) && ci < |order|
    requires order[ci] in inner && v == ChildUpdated(params, st, ops, inner, order[ci], order)
    requires ChildOk(params, ops, inner, order[ci], order)
    ensures SameCounts(inner, updated) && updated[order[ci]] == inner[order[ci]]
    ensures PassState(params, st, ops, inner, order, ci + 1, done + {order[ci]}, updated[order[ci] := v])
  {
    var child := order[ci];
    var u, d := updated[child := v], done + {child};
    assert child !in done;
    forall h | h in d
      ensures u[h] == ChildUpdated(params, st, ops, inner, h, order)
    {
    }
    forall k | ci + 1 <= k < |order|
      ensures order[k] !in d
    {
      assert order[k] != order[ci];
    }
  }

  lemma PassDone(params: Parameters, st: ErrorStatistics, ops: HaplotypeOps,
                 inner: map<Haplotype, Counters>, order: seq<Haplotype>,
                 done: set<Haplotype>, updated: map<Haplotype, Counters>)
    requires PassState(params, st, ops, inner, order, |order|, done, updated)
    ensures updated == PValuesUpdated(params, st, ops, inner, order)
    ensures !SomePairUndistinguished(params, ops, inner)
  {
    assert done == inner.Keys by {
      forall h | h in inner ensures h in done {
        var k :| 0 <= k < |order| && order[k] == h;
      }
    }
    EveryChildOk(params, ops, inner, order);
  }

  /** After `calculatePValues`, one reference was tested cleanly and its counters are
      the updated ones, for an enumeration of its haplotypes. */
  ghost predicate ReferenceDone(params: Parameters, st: ErrorStatistics, ops: HaplotypeOps,
                                t0: Index, t: Index, orders: map<string, seq<Haplotype>>, ref: string)
  {
    ref in t0 && ref in t && ref in orders && IsEnumeration(orders[ref], t0[ref].Keys) &&
    t[ref] == PValuesUpdated(params, st, ops, t0[ref], orders[ref]) &&
    !SomePairUndistinguished(params, ops, t0[ref])
  }

  /** The state of `calculatePValues` after the references `references[..k]`. */
  ghost predicate CalcState(params: Parameters, st: ErrorStatistics, ops: HaplotypeOps,
                            t0: Index, t: Index, orders: map<string, seq<Haplotype>>,
                            references: seq<string>, k: nat)
  {
    IsEnumeration(references, t0.Keys) && k <= |references| && SameShape(t0, t) &&
    (forall q :: 0 <= q < k ==> ReferenceDone(params, st, ops, t0, t, orders, references[q])) &&
    (forall q :: k <= q < |references| ==> references[q] in t && t[references[q]] == t0[references[q]])
  }

  lemma CalcAt(params: Parameters, st: ErrorStatistics, ops: HaplotypeOps,
               t0: Index, t: Index, orders: map<string, seq<Haplotype>>, references: seq<string>, k: nat)
    requires CalcState(params, st, ops, t0, t, orders, references, k) && k < |references|
    ensures references[k] in t0 && references[k] in t && t[references[k]] == t0[references[k]]
  {
  }

  lemma CalcStep(params: Parameters, st: ErrorStatistics, ops: HaplotypeOps,
                 t0: Index, t: Index, orders: map<string, seq<Haplotype>>, references: seq<string>, k: nat,
                 order: seq<Haplotype>, inner: map<Haplotype, Counters>)
    requires CalcState(params, st, ops, t0, t, orders, references, k) && k < |references|
    requires references[k] in t0
    requires IsEnumeration(order, t0[references[k]].Keys)
    requires inner == PValuesUpdated(params, st, ops, t0[references[k]], order)
    requires !SomePairUndistinguished(params, ops, t0[references[k]])
    ensures CalcState(params, st, ops, t0, t[references[k] := inner], orders[references[k] := order], references, k + 1)
  {
    var ref := references[k];
    var t', orders' := t[ref := inner], orders[ref := order];
    PValuesUpdatedSameCounts(params, st, ops, t0[ref], order);
    forall q | 0 <= q < k + 1
      ensures ReferenceDone(params, st, ops, t0, t', orders', references[q])
    {
      if q < k {
        assert references[q] != ref;
        assert ReferenceDone(params, st, ops, t0, t, orders, references[q]);
      }
    }
    forall q | k + 1 <= q < |references|
      ensures references[q] in t' && t'[references[q]] == t0[references[q]]
    {
      assert references[q] != ref;
    }
    assert SameShape(t0, t') by {
      forall r | r in t0 ensures SameCounts(t0[r], t'[r]) {
        if r != ref {
          assert SameShape(t0, t);
        }
      }
    }
  }

  lemma CalcDone(params: Parameters, st: ErrorStatistics, ops: HaplotypeOps,
                 t0: Index, t: Index, orders: map<string, seq<Haplotype>>, references: seq<string>)
    requires CalcState(params, st, ops, t0, t, orders, references, |references|)
    requires Partitioned(t0)
    ensures Partitioned(t) && SameShape(t0, t)
    ensures forall ref :: ref in t0 ==> ReferenceDone(params, st, ops, t0, t, orders, ref)
    ensures !exists ref :: ref in t0 && SomePairUndistinguished(params, ops, t0[ref])
  {
    forall ref | ref in t0
      ensures ReferenceDone(params, st, ops, t0, t, orders, ref)
    {
      var q :| 0 <= q < |references| && references[q] == ref;
    }
    SameShapeKeepsPartitioned(t0, t);
  }

  lemma PValuesUpdatedSameCounts(params: Parameters, st: ErrorStatistics, ops: HaplotypeOps,
                                 inner: map<Haplotype, Counters>, order: seq<Haplotype>)
    ensures SameCounts(inner, PValuesUpdated(params, st, ops, inner, order))
  {
  }
}
