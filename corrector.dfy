/** Positional mutation correction of the oncomigec generation
    (`com.milaboratory.oncomigec.core.correct.Corrector`). The per-reference
    `MutationFilter` and the p-values of `CorrectorReferenceLibrary` are computed by
    classes outside this model; they appear here as uninterpreted functions. */
module Correct {
  import opened Wrappers

  /** A reference: its full name and its nucleotide sequence. */
  datatype Reference = Reference(fullName: string, sequence: string)

  datatype MutationKind = Substitution | Insertion | Deletion

  /** A mutation against the reference: where it is, the base a substitution turns into
      (`to`), and the integer code the filter reads for indels. */
  datatype Mutation = Mutation(kind: MutationKind, pos: int, to: int, code: int)

  /** An alignment range, carried through unchanged. */
  datatype Range = Range(from: int, to: int)

  /** The per-reference filter, as the four queries `correct` makes of it. */
  datatype MutationFilter = MutationFilter(
    good: bool,
    passedFilter: int -> bool,
    hasSubstitution: (int, int) -> bool,
    hasIndel: int -> bool)

  /** The statistics library: the filter of each reference and the p-value of a
      substitution (`getPValue(reference, pos, to)`). */
  datatype CorrectorReferenceLibrary = CorrectorReferenceLibrary(
    getMutationFilter: Reference -> MutationFilter,
    getPValue: (Reference, int, int) -> real)

  /** The codes of the mutations that are not flagged, in order. */
  function UnfilteredCodes(mutations: seq<Mutation>, filtered: seq<bool>): seq<int>
    requires |filtered| == |mutations|
  {
    if mutations == [] then []
    else
      var n := |mutations| - 1;
      UnfilteredCodes(mutations[..n], filtered[..n]) + (if filtered[n] then [] else [mutations[n].code])
  }

  /** A code is reported exactly when some unflagged mutation carries it. */
  lemma {:induction false} UnfilteredCodesMembership(mutations: seq<Mutation>, filtered: seq<bool>, c: int)
    requires |filtered| == |mutations|
    ensures c in UnfilteredCodes(mutations, filtered) <==>
      exists i :: 0 <= i < |mutations| && !filtered[i] && mutations[i].code == c
    decreases |mutations|
  {
    if mutations != [] {
      var n := |mutations| - 1;
      UnfilteredCodesMembership(mutations[..n], filtered[..n], c);
      if c in UnfilteredCodes(mutations, filtered) && c !in UnfilteredCodes(mutations[..n], filtered[..n]) {
        assert !filtered[n] && mutations[n].code == c;
      }
      if exists i :: 0 <= i < |mutations| && !filtered[i] && mutations[i].code == c {
        var i :| 0 <= i < |mutations| && !filtered[i] && mutations[i].code == c;
        if i < n {
          assert mutations[..n][i] == mutations[i] && filtered[..n][i] == filtered[i];
        }
      }
    }
  }

  /** `MigecMutationsCollection`: the candidate mutations of a consensus, each with a
      one-way "filtered" flag. */
  class MigecMutationsCollection {
    const mutations: seq<Mutation>
    var filtered: seq<bool>

    ghost predicate Valid()
      reads this
    {
      |filtered| == |mutations|
    }

    constructor (mutations: seq<Mutation>)
      ensures Valid() && this.mutations == mutations
      ensures forall i :: 0 <= i < |mutations| ==> !filtered[i]
    {
      this.mutations := mutations;
      filtered := seq(|mutations|, _ => false);
    }

    /** `mutation.filter()` on the i-th mutation. */
    method Filter(i: nat)
      requires Valid() && i < |mutations|
      modifies this
      ensures Valid() && filtered == old(filtered)[i := true]
    {
      filtered := filtered[i := true];
    }

    /** `getMutationCodes()`: the codes of the mutations not filtered. */
    function MutationCodes(): (codes: seq<int>)
      reads this
      requires Valid()
      ensures forall c :: c in codes <==>
        exists i :: 0 <= i < |mutations| && !filtered[i] && mutations[i].code == c
    {
      var codes := UnfilteredCodes(mutations, filtered);
      assert forall c :: c in codes <==>
        exists i :: 0 <= i < |mutations| && !filtered[i] && mutations[i].code == c
      by {
        forall c
          ensures c in codes <==> exists i :: 0 <= i < |mutations| && !filtered[i] && mutations[i].code == c
        {
          UnfilteredCodesMembership(mutations, filtered, c);
        }
      }
      codes
    }
  }

  /** The aligner's output: a consensus aligned to a reference, with its candidate
      ("major") mutations, its MIG size and its alignment ranges. */
  datatype AlignedConsensus = AlignedConsensus(
    reference: Reference,
    majorMutations: MigecMutationsCollection,
    migSize: int,
    ranges: seq<Range>)

  datatype CorrectedConsensus = CorrectedConsensus(
    reference: Reference,
    mutationCodes: seq<int>,
    coverageMask: set<int>,
    maxPValue: real,
    migSize: int,
    ranges: seq<Range>)

  /** The positions of a reference of length `length` that fail the filter. */
  function InitialCoverageMask(f: MutationFilter, length: int): set<int>
  {
    set k | 0 <= k < length && !f.passedFilter(k)
  }

  /** Whether `correct` flags a mutation: a substitution the filter does not support,
      or an indel whose code it does not support. */
  predicate Flagged(f: MutationFilter, m: Mutation)
  {
    if m.kind == Substitution then !f.hasSubstitution(m.pos, m.to) else !f.hasIndel(m.code)
  }

  predicate KeptSubstitution(f: MutationFilter, m: Mutation)
  {
    m.kind == Substitution && f.hasSubstitution(m.pos, m.to)
  }

  predicate KeptDeletion(f: MutationFilter, m: Mutation)
  {
    m.kind == Deletion && f.hasIndel(m.code)
  }

  /** The positions of the supported deletions: they are taken out of the mask. */
  function ReleasedPositions(f: MutationFilter, ms: seq<Mutation>): set<int>
  {
    set i | 0 <= i < |ms| && KeptDeletion(f, ms[i]) :: ms[i].pos
  }

  function Max(a: real, b: real): real
  {
    if a >= b then a else b
  }

  /** The running maximum, from 0, of the p-values of the kept substitutions. */
  function MaxKeptPValue(lib: CorrectorReferenceLibrary, ref: Reference, ms: seq<Mutation>): real
  {
    if ms == [] then 0.0
    else
      var m := ms[|ms| - 1];
      var prev := MaxKeptPValue(lib, ref, ms[..|ms| - 1]);
      if KeptSubstitution(lib.getMutationFilter(ref), m) then Max(prev, lib.getPValue(ref, m.pos, m.to))
      else prev
  }

  /** `maxPValue` is the largest p-value among the kept substitutions, or 0 when there is
      none (or when all of them are negative). */
  lemma {:induction false} MaxKeptPValueIsMaximum(lib: CorrectorReferenceLibrary, ref: Reference, ms: seq<Mutation>)
    ensures var r, f := MaxKeptPValue(lib, ref, ms), lib.getMutationFilter(ref);
      && r >= 0.0
      && (forall i :: 0 <= i < |ms| && KeptSubstitution(f, ms[i]) ==> lib.getPValue(ref, ms[i].pos, ms[i].to) <= r)
      && (r == 0.0 || exists i :: 0 <= i < |ms| && KeptSubstitution(f, ms[i]) && lib.getPValue(ref, ms[i].pos, ms[i].to) == r)
    decreases |ms|
  {
    if ms != [] {
      var n := |ms| - 1;
      var f := lib.getMutationFilter(ref);
      MaxKeptPValueIsMaximum(lib, ref, ms[..n]);
      var prev := MaxKeptPValue(lib, ref, ms[..n]);
      forall i | 0 <= i < n ensures ms[..n][i] == ms[i] { }
      if prev != 0.0 {
        var i :| 0 <= i < n && KeptSubstitution(f, ms[..n][i]) && lib.getPValue(ref, ms[..n][i].pos, ms[..n][i].to) == prev;
        assert ms[i] == ms[..n][i];
      }
    }
  }

  /** Only the kept substitutions matter: with none, `maxPValue` stays 0. */
  lemma {:induction false} NoKeptSubstitutionGivesZero(lib: CorrectorReferenceLibrary, ref: Reference, ms: seq<Mutation>)
    requires forall i :: 0 <= i < |ms| ==> !KeptSubstitution(lib.getMutationFilter(ref), ms[i])
    ensures MaxKeptPValue(lib, ref, ms) == 0.0
    decreases |ms|
  {
    if ms != [] {
      var n := |ms| - 1;
      assert forall i :: 0 <= i < n ==> ms[..n][i] == ms[i];
      NoKeptSubstitutionGivesZero(lib, ref, ms[..n]);
    }
  }

  /** The final mask sits inside the initial one, and what it lost are positions of
      supported deletions. */
  lemma FinalMaskShrinks(f: MutationFilter, length: int, ms: seq<Mutation>, k: int)
    requires k in InitialCoverageMask(f, length) && k !in InitialCoverageMask(f, length) - ReleasedPositions(f, ms)
    ensures exists i :: 0 <= i < |ms| && ms[i].kind == Deletion && f.hasIndel(ms[i].code) && ms[i].pos == k
  {
  }

  /** A consensus without candidate mutations on a reference whose positions all pass
      the filter gets an empty mask and `maxPValue` 0. */
  lemma CleanConsensus(lib: CorrectorReferenceLibrary, ref: Reference)
    requires forall k :: 0 <= k < |ref.sequence| ==> lib.getMutationFilter(ref).passedFilter(k)
    ensures InitialCoverageMask(lib.getMutationFilter(ref), |ref.sequence|) - ReleasedPositions(lib.getMutationFilter(ref), []) == {}
    ensures MaxKeptPValue(lib, ref, []) == 0.0
  {
  }

  lemma ReleasedPositionsSnoc(f: MutationFilter, ms: seq<Mutation>, i: nat)
    requires i < |ms|
    ensures ReleasedPositions(f, ms[..i + 1]) ==
      ReleasedPositions(f, ms[..i]) + (if KeptDeletion(f, ms[i]) then {ms[i].pos} else {})
  {
    var prefix := ms[..i + 1];
    assert forall j :: 0 <= j < i ==> prefix[j] == ms[..i][j];
    assert prefix[i] == ms[i];
  }

  /** The corrector: two counters over a fixed statistics library. */
  class Corrector {
    const library: CorrectorReferenceLibrary
    var goodConsensuses: int
    var totalConsensuses: int

    ghost predicate Valid()
      reads this
    {
      0 <= goodConsensuses <= totalConsensuses
    }

    constructor (library: CorrectorReferenceLibrary)
      ensures Valid() && this.library == library
      ensures goodConsensuses == 0 && totalConsensuses == 0
    {
      this.library := library;
      goodConsensuses, totalConsensuses := 0, 0;
    }

    /** `correct(alignedConsensus)`: `None` (Java `null`) when the reference's filter is
        not good; otherwise the mutations the filter rejects are flagged and the corrected
        consensus carries the survivors, the coverage mask and the largest kept p-value. */
    method Correct(alignedConsensus: AlignedConsensus) returns (r: Option<CorrectedConsensus>)
      requires Valid() && alignedConsensus.majorMutations.Valid()
      modifies this, alignedConsensus.majorMutations
      ensures Valid() && alignedConsensus.majorMutations.Valid()
      ensures totalConsensuses == old(totalConsensuses) + 1
      ensures var ref, mutations := alignedConsensus.reference, alignedConsensus.majorMutations;
        var f := library.getMutationFilter(ref);
        if !f.good then
          && r == None
          && goodConsensuses == old(goodConsensuses)
          && mutations.filtered == old(mutations.filtered)
        else
          && goodConsensuses == old(goodConsensuses) + 1
          && (forall i :: 0 <= i < |mutations.mutations| ==>
                mutations.filtered[i] == (old(mutations.filtered[i]) || Flagged(f, mutations.mutations[i])))
          && r == Some(CorrectedConsensus(
                 ref,
                 mutations.MutationCodes(),
                 InitialCoverageMask(f, |ref.sequence|) - ReleasedPositions(f, mutations.mutations),
                 MaxKeptPValue(library, ref, mutations.mutations),
                 alignedConsensus.migSize,
                 alignedConsensus.ranges))
    {
      totalConsensuses := totalConsensuses + 1;
      var coverageMask: set<int> := {};
      var maxPValue := 0.0;
      var reference := alignedConsensus.reference;
      var mutations := alignedConsensus.majorMutations;
      var mutationFilter := library.getMutationFilter(reference);

      if !mutationFilter.good {
        return None;
      }

      var k := 0;
      while k < |reference.sequence|
        invariant 0 <= k <= |reference.sequence|
        invariant coverageMask == set j | 0 <= j < k && !mutationFilter.passedFilter(j)
      {
        if !mutationFilter.passedFilter(k) {
          coverageMask := coverageMask + {k};
        }
        k := k + 1;
      }
      ghost var initialMask := coverageMask;
      assert initialMask == InitialCoverageMask(mutationFilter, |reference.sequence|);

      var ms := mutations.mutations;
      var i := 0;
      while i < |ms|
        invariant 0 <= i <= |ms|
        invariant mutations.Valid()
        invariant totalConsensuses == old(totalConsensuses) + 1 && goodConsensuses == old(goodConsensuses)
        invariant forall j :: 0 <= j < i ==>
          mutations.filtered[j] == (old(mutations.filtered[j]) || Flagged(mutationFilter, ms[j]))
        invariant forall j :: i <= j < |ms| ==> mutations.filtered[j] == old(mutations.filtered[j])
        invariant maxPValue == MaxKeptPValue(library, reference, ms[..i])
        invariant coverageMask == initialMask - ReleasedPositions(mutationFilter, ms[..i])
      {
        var mutation := ms[i];
        assert ms[..i + 1][..i] == ms[..i];
        ReleasedPositionsSnoc(mutationFilter, ms, i);
        if mutation.kind == Substitution {
          if mutationFilter.hasSubstitution(mutation.pos, mutation.to) {
            maxPValue := Max(maxPValue, library.getPValue(reference, mutation.pos, mutation.to));
          } else {
            mutations.Filter(i);
          }
        } else if !mutationFilter.hasIndel(mutation.code) {
          mutations.Filter(i);
        } else if mutation.kind == Deletion {
          coverageMask := coverageMask - {mutation.pos};
        }
        i := i + 1;
      }
      assert ms[..i] == ms;

      goodConsensuses := goodConsensuses + 1;
      r := Some(CorrectedConsensus(reference, mutations.MutationCodes(), coverageMask, maxPValue,
                                   alignedConsensus.migSize, alignedConsensus.ranges));
    }
  }
}
