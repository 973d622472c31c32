# MIGEC / MAGERI core, modelled in Dafny

This project models the parts of the MIGEC / MAGERI toolkit that do the bookkeeping
after a molecular identifier group (MIG) has become a consensus sequence:

- **Haplotype tree** (`migec2`). Corrected consensuses are counted per reference
  sequence and per haplotype: a MIG count and a read count. `calculatePValues` then
  tries every parent haplotype that is at least as abundant against every child haplotype. It
  multiplies per-mutation p-values, which are forced to 0 by a ratio cut-off and a
  depth cut-off. `getHaplotypes` keeps the haplotypes whose p-value is at most a
  threshold.
- **Corrector** (`oncomigec`). One aligned consensus is checked against its
  reference's mutation filter. Failing mutations are flagged. A coverage mask and the
  maximum p-value of kept substitutions are computed, and two counters are kept.
- **Assembler skeleton** (`mageri`). It wraps the abstract `assemble`, keeps counters
  and a consensus list, clears the list, and renders a tab-separated table.
- **SingletonFilter** and **CoverageFilter**: variant filters, with their ids and
  descriptions.
- **DemultiplexParameters**: an immutable parameter record with `with*` copies and
  field-wise `equals`.

Layout:

- `wrappers.dfy`: Option, Result and Outcome.
- `java_int.dfy`: Java `int`/`byte` ranges and 32-bit wrap-around multiplication.
- `decimal.dfy`: Java's decimal rendering of integers, with a parser and a proved
  round trip.
- One file per core class.

The state-changing classes (`HaplotypeTree`, `Corrector`, `MigecMutationsCollection`,
`Assembler`) are Dafny classes. Each such method is specified against a function of
its old state. The collaborators the code calls but does not define are uninterpreted
function-valued fields or parameters:

- the error statistics;
- `generateHaplotype`;
- `getMutationDifferences`;
- `HaplotypeCounters.updatepValue`;
- the mutation filter;
- the p-value library;
- `assemble`, a parameter of `Process`.

Java `HashMap` iteration order is unspecified. The tree therefore iterates over an
enumeration of its keys. The method returns that enumeration, and its contract is
stated for it.

Java `double` is modelled as `real`. The test `count / (double) total <= ratio` is
written out as Java evaluates it. When `total` is 0, the quotient is NaN for a zero
count (the test is false) or an infinity of the count's sign (the test is true only
for a negative count).

## Model

| member | source | states |
|---|---|---|
| `HaplotypeModel.HaplotypeTree.constructor` | src/main/java/com/milaboratory/migec2/core/haplotype/HaplotypeTree.java:36-40 | the tree starts empty with the given statistics and parameters |
| `HaplotypeModel.HaplotypeTree.Add` | src/main/java/com/milaboratory/migec2/core/haplotype/HaplotypeTree.java:42-44 | adding a corrected consensus adds its generated haplotype with the consensus's MIG size |
| `HaplotypeModel.HaplotypeTree.AddHaplotype` | src/main/java/com/milaboratory/migec2/core/haplotype/HaplotypeTree.java:46-62 | the new index is `Added(old, haplotype, migSize)`, and haplotypes stay filed under their own reference |
| `HaplotypeModel.AddedLookup` | src/main/java/com/milaboratory/migec2/core/haplotype/HaplotypeTree.java:55-61 | `add(h, s)` raises h's count by exactly 1 and its read count by exactly s, starting from fresh counters when h is new; every other haplotype's counters are unchanged |
| `HaplotypeModel.AddedTouchesOneReference` | src/main/java/com/milaboratory/migec2/core/haplotype/HaplotypeTree.java:47-53 | only the inner map of h's reference sequence changes, and that reference is created when missing |
| `HaplotypeModel.AddedKeepsPartitioned` | src/main/java/com/milaboratory/migec2/core/haplotype/HaplotypeTree.java:47-58 | every haplotype sits under its own reference, every inner map is non-empty, and every stored count is at least 1; `add` preserves this |
| `HaplotypeModel.AddedKeepsReadsAtLeastMigs` | src/main/java/com/milaboratory/migec2/core/haplotype/HaplotypeTree.java:60-61 | with MIG sizes of at least 1, every read count stays at or above its MIG count |
| `HaplotypeModel.AddedCommute` | src/main/java/com/milaboratory/migec2/core/haplotype/HaplotypeTree.java:46-62 | two `add` calls in either order give the same index |
| `HaplotypeModel.AddAllMoveToFront` | src/main/java/com/milaboratory/migec2/core/haplotype/HaplotypeTree.java:42-62 | adding any one consensus of a sequence first gives the same index |
| `HaplotypeModel.AddAllOrderIndependent` | src/main/java/com/milaboratory/migec2/core/haplotype/HaplotypeTree.java:42-62 | any permutation of the same consensuses gives the same counts and read counts |
| `HaplotypeModel.HaplotypeTree.UpdatePValue` | src/main/java/com/milaboratory/migec2/core/haplotype/HaplotypeTree.java:65-104 | fails exactly when the parent and child have no mutation difference; otherwise the child's counters get `updatepValue(old, p)`, whose p is `DifferencesPValue`: 0 when the groups outnumber `depth` or some mutation fails the ratio test, else the running product from 1 of `calculatePValue` over every mutation, in order |
| `HaplotypeModel.OneFrequentMutationGivesZero` | src/main/java/com/milaboratory/migec2/core/haplotype/HaplotypeTree.java:86-93 | one mutation whose child-count ratio is not within `childMajorRatioForPValue` (a zero total included) forces the pair's p-value to 0 |
| `HaplotypeModel.HaplotypeTree.ChildPValue` | src/main/java/com/milaboratory/migec2/core/haplotype/HaplotypeTree.java:109-114 | one child tried against every parent in iteration order: it fails exactly when some tested pair has no difference, and otherwise its p-value is the fold of `updatepValue` over the eligible parents (distinct, parent count at least the child's, and the child not a singleton when singletons are filtered), while its counts stay the same |
| `HaplotypeModel.HaplotypeTree.ReferencePValues` | src/main/java/com/milaboratory/migec2/core/haplotype/HaplotypeTree.java:108-115 | one reference's pass: the order is an enumeration of its haplotypes; it fails exactly when some tested pair is undistinguished; otherwise every child's counters are `PValuesUpdated` for that order |
| `HaplotypeModel.HaplotypeTree.CalculatePValues` | src/main/java/com/milaboratory/migec2/core/haplotype/HaplotypeTree.java:106-117 | counts and read counts never change; the call fails exactly when some reference holds an undistinguished tested pair; otherwise every reference's counters are updated for an enumeration of its haplotypes |
| `HaplotypeModel.NoEligibleParentKeepsPValue` | src/main/java/com/milaboratory/migec2/core/haplotype/HaplotypeTree.java:110-113 | a child with no eligible parent is never updated and keeps its p-value |
| `HaplotypeModel.MostAbundantKeepsPValue` | src/main/java/com/milaboratory/migec2/core/haplotype/HaplotypeTree.java:110-112 | a haplotype counted strictly more often than all others of its reference keeps its p-value |
| `HaplotypeModel.SingletonKeepsPValue` | src/main/java/com/milaboratory/migec2/core/haplotype/HaplotypeTree.java:111 | with singleton filtering, a haplotype seen in only one MIG keeps its p-value |
| `HaplotypeModel.Enumerate` | src/main/java/com/milaboratory/migec2/core/haplotype/HaplotypeTree.java:107-109 | the iteration order of a map's entries lists every key exactly once |
| `HaplotypeModel.HaplotypeTree.GetHaplotypes` | src/main/java/com/milaboratory/migec2/core/haplotype/HaplotypeTree.java:123-134 | without changing the tree, returns exactly the stored haplotypes with p-value at most the threshold and, when singletons are filtered, count above 1 |
| `HaplotypeModel.AddSelected` | src/main/java/com/milaboratory/migec2/core/haplotype/HaplotypeTree.java:126-131 | the inner loop adds to the result exactly the selected haplotypes of one reference |
| `HaplotypeModel.HaplotypeTree.GetDefaultHaplotypes` | src/main/java/com/milaboratory/migec2/core/haplotype/HaplotypeTree.java:119-121 | the selection at the configured `pValueThreshold` |
| `HaplotypeModel.SelectedMembership` | src/main/java/com/milaboratory/migec2/core/haplotype/HaplotypeTree.java:128-130 | a haplotype is selected if and only if it is stored, its p-value is at most the threshold, and (with singleton filtering) its count is above 1 |
| `HaplotypeModel.SelectedMonotone` | src/main/java/com/milaboratory/migec2/core/haplotype/HaplotypeTree.java:128 | a larger threshold returns a superset |
| `Correct.MigecMutationsCollection.constructor` | src/main/java/com/milaboratory/oncomigec/core/correct/Corrector.java:53 | an assumption about the collection class, whose source is not part of this model: the collection `correct` receives starts with no mutation flagged |
| `Correct.MigecMutationsCollection.Filter` | src/main/java/com/milaboratory/oncomigec/core/correct/Corrector.java:74-77 | `filter()` flags exactly that one mutation |
| `Correct.UnfilteredCodesMembership` | src/main/java/com/milaboratory/oncomigec/core/correct/Corrector.java:85 | `getMutationCodes` lists exactly the codes of the unflagged mutations |
| `Correct.MigecMutationsCollection.MutationCodes` | src/main/java/com/milaboratory/oncomigec/core/correct/Corrector.java:85 | `getMutationCodes()` contains a code exactly when some mutation that is not flagged carries it |
| `Correct.Corrector.constructor` | src/main/java/com/milaboratory/oncomigec/core/correct/Corrector.java:39-44 | both counters start at 0 |
| `Correct.Corrector.Correct` | src/main/java/com/milaboratory/oncomigec/core/correct/Corrector.java:46-87 | total rises by 1. For a bad filter: null result, good count unchanged, no mutation flagged. Otherwise: good rises by 1; each mutation's flag becomes its old flag or-ed with the filter's verdict (a substitution fails on `!hasSubstitution(pos, to)`, any other mutation on `!hasIndel(code)`); the result carries the unflagged codes, the mask `{k < length : !passedFilter(k)}` without kept deletion positions, the maximum kept p-value, the MIG size and the ranges. `good <= total` is preserved |
| `Correct.MaxKeptPValueIsMaximum` | src/main/java/com/milaboratory/oncomigec/core/correct/Corrector.java:51-72 | the max p-value is at least 0 and at least every kept substitution's `getPValue`, and it is 0 or equal to one of them |
| `Correct.NoKeptSubstitutionGivesZero` | src/main/java/com/milaboratory/oncomigec/core/correct/Corrector.java:51-72 | with no kept substitution the max p-value is 0 |
| `Correct.FinalMaskShrinks` | src/main/java/com/milaboratory/oncomigec/core/correct/Corrector.java:61-79 | a position leaves the mask only through a deletion accepted by `hasIndel` at that position |
| `Correct.CleanConsensus` | src/main/java/com/milaboratory/oncomigec/core/correct/Corrector.java:49-86 | no mutations and `passedFilter` everywhere give an empty mask and a max p-value of 0 |
| `Correct.ReleasedPositionsSnoc` | src/main/java/com/milaboratory/oncomigec/core/correct/Corrector.java:78-79 | each further mutation removes its position from the mask exactly when it is a kept deletion |
| `Assemble.Process` | src/main/java/com/antigenomics/mageri/core/assemble/Assembler.java:53-60 | BLANK iff `assemble(mig)` is null; otherwise a wrapper holding exactly that consensus |
| `Assemble.ProcessRoundTrip` | src/main/java/com/antigenomics/mageri/core/assemble/Assembler.java:53-60 | unwrapping the result gives back `assemble(mig)` |
| `Assemble.Assembler.constructor` | src/main/java/com/antigenomics/mageri/core/assemble/Assembler.java:42-49 | counters 0, list empty, storing on, not cleared |
| `Assemble.Assembler.Clear` | src/main/java/com/antigenomics/mageri/core/assemble/Assembler.java:92-95 | the new state is `Cleared(old state)` |
| `Assemble.ClearedProperties` | src/main/java/com/antigenomics/mageri/core/assemble/Assembler.java:92-95 | after `clear`: empty list, `cleared` true, all four counters unchanged, clearing again changes nothing, and the body is empty |
| `Assemble.Assembler.GetHeader` | src/main/java/com/antigenomics/mageri/core/assemble/Assembler.java:98-100 | always `umi<TAB>reads.assembled<TAB>reads.total` |
| `Assemble.HeaderShape` | src/main/java/com/antigenomics/mageri/core/assemble/Assembler.java:98-100 | the header has two tabs and no newline |
| `Assemble.Assembler.GetBody` | src/main/java/com/antigenomics/mageri/core/assemble/Assembler.java:103-113 | the body is the concatenation, in list order, of one `umi TAB assembledSize TAB trueSize NEWLINE` line per stored consensus |
| `Assemble.BodyConcat` | src/main/java/com/antigenomics/mageri/core/assemble/Assembler.java:106-110 | the body of two lists joined is the two bodies joined |
| `Assemble.BodyHasOneLinePerConsensus` | src/main/java/com/antigenomics/mageri/core/assemble/Assembler.java:106-110 | when no UMI contains a tab or newline, the body has exactly one newline per consensus |
| `Assemble.LineShape` | src/main/java/com/antigenomics/mageri/core/assemble/Assembler.java:107-110 | a line whose UMI has no tab or newline has exactly two tabs and one newline |
| `Assemble.HeaderMatchesLines` | src/main/java/com/antigenomics/mageri/core/assemble/Assembler.java:98-110 | the header has as many columns as every body line |
| `SingletonVariantFilter.SingletonFilter.Pass` | src/main/java/com/antigenomics/mageri/core/variant/filter/SingletonFilter.java:29-33 | a variant whose count is not 1 always passes; a singleton passes exactly when the threshold is at least its depth, because the 32-bit product `1 * threshold` cannot overflow |
| `SingletonVariantFilter.SingletonFilter.Description` | src/main/java/com/antigenomics/mageri/core/variant/filter/SingletonFilter.java:36-38 | `Singleton, frequency below ` followed by a string in Java's decimal shape (no leading zeros, no `-0`) that denotes the threshold |
| `SingletonVariantFilter.SingletonFilter.Id` | src/main/java/com/antigenomics/mageri/core/variant/filter/SingletonFilter.java:41-43 | `si` followed by a string in Java's decimal shape that denotes the threshold |
| `SingletonVariantFilter.NonSingletonPasses` | src/main/java/com/antigenomics/mageri/core/variant/filter/SingletonFilter.java:30-32 | any variant with count other than 1 passes |
| `SingletonVariantFilter.SingletonPassesIff` | src/main/java/com/antigenomics/mageri/core/variant/filter/SingletonFilter.java:30-32 | with count 1, the 32-bit product is the threshold itself (no overflow), and the variant passes iff threshold >= depth |
| `SingletonVariantFilter.PassMonotoneInThreshold` | src/main/java/com/antigenomics/mageri/core/variant/filter/SingletonFilter.java:32 | raising the threshold never turns a passing variant into a failing one |
| `SingletonVariantFilter.IdDeterminesThreshold` | src/main/java/com/antigenomics/mageri/core/variant/filter/SingletonFilter.java:41-43 | two filters with the same id have the same threshold |
| `CoverageVariantFilter.CoverageFilter.Description` | src/main/java/com/milaboratory/oncomigec/core/variant/filter/CoverageFilter.java:36-38 | `Coverage below ` followed by a string in Java's decimal shape that denotes the threshold |
| `CoverageVariantFilter.CoverageFilter.Id` | src/main/java/com/milaboratory/oncomigec/core/variant/filter/CoverageFilter.java:41-43 | `c` followed by a string in Java's decimal shape that denotes the threshold |
| `CoverageVariantFilter.CoverageFilter.Pass` | src/main/java/com/milaboratory/oncomigec/core/variant/filter/CoverageFilter.java:31-33 | `pass(variant)`: the single depth comparison of the source; its meaning is stated and proved by `PassIff` below |
| `CoverageVariantFilter.PassIff` | src/main/java/com/milaboratory/oncomigec/core/variant/filter/CoverageFilter.java:31-33 | passes iff depth >= threshold |
| `CoverageVariantFilter.PassMonotoneInDepth` | src/main/java/com/milaboratory/oncomigec/core/variant/filter/CoverageFilter.java:32 | a passing variant keeps passing when its depth grows |
| `CoverageVariantFilter.PassAntitoneInThreshold` | src/main/java/com/milaboratory/oncomigec/core/variant/filter/CoverageFilter.java:32 | lowering the threshold never makes a passing variant fail |
| `CoverageVariantFilter.IdDeterminesThreshold` | src/main/java/com/milaboratory/oncomigec/core/variant/filter/CoverageFilter.java:41-43 | two filters with the same id have the same threshold |
| `Demultiplex.GettersReturnArguments` | src/main/java/com/antigenomics/mageri/preprocessing/DemultiplexParameters.java:35-63 | each getter returns its constructor argument |
| `Demultiplex.DemultiplexParameters.WithOrientedReads` | src/main/java/com/antigenomics/mageri/preprocessing/DemultiplexParameters.java:65-69 | the new orientation, and the other four fields unchanged |
| `Demultiplex.DemultiplexParameters.WithMaxTruncations` | src/main/java/com/antigenomics/mageri/preprocessing/DemultiplexParameters.java:71-75 | the new truncation limit, and the other four fields unchanged |
| `Demultiplex.DemultiplexParameters.WithMaxGoodQualMMRatio` | src/main/java/com/antigenomics/mageri/preprocessing/DemultiplexParameters.java:77-81 | the new good-quality mismatch ratio, and the other four fields unchanged |
| `Demultiplex.DemultiplexParameters.WithMaxLowQualityMMRatio` | src/main/java/com/antigenomics/mageri/preprocessing/DemultiplexParameters.java:83-87 | the new low-quality mismatch ratio, and the other four fields unchanged |
| `Demultiplex.DemultiplexParameters.WithLowQualityThreshold` | src/main/java/com/antigenomics/mageri/preprocessing/DemultiplexParameters.java:89-93 | the new quality threshold, and the other four fields unchanged |
| `Demultiplex.DemultiplexParameters.Equals` | src/main/java/com/antigenomics/mageri/preprocessing/DemultiplexParameters.java:117-131 | `equals(o)` holds exactly when o is a parameter record equal to this one in all five fields; `null` and objects of another class are unequal |
| `Demultiplex.EqualsIffSameFields` | src/main/java/com/antigenomics/mageri/preprocessing/DemultiplexParameters.java:117-131 | `equals` holds iff all five fields agree, and never for null or an object of another class |
| `Demultiplex.EqualsIsEquivalence` | src/main/java/com/antigenomics/mageri/preprocessing/DemultiplexParameters.java:117-131 | `equals` is reflexive, symmetric and transitive |
| `Demultiplex.WithOwnValueIsEqual` | src/main/java/com/antigenomics/mageri/preprocessing/DemultiplexParameters.java:65-93 | `withX(getX())` equals the original |
| `Demultiplex.PresetsDifferOnlyInOrientation` | src/main/java/com/antigenomics/mageri/preprocessing/DemultiplexParameters.java:28-33 | the DEFAULT and ORIENTED presets differ only in `orientedReads` |
| `Decimal.IntToDecimalRoundTrip` | src/main/java/com/antigenomics/mageri/core/variant/filter/SingletonFilter.java:37 | Java's decimal rendering of an int parses back to the same int |
| `Decimal.JavaDecimalUnique` | src/main/java/com/antigenomics/mageri/core/variant/filter/SingletonFilter.java:37 | two strings in Java's decimal shape that denote the same number are equal, so shape and value together pin the rendering |
| `SingletonVariantFilter.DescriptionIsUnique` | src/main/java/com/antigenomics/mageri/core/variant/filter/SingletonFilter.java:36-38 | any string with the description prefix followed by a Java decimal form of the threshold is the description |
| `SingletonVariantFilter.IdIsUnique` | src/main/java/com/antigenomics/mageri/core/variant/filter/SingletonFilter.java:41-43 | any string `si` followed by a Java decimal form of the threshold is the id |
| `CoverageVariantFilter.DescriptionIsUnique` | src/main/java/com/milaboratory/oncomigec/core/variant/filter/CoverageFilter.java:36-38 | any string with the description prefix followed by a Java decimal form of the threshold is the description |
| `CoverageVariantFilter.IdIsUnique` | src/main/java/com/milaboratory/oncomigec/core/variant/filter/CoverageFilter.java:41-43 | any string `c` followed by a Java decimal form of the threshold is the id |

## Left out

- `HaplotypeTree.toFastaString` and `toString`: presentation only, and they depend on Java's double-to-string conversion.
- `Corrector.getHeader` and `getBody`: presentation of doubles (including `1.0 - pValue`).
- `Assembler.writePlainText`: gzip FASTQ file output and a console warning.
- `DemultiplexParameters.equals`: the argument is `null`, a parameter record, or an object of another class. A subclass instance falls under the last case, as the `getClass` test makes it. `Double.compare` on NaN and -0.0 is not modelled, since doubles are reals.
- `DemultiplexParameters.toXml`, `fromXml` and `hashCode`: XML library calls, double parsing and `doubleToLongBits`.
- The one-argument `HaplotypeTree` and `Corrector` constructors: they only pass the `DEFAULT` parameter objects, whose values are not part of this model.
- The abstract `assemble`, the `getReadsRescued*`/`getReadsDropped*` getters and `getMinorCaller`: they have no body here. `assemble` is a parameter of `Process`.
- The `Assembler` counter getters return the fields directly and have no members of their own. The counters have no operation in this core that changes them, so `long`/`int` overflow is not modelled.
- `Corrector` counters: `incrementAndGet` overflow past 2^31 - 1 is not modelled; the counters are unbounded integers.
- `AtomicInteger`, `AtomicLong` and the synchronized list: concurrency is not modelled; the fields are plain sequential values.
- Doubles are reals: NaN, infinities beyond the zero-total ratio test, -0.0 and rounding are not modelled. In particular `0 * Infinity` after a forced-zero group is taken as 0.
- `HaplotypeModel.HaplotypeTree.CalculatePValues`: when `updatePValue` throws, the model states only that counts and read counts are unchanged. The p-values that Java had already updated in place before the exception are not described.
- `MigecMutationsCollection`: its source is not part of this model. It is taken to be a sequence of mutations with one-way flags, all clear when `correct` receives it; `filter()` sets one flag and `getMutationCodes()` lists the codes of the unflagged mutations in order.
- `HaplotypeCounters`: its body is not part of this model. A fresh counter is taken to hold a p-value of 1.0; `incrementCount`/`incrementReadCount` add 1 and the MIG size; `updatepValue` is uninterpreted.
- `Haplotype`: equality, hashing and the masked sequence are not part of this model. A haplotype is its reference sequence and its mutation signature, and `getMutationDifferences` and `generateHaplotype` are uninterpreted.
- The pair test `parent.getKey() != child.getKey()` compares references. Keys of one `HashMap` are distinct objects, so the model uses haplotype inequality.
- `HaplotypeErrorStatistics`, `CorrectorReferenceLibrary`, `MutationFilter` and their p-value arithmetic: uninterpreted functions.
- `AdapterRule` and the FASTQ/FASTA-driven test classes: glue and I/O with no logic of their own in this core.
- `HaplotypeTree.getCounters`: a private lookup with no caller in the modelled code. `Lookup` plays its part in the contracts.
- `Corrector.getCorrectorReferenceLibrary`: it only returns a field. The two counters are private and have no getters.
