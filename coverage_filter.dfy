/** The coverage variant filter of the oncomigec generation
    (`com.milaboratory.oncomigec.core.variant.filter.CoverageFilter`). */
module CoverageVariantFilter {
  import opened JavaInt
  import Decimal

  /** The counter of a variant the filter reads: its depth (coverage). */
  datatype Variant = Variant(count: Int32, depth: Int32)

  const DESCRIPTION_PREFIX: string := "Coverage below "
  const ID_PREFIX: string := "c"

  datatype CoverageFilter = CoverageFilter(coverageThreshold: Int32) {

    /** A variant passes when its depth reaches the threshold. */
    predicate Pass(v: Variant)
    {
      v.depth >= coverageThreshold
    }

    function Description(): (s: string)
      ensures |s| > |DESCRIPTION_PREFIX| && s[..|DESCRIPTION_PREFIX|] == DESCRIPTION_PREFIX
      ensures Decimal.IsJavaDecimal(s[|DESCRIPTION_PREFIX|..])
      ensures Decimal.ParseInt(s[|DESCRIPTION_PREFIX|..]) == coverageThreshold
    {
      Decimal.IntToDecimalRoundTrip(coverageThreshold);
      var s := DESCRIPTION_PREFIX + Decimal.IntToDecimal(coverageThreshold);
      assert s[|DESCRIPTION_PREFIX|..] == Decimal.IntToDecimal(coverageThreshold);
      s
    }

    function Id(): (s: string)
      ensures |s| > |ID_PREFIX| && s[..|ID_PREFIX|] == ID_PREFIX
      ensures Decimal.IsJavaDecimal(s[|ID_PREFIX|..])
      ensures Decimal.ParseInt(s[|ID_PREFIX|..]) == coverageThreshold
    {
      Decimal.IntToDecimalRoundTrip(coverageThreshold);
      var s := ID_PREFIX + Decimal.IntToDecimal(coverageThreshold);
      assert s[|ID_PREFIX|..] == Decimal.IntToDecimal(coverageThreshold);
      s
    }
  }

  /** `Pass` holds exactly when the depth is at least the threshold. */
  lemma PassIff(f: CoverageFilter, v: Variant)
    ensures f.Pass(v) <==> v.depth >= f.coverageThreshold
  {
  }

  /** A passing variant keeps passing when its depth grows. */
  lemma PassMonotoneInDepth(f: CoverageFilter, v: Variant, deeper: Int32)
    requires f.Pass(v) && v.depth <= deeper
    ensures f.Pass(v.(depth := deeper))
  {
  }

  /** Lowering the threshold never makes a passing variant fail. */
  lemma PassAntitoneInThreshold(t1: Int32, t2: Int32, v: Variant)
    requires t1 <= t2 && CoverageFilter(t2).Pass(v)
    ensures CoverageFilter(t1).Pass(v)
  {
  }

  /** Two filters share an id only when they share a threshold. */
  lemma IdDeterminesThreshold(f: CoverageFilter, g: CoverageFilter)
    requires f.Id() == g.Id()
    ensures f == g
  {
    assert f.Id()[|ID_PREFIX|..] == g.Id()[|ID_PREFIX|..];
  }

  /** The contract of `Description` pins its string: any string with the prefix, then a
      Java decimal form of the threshold, is the description. */
  lemma DescriptionIsUnique(f: CoverageFilter, s: string)
    requires |s| > |DESCRIPTION_PREFIX| && s[..|DESCRIPTION_PREFIX|] == DESCRIPTION_PREFIX
    requires Decimal.IsJavaDecimal(s[|DESCRIPTION_PREFIX|..])
    requires Decimal.ParseInt(s[|DESCRIPTION_PREFIX|..]) == f.coverageThreshold
    ensures s == f.Description()
  {
    Decimal.PrefixedDecimalUnique(DESCRIPTION_PREFIX, s, f.Description());
  }

  /** The contract of `Id` pins its string in the same way. */
  lemma IdIsUnique(f: CoverageFilter, s: string)
    requires |s| > |ID_PREFIX| && s[..|ID_PREFIX|] == ID_PREFIX
    requires Decimal.IsJavaDecimal(s[|ID_PREFIX|..])
    requires Decimal.ParseInt(s[|ID_PREFIX|..]) == f.coverageThreshold
    ensures s == f.Id()
  {
    Decimal.PrefixedDecimalUnique(ID_PREFIX, s, f.Id());
  }
}
