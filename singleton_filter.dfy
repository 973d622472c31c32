/** The singleton variant filter of the mageri generation
    (`com.antigenomics.mageri.core.variant.filter.SingletonFilter`). */
module SingletonVariantFilter {
  import opened JavaInt
  import Decimal

  /** The two counters of a variant the filter reads: its MIG count and its depth. */
  datatype Variant = Variant(count: Int32, depth: Int32)

  const DESCRIPTION_PREFIX: string := "Singleton, frequency below "
  const ID_PREFIX: string := "si"

  datatype SingletonFilter = SingletonFilter(frequencyThreshold: Int32) {

    /** A variant seen in more or fewer than one MIG always passes; a singleton passes
        when `count * frequencyThreshold`, in Java `int` arithmetic, reaches its depth. */
    predicate Pass(v: Variant): (pass: bool)
      ensures v.count != 1 ==> pass
      ensures v.count == 1 ==> (pass <==> frequencyThreshold >= v.depth)
    {
      v.count != 1 || Mul32(v.count, frequencyThreshold) >= v.depth
    }

    function Description(): (s: string)
      ensures |s| > |DESCRIPTION_PREFIX| && s[..|DESCRIPTION_PREFIX|] == DESCRIPTION_PREFIX
      ensures Decimal.IsJavaDecimal(s[|DESCRIPTION_PREFIX|..])
      ensures Decimal.ParseInt(s[|DESCRIPTION_PREFIX|..]) == frequencyThreshold
    {
      Decimal.IntToDecimalRoundTrip(frequencyThreshold);
      var s := DESCRIPTION_PREFIX + Decimal.IntToDecimal(frequencyThreshold);
      assert s[|DESCRIPTION_PREFIX|..] == Decimal.IntToDecimal(frequencyThreshold);
      s
    }

    function Id(): (s: string)
      ensures |s| > |ID_PREFIX| && s[..|ID_PREFIX|] == ID_PREFIX
      ensures Decimal.IsJavaDecimal(s[|ID_PREFIX|..])
      ensures Decimal.ParseInt(s[|ID_PREFIX|..]) == frequencyThreshold
    {
      Decimal.IntToDecimalRoundTrip(frequencyThreshold);
      var s := ID_PREFIX + Decimal.IntToDecimal(frequencyThreshold);
      assert s[|ID_PREFIX|..] == Decimal.IntToDecimal(frequencyThreshold);
      s
    }
  }

  /** Any variant whose count is not 1 passes, whatever the threshold. */
  lemma NonSingletonPasses(f: SingletonFilter, v: Variant)
    requires v.count != 1
    ensures f.Pass(v)
  {
  }

  /** On the singleton branch the product is the threshold itself (no overflow), so a
      singleton passes exactly when the threshold reaches its depth. */
  lemma SingletonPassesIff(f: SingletonFilter, v: Variant)
    requires v.count == 1
    ensures Mul32(v.count, f.frequencyThreshold) == f.frequencyThreshold
    ensures f.Pass(v) <==> f.frequencyThreshold >= v.depth
  {
  }

  /** Raising the threshold never turns a passing variant into a failing one. */
  lemma PassMonotoneInThreshold(t1: Int32, t2: Int32, v: Variant)
    requires t1 <= t2 && SingletonFilter(t1).Pass(v)
    ensures SingletonFilter(t2).Pass(v)
  {
    if v.count == 1 {
      SingletonPassesIff(SingletonFilter(t1), v);
      SingletonPassesIff(SingletonFilter(t2), v);
    }
  }

  /** Two filters share an id only when they share a threshold. */
  lemma IdDeterminesThreshold(f: SingletonFilter, g: SingletonFilter)
    requires f.Id() == g.Id()
    ensures f == g
  {
    assert f.Id()[|ID_PREFIX|..] == g.Id()[|ID_PREFIX|..];
  }

  /** The contract of `Description` pins its string: any string with the prefix, then a
      Java decimal form of the threshold, is the description. */
  lemma DescriptionIsUnique(f: SingletonFilter, s: string)
    requires |s| > |DESCRIPTION_PREFIX| && s[..|DESCRIPTION_PREFIX|] == DESCRIPTION_PREFIX
    requires Decimal.IsJavaDecimal(s[|DESCRIPTION_PREFIX|..])
    requires Decimal.ParseInt(s[|DESCRIPTION_PREFIX|..]) == f.frequencyThreshold
    ensures s == f.Description()
  {
    Decimal.PrefixedDecimalUnique(DESCRIPTION_PREFIX, s, f.Description());
  }

  /** The contract of `Id` pins its string in the same way. */
  lemma IdIsUnique(f: SingletonFilter, s: string)
    requires |s| > |ID_PREFIX| && s[..|ID_PREFIX|] == ID_PREFIX
    requires Decimal.IsJavaDecimal(s[|ID_PREFIX|..])
    requires Decimal.ParseInt(s[|ID_PREFIX|..]) == f.frequencyThreshold
    ensures s == f.Id()
  {
    Decimal.PrefixedDecimalUnique(ID_PREFIX, s, f.Id());
  }
}
