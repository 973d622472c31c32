/** The immutable demultiplexing parameter record
    (`com.antigenomics.mageri.preprocessing.DemultiplexParameters`). Its two `double`
    fields are `real`s: they are only stored and compared. */
module Demultiplex {
  import opened JavaInt

  /** The five final fields; the datatype's constructor is the Java constructor and
      its field selectors are the getters. */
  datatype DemultiplexParameters = DemultiplexParameters(
    orientedReads: bool,
    maxTruncations: Int32,
    maxGoodQualMMRatio: real,
    maxLowQualityMMRatio: real,
    lowQualityThreshold: Int8)
  {
    function WithOrientedReads(v: bool): (r: DemultiplexParameters)
      ensures r.orientedReads == v
      ensures r.maxTruncations == maxTruncations && r.maxGoodQualMMRatio == maxGoodQualMMRatio
      ensures r.maxLowQualityMMRatio == maxLowQualityMMRatio && r.lowQualityThreshold == lowQualityThreshold
    {
      DemultiplexParameters(v, maxTruncations, maxGoodQualMMRatio, maxLowQualityMMRatio, lowQualityThreshold)
    }

    function WithMaxTruncations(v: Int32): (r: DemultiplexParameters)
      ensures r.maxTruncations == v
      ensures r.orientedReads == orientedReads && r.maxGoodQualMMRatio == maxGoodQualMMRatio
      ensures r.maxLowQualityMMRatio == maxLowQualityMMRatio && r.lowQualityThreshold == lowQualityThreshold
    {
      DemultiplexParameters(orientedReads, v, maxGoodQualMMRatio, maxLowQualityMMRatio, lowQualityThreshold)
    }

    function WithMaxGoodQualMMRatio(v: real): (r: DemultiplexParameters)
      ensures r.maxGoodQualMMRatio == v
      ensures r.orientedReads == orientedReads && r.maxTruncations == maxTruncations
      ensures r.maxLowQualityMMRatio == maxLowQualityMMRatio && r.lowQualityThreshold == lowQualityThreshold
    {
      DemultiplexParameters(orientedReads, maxTruncations, v, maxLowQualityMMRatio, lowQualityThreshold)
    }

    function WithMaxLowQualityMMRatio(v: real): (r: DemultiplexParameters)
      ensures r.maxLowQualityMMRatio == v
      ensures r.orientedReads == orientedReads && r.maxTruncations == maxTruncations
      ensures r.maxGoodQualMMRatio == maxGoodQualMMRatio && r.lowQualityThreshold == lowQualityThreshold
    {
      DemultiplexParameters(orientedReads, maxTruncations, maxGoodQualMMRatio, v, lowQualityThreshold)
    }

    function WithLowQualityThreshold(v: Int8): (r: DemultiplexParameters)
      ensures r.lowQualityThreshold == v
      ensures r.orientedReads == orientedReads && r.maxTruncations == maxTruncations
      ensures r.maxGoodQualMMRatio == maxGoodQualMMRatio && r.maxLowQualityMMRatio == maxLowQualityMMRatio
    {
      DemultiplexParameters(orientedReads, maxTruncations, maxGoodQualMMRatio, maxLowQualityMMRatio, v)
    }

    /** Java's `equals(Object)`: `null` and an object of another class are never
        equal; otherwise the five fields are compared one by one, the doubles with
        `Double.compare`. */
    predicate Equals(o: JavaObject): (equal: bool)
      ensures equal <==> o == Instance(this)
    {
      match o
      case Null => false
      case OfOtherClass => false
      case Instance(that) =>
        && lowQualityThreshold == that.lowQualityThreshold
        && that.maxGoodQualMMRatio == maxGoodQualMMRatio
        && that.maxLowQualityMMRatio == maxLowQualityMMRatio
        && maxTruncations == that.maxTruncations
        && orientedReads == that.orientedReads
    }
  }

  /** The argument of `equals(Object)`: `null`, a parameter record, or an object whose
      class is not `DemultiplexParameters`. */
  datatype JavaObject = Null | Instance(value: DemultiplexParameters) | OfOtherClass

  const DEFAULT: DemultiplexParameters := DemultiplexParameters(false, 2, 0.05, 0.1, 20)
  const ORIENTED: DemultiplexParameters := DemultiplexParameters(true, 2, 0.05, 0.1, 20)

  /** Each getter returns the argument given to the constructor in its place. */
  lemma GettersReturnArguments(o: bool, t: Int32, g: real, l: real, q: Int8)
    ensures var p := DemultiplexParameters(o, t, g, l, q);
      p.orientedReads == o && p.maxTruncations == t && p.maxGoodQualMMRatio == g
      && p.maxLowQualityMMRatio == l && p.lowQualityThreshold == q
  {
  }

  /** `equals` holds exactly when all five fields agree, and never for `null` or an
      object of another class. */
  lemma EqualsIffSameFields(p: DemultiplexParameters, q: DemultiplexParameters)
    ensures p.Equals(Instance(q)) <==> p == q
    ensures !p.Equals(Null) && !p.Equals(OfOtherClass)
  {
  }

  /** `equals` is reflexive and symmetric (and transitive). */
  lemma EqualsIsEquivalence(p: DemultiplexParameters, q: DemultiplexParameters, r: DemultiplexParameters)
    ensures p.Equals(Instance(p))
    ensures p.Equals(Instance(q)) <==> q.Equals(Instance(p))
    ensures p.Equals(Instance(q)) && q.Equals(Instance(r)) ==> p.Equals(Instance(r))
  {
  }

  /** Copy-updating a field with its own value gives back an equal record. */
  lemma WithOwnValueIsEqual(p: DemultiplexParameters)
    ensures p.WithOrientedReads(p.orientedReads).Equals(Instance(p))
    ensures p.WithMaxTruncations(p.maxTruncations).Equals(Instance(p))
    ensures p.WithMaxGoodQualMMRatio(p.maxGoodQualMMRatio).Equals(Instance(p))
    ensures p.WithMaxLowQualityMMRatio(p.maxLowQualityMMRatio).Equals(Instance(p))
    ensures p.WithLowQualityThreshold(p.lowQualityThreshold).Equals(Instance(p))
  {
  }

  /** The two presets differ only in `orientedReads`. */
  lemma PresetsDifferOnlyInOrientation()
    ensures !DEFAULT.orientedReads && ORIENTED.orientedReads
    ensures DEFAULT.WithOrientedReads(true).Equals(Instance(ORIENTED))
    ensures !DEFAULT.Equals(Instance(ORIENTED))
  {
  }
}
