/** The decimal form Java gives an integer (`Integer.toString`, `"s" + n`,
    `StringBuilder.append(int)`), and a parser that undoes it. */
module Decimal {

  predicate IsDigit(c: char)
  {
    '0' <= c <= '9'
  }

  /** The characters Java's decimal form is made of: digits and a leading minus. */
  predicate IsNumeral(c: char)
  {
    IsDigit(c) || c == '-'
  }

  function DigitChar(d: int): (c: char)
    requires 0 <= d < 10
    ensures IsDigit(c) && c as int - '0' as int == d
  {
    (d + '0' as int) as char
  }

  /** Reads a string of digits, most significant first. */
  function ParseNat(s: string): int
  {
    if s == [] then 0 else ParseNat(s[..|s| - 1]) * 10 + (s[|s| - 1] as int - '0' as int)
  }

  /** Reads an optional minus sign followed by digits. */
  function ParseInt(s: string): int
  {
    if |s| > 0 && s[0] == '-' then -ParseNat(s[1..]) else ParseNat(s)
  }

  /** The digits of `n` without leading zeros. */
  function NatToDecimal(n: nat): (s: string)
    ensures |s| >= 1 && (forall i :: 0 <= i < |s| ==> IsDigit(s[i]))
    ensures s[0] == '0' ==> s == "0"
    ensures ParseNat(s) == n
    decreases n
  {
    if n < 10 then [DigitChar(n)]
    else
      var prefix := NatToDecimal(n / 10);
      var s := prefix + [DigitChar(n % 10)];
      assert s[..|s| - 1] == prefix;
      s
  }

  /** Only digits. */
  predicate IsDigits(s: string)
  {
    forall i :: 0 <= i < |s| ==> IsDigit(s[i])
  }

  /** Digits as Java writes a non-negative number: at least one, and no leading zero
      unless the number is 0 itself. */
  predicate IsCanonicalNat(s: string)
  {
    |s| >= 1 && IsDigits(s) && (s[0] == '0' ==> |s| == 1)
  }

  /** The exact shape of Java's decimal form: a canonical natural, or a minus sign
      followed by a canonical natural other than 0. */
  predicate IsJavaDecimal(s: string)
  {
    || IsCanonicalNat(s)
    || (|s| >= 2 && s[0] == '-' && s[1] != '0' && IsCanonicalNat(s[1..]))
  }

  /** Java's decimal form of an integer: a minus sign for negatives, then the digits. */
  function IntToDecimal(n: int): (s: string)
    ensures |s| >= 1 && (forall i :: 0 <= i < |s| ==> IsNumeral(s[i]))
    ensures IsJavaDecimal(s)
  {
    if n < 0 then
      var digits := NatToDecimal(-n);
      var s := "-" + digits;
      assert s[1..] == digits;
      s
    else NatToDecimal(n)
  }

  /** Parsing Java's decimal form gives the number back. */
  lemma IntToDecimalRoundTrip(n: int)
    ensures ParseInt(IntToDecimal(n)) == n
  {
    if n < 0 {
      assert IntToDecimal(n)[1..] == NatToDecimal(-n);
    }
  }

  /** Digits with a non-zero leading digit denote a positive number. */
  lemma {:induction false} ParseNatPositive(s: string)
    requires |s| >= 1 && IsDigits(s) && s[0] != '0'
    ensures ParseNat(s) >= 1
    decreases |s|
  {
    if |s| > 1 {
      var prefix := s[..|s| - 1];
      assert prefix[0] == s[0];
      ParseNatPositive(prefix);
    }
  }

  /** A canonical digit string is the decimal form of the number it denotes. */
  lemma {:induction false} CanonicalNatRoundTrip(s: string)
    requires IsCanonicalNat(s)
    ensures ParseNat(s) >= 0 && NatToDecimal(ParseNat(s)) == s
    decreases |s|
  {
    if |s| == 1 {
      assert ParseNat(s) == s[0] as int - '0' as int;
      assert [s[0]] == s;
    } else {
      var prefix := s[..|s| - 1];
      assert prefix[0] == s[0];
      ParseNatPositive(prefix);
      CanonicalNatRoundTrip(prefix);
      var d := s[|s| - 1] as int - '0' as int;
      var n := ParseNat(s);
      assert n == ParseNat(prefix) * 10 + d && 0 <= d < 10;
      assert n / 10 == ParseNat(prefix) && n % 10 == d;
      assert s == prefix + [s[|s| - 1]];
    }
  }

  /** Every string of Java's decimal shape is the decimal form of the number it denotes. */
  lemma JavaDecimalRoundTrip(s: string)
    requires IsJavaDecimal(s)
    ensures IntToDecimal(ParseInt(s)) == s
  {
    if IsCanonicalNat(s) {
      CanonicalNatRoundTrip(s);
    } else {
      var digits := s[1..];
      ParseNatPositive(digits);
      CanonicalNatRoundTrip(digits);
      assert s == "-" + digits;
    }
  }

  /** Two strings of Java's decimal shape that denote the same number are the same
      string, so the shape and the value together pin the rendering. */
  lemma JavaDecimalUnique(s: string, t: string)
    requires IsJavaDecimal(s) && IsJavaDecimal(t) && ParseInt(s) == ParseInt(t)
    ensures s == t
  {
    JavaDecimalRoundTrip(s);
    JavaDecimalRoundTrip(t);
  }

  /** Two strings that share a prefix and continue with Java decimal forms of the same
      number are the same string. */
  lemma PrefixedDecimalUnique(prefix: string, s: string, t: string)
    requires |s| >= |prefix| && s[..|prefix|] == prefix && IsJavaDecimal(s[|prefix|..])
    requires |t| >= |prefix| && t[..|prefix|] == prefix && IsJavaDecimal(t[|prefix|..])
    requires ParseInt(s[|prefix|..]) == ParseInt(t[|prefix|..])
    ensures s == t
  {
    JavaDecimalUnique(s[|prefix|..], t[|prefix|..]);
    assert s == s[..|prefix|] + s[|prefix|..];
    assert t == t[..|prefix|] + t[|prefix|..];
  }
}
