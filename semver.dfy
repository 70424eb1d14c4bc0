/**
  Semantic versions as the extension registry uses them (node-semver's
  `valid`, `eq` and `rcompare` in strict mode): an optional leading "v"
  followed by MAJOR.MINOR.PATCH, each a decimal numeral without leading zeros,
  ordered by precedence as in section 11 of Semantic Versioning 2.0.0.
*/
module Semver {
  import opened Basics
  import Text

  datatype Version = Version(major: nat, minor: nat, patch: nat)

  /** Longer version strings are rejected outright. */
  const MaxLength: nat := 256

  /** Components above JavaScript's largest safe integer are rejected. */
  const MaxSafeInteger: nat := 9007199254740991

  predicate SafeComponents(v: Version) {
    v.major <= MaxSafeInteger && v.minor <= MaxSafeInteger && v.patch <= MaxSafeInteger
  }

  /** The version string without its optional leading "v". */
  function Body(s: string): string {
    if |s| > 0 && s[0] == 'v' then s[1..] else s
  }

  /** `semver.valid`: the version a string denotes, or None when it is not a valid version. */
  function Parse(s: string): (r: Option<Version>)
    ensures r.Some? ==> SafeComponents(r.value)
  {
    if |s| > MaxLength then None
    else
      var parts := Text.Split(Body(s), '.');
      if |parts| == 3 && Text.IsNumeral(parts[0]) && Text.IsNumeral(parts[1]) && Text.IsNumeral(parts[2]) then
        var v := Version(Text.DecimalValue(parts[0]), Text.DecimalValue(parts[1]), Text.DecimalValue(parts[2]));
        if SafeComponents(v) then Some(v) else None
      else None
  }

  predicate IsValid(s: string) {
    Parse(s).Some?
  }

  /** The canonical string of a version, "MAJOR.MINOR.PATCH". */
  function Format(v: Version): string {
    Text.Join([Text.NatToDecimal(v.major), Text.NatToDecimal(v.minor), Text.NatToDecimal(v.patch)], ".")
  }

  /** Precedence: major, then minor, then patch, compared numerically. */
  predicate Le(a: Version, b: Version) {
    a.major < b.major
    || (a.major == b.major && a.minor < b.minor)
    || (a.major == b.major && a.minor == b.minor && a.patch <= b.patch)
  }

  /** `semver.compare`: -1, 0 or 1. */
  function Compare(a: Version, b: Version): (c: int)
    ensures c == 0 <==> a == b
    ensures c <= 0 <==> Le(a, b)
    ensures c >= 0 <==> Le(b, a)
  {
    if a == b then 0 else if Le(a, b) then -1 else 1
  }

  /** Precedence is a total order on versions. */
  lemma LeTotalOrder(a: Version, b: Version, c: Version)
    ensures Le(a, a)
    ensures Le(a, b) || Le(b, a)
    ensures Le(a, b) && Le(b, a) ==> a == b
    ensures Le(a, b) && Le(b, c) ==> Le(a, c)
  {
  }

  function Pow10(k: nat): nat {
    if k == 0 then 1 else 10 * Pow10(k - 1)
  }

  lemma {:induction false} NatToDecimalLength(n: nat, k: nat)
    requires 0 < k && n < Pow10(k)
    ensures |Text.NatToDecimal(n)| <= k
  {
    if n >= 10 {
      assert k > 1;
      assert n / 10 < Pow10(k - 1);
      NatToDecimalLength(n / 10, k - 1);
    }
  }

  lemma SafeComponentFits(n: nat)
    requires n <= MaxSafeInteger
    ensures |Text.NatToDecimal(n)| <= 16
  {
    assert Pow10(4) == 10000;
    assert Pow10(8) == 10000 * Pow10(4) by {
      assert Pow10(8) == 10 * 10 * 10 * 10 * Pow10(4);
    }
    assert Pow10(12) == 10000 * Pow10(8) by {
      assert Pow10(12) == 10 * 10 * 10 * 10 * Pow10(8);
    }
    assert Pow10(16) == 10000 * Pow10(12) by {
      assert Pow10(16) == 10 * 10 * 10 * 10 * Pow10(12);
    }
    NatToDecimalLength(n, 16);
  }

  lemma NumeralHasNoDot(s: string)
    requires Text.IsNumeral(s)
    ensures '.' !in s
  {
    forall i | 0 <= i < |s| ensures s[i] != '.' {
      assert Text.IsDigit(s[i]);
    }
  }

  /** Every version with safe components is valid, and its canonical string parses back to it. */
  lemma ParseFormat(v: Version)
    requires SafeComponents(v)
    ensures Parse(Format(v)) == Some(v)
  {
    var parts := [Text.NatToDecimal(v.major), Text.NatToDecimal(v.minor), Text.NatToDecimal(v.patch)];
    var s := Format(v);
    SafeComponentFits(v.major);
    SafeComponentFits(v.minor);
    SafeComponentFits(v.patch);
    assert parts[1..] == [parts[1], parts[2]] && parts[1..][1..] == [parts[2]];
    assert Text.Join(parts[1..], ".") == parts[1] + "." + parts[2];
    assert s == parts[0] + "." + Text.Join(parts[1..], ".");
    assert s[0] == parts[0][0];
    assert Body(s) == s;
    forall p | p in parts ensures '.' !in p {
      NumeralHasNoDot(p);
    }
    Text.SplitJoin(parts, '.');
    Text.DecimalOfNat(v.major);
    Text.DecimalOfNat(v.minor);
    Text.DecimalOfNat(v.patch);
  }

  /** A valid version string is the canonical string of its version, possibly preceded by "v". */
  lemma FormatParse(s: string)
    requires IsValid(s)
    ensures s == Format(Parse(s).value) || s == "v" + Format(Parse(s).value)
  {
    var parts := Text.Split(Body(s), '.');
    Text.JoinSplit(Body(s), '.');
    Text.NatOfDecimal(parts[0]);
    Text.NatOfDecimal(parts[1]);
    Text.NatOfDecimal(parts[2]);
    assert parts == [parts[0], parts[1], parts[2]];
    assert Format(Parse(s).value) == Body(s);
    if |s| > 0 && s[0] == 'v' {
      assert s == "v" + s[1..];
    }
  }

  /** The canonical string is at most three 16-digit numerals and two dots long, and starts with a digit. */
  lemma FormatShape(v: Version)
    requires SafeComponents(v)
    ensures |Format(v)| <= 50
    ensures Text.IsDigit(Format(v)[0])
  {
    var parts := [Text.NatToDecimal(v.major), Text.NatToDecimal(v.minor), Text.NatToDecimal(v.patch)];
    SafeComponentFits(v.major);
    SafeComponentFits(v.minor);
    SafeComponentFits(v.patch);
    assert parts[1..] == [parts[1], parts[2]] && parts[1..][1..] == [parts[2]];
    assert Text.Join(parts[1..], ".") == parts[1] + "." + parts[2];
    assert Format(v) == parts[0] + "." + Text.Join(parts[1..], ".");
    assert Format(v)[0] == parts[0][0];
  }

  /** A leading "v" does not change the version denoted. */
  lemma LeadingV(v: Version)
    requires SafeComponents(v)
    ensures Parse("v" + Format(v)) == Some(v)
  {
    ParseFormat(v);
    FormatShape(v);
    var s := "v" + Format(v);
    assert Body(s) == Format(v);
    assert Body(Format(v)) == Format(v);
    assert |s| <= MaxLength;
  }
}
