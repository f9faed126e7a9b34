/**
 * Decimal rendering of non-negative integers, as a template literal
 * `${n}` produces it, and the overflow markers built from it
 * ("…(+3 items)", "…(truncated 74 chars)", "[Array(5)]").
 *
 * `ToNat` and `ParseMarker` are reference decoders: they exist so that the
 * markers can be shown to carry their count faithfully.
 */
module Decimal {
  import opened Wrappers

  predicate IsDigit(c: char) {
    '0' <= c <= '9'
  }

  predicate IsDigits(s: string) {
    forall i :: 0 <= i < |s| ==> IsDigit(s[i])
  }

  function DigitChar(d: nat): (c: char)
    requires d < 10
    ensures IsDigit(c)
  {
    ('0' as int + d) as char
  }

  function DigitValue(c: char): nat
    requires IsDigit(c)
  {
    c as int - '0' as int
  }

  /** The shortest decimal spelling of `n` (no leading zeros). */
  function FromNat(n: nat): (s: string)
    ensures |s| >= 1 && IsDigits(s)
    ensures |s| > 1 ==> s[0] != '0'
  {
    if n < 10 then [DigitChar(n)] else FromNat(n / 10) + [DigitChar(n % 10)]
  }

  /** The value of a digit string, most significant digit first. */
  function ToNat(s: string): nat
    requires IsDigits(s)
  {
    if |s| == 0 then 0 else ToNat(s[..|s| - 1]) * 10 + DigitValue(s[|s| - 1])
  }

  /** Reading back a rendered number gives the number. */
  lemma {:induction false} ToNatFromNat(n: nat)
    ensures ToNat(FromNat(n)) == n
  {
    if n >= 10 {
      var s := FromNat(n);
      assert s[..|s| - 1] == FromNat(n / 10);
      ToNatFromNat(n / 10);
    }
  }

  /** A spelling `${n}` can produce: digits only, at least one, no leading zero. */
  predicate IsCanonical(s: string) {
    |s| >= 1 && IsDigits(s) && (|s| == 1 || s[0] != '0')
  }

  /** A digit string with a non-zero leading digit denotes a positive number. */
  lemma {:induction false} LeadingDigitPositive(s: string)
    requires |s| >= 1 && IsDigits(s) && s[0] != '0'
    ensures ToNat(s) >= 1
    decreases |s|
  {
    if |s| > 1 {
      LeadingDigitPositive(s[..|s| - 1]);
    }
  }

  /** Every canonical spelling is the rendering of the number it denotes. */
  lemma {:induction false} FromNatToNat(s: string)
    requires IsCanonical(s)
    ensures FromNat(ToNat(s)) == s
    decreases |s|
  {
    var d := DigitValue(s[|s| - 1]);
    if |s| == 1 {
      assert ToNat(s) == d;
      assert [DigitChar(d)] == s;
    } else {
      var p := s[..|s| - 1];
      assert p[0] == s[0];
      LeadingDigitPositive(p);
      FromNatToNat(p);
      var n := ToNat(s);
      assert n == ToNat(p) * 10 + d;
      assert n / 10 == ToNat(p) && n % 10 == d;
      assert DigitChar(d) == s[|s| - 1];
      assert p + [s[|s| - 1]] == s;
    }
  }

  /** Rendering is injective: distinct counts never share a spelling. */
  lemma FromNatInjective(m: nat, n: nat)
    ensures FromNat(m) == FromNat(n) ==> m == n
  {
    ToNatFromNat(m);
    ToNatFromNat(n);
  }

  /** `prefix`, the decimal count, `suffix`: the shape of every overflow marker. */
  function Marker(prefix: string, n: nat, suffix: string): string {
    prefix + FromNat(n) + suffix
  }

  /** Recovers the count from a marker with the given fixed parts, if `s` is one. */
  function ParseMarker(prefix: string, suffix: string, s: string): Option<nat> {
    if |s| < |prefix| + |suffix| then None
    else if s[..|prefix|] != prefix || s[|s| - |suffix|..] != suffix then None
    else
      var mid := s[|prefix|..|s| - |suffix|];
      if IsCanonical(mid) then Some(ToNat(mid)) else None
  }

  /** A marker states exactly the count it was built from. */
  lemma MarkerRoundTrip(prefix: string, n: nat, suffix: string)
    ensures ParseMarker(prefix, suffix, Marker(prefix, n, suffix)) == Some(n)
  {
    var d := FromNat(n);
    var s := Marker(prefix, n, suffix);
    assert s[..|prefix|] == prefix;
    assert s[|s| - |suffix|..] == suffix;
    assert s[|prefix|..|s| - |suffix|] == d;
    ToNatFromNat(n);
  }

  /** A string ParseMarker accepts is exactly the marker of the count it reads: the spelling is canonical. */
  lemma ParseMarkerExact(prefix: string, suffix: string, s: string, n: nat)
    requires ParseMarker(prefix, suffix, s) == Some(n)
    ensures s == Marker(prefix, n, suffix)
  {
    var mid := s[|prefix|..|s| - |suffix|];
    FromNatToNat(mid);
    assert s == s[..|prefix|] + mid + s[|s| - |suffix|..];
  }
}
