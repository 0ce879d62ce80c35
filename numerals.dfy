/**
 * Decimal text and 32-bit integers: int.TryParse with NumberStyles.Integer (as
 * used to read the caller's id claim) and the rendering of a decimal(18,2)
 * amount into approval comments.
 */
module Numerals {
  import opened Wrappers

  const MinInt32: int := -0x8000_0000
  const MaxInt32: int := 0x7FFF_FFFF

  predicate IsDigit(c: char) {
    '0' <= c <= '9'
  }

  function DigitValue(c: char): (d: nat)
    requires IsDigit(c)
    ensures d < 10
  {
    c as int - '0' as int
  }

  function DigitChar(d: nat): (c: char)
    requires d < 10
    ensures IsDigit(c) && DigitValue(c) == d
  {
    ('0' as int + d) as char
  }

  predicate AllDigits(s: string) {
    forall i :: 0 <= i < |s| ==> IsDigit(s[i])
  }

  /** The value of a run of decimal digits, most significant first. */
  function DigitsValue(s: string): nat
    requires AllDigits(s)
    decreases |s|
  {
    if s == [] then 0 else DigitsValue(s[..|s| - 1]) * 10 + DigitValue(s[|s| - 1])
  }

  /** The shortest decimal rendering of `n` (Int32.ToString for a non-negative value). */
  function NatToDigits(n: nat): (s: string)
    ensures |s| > 0 && AllDigits(s)
    ensures |s| > 1 ==> s[0] != '0'
  {
    if n < 10 then [DigitChar(n)] else NatToDigits(n / 10) + [DigitChar(n % 10)]
  }

  /** Reading back a rendered number gives the number. */
  lemma {:induction false} DigitsRoundTrip(n: nat)
    ensures DigitsValue(NatToDigits(n)) == n
  {
    if n >= 10 {
      var s := NatToDigits(n);
      assert s[..|s| - 1] == NatToDigits(n / 10);
      DigitsRoundTrip(n / 10);
    }
  }

  function Pow10(k: nat): (p: nat)
    ensures p >= 1
  {
    if k == 0 then 1 else 10 * Pow10(k - 1)
  }

  /** A number below 10^k takes at most k digits. */
  lemma {:induction false} DigitsLength(n: nat, k: nat)
    requires 1 <= k && n < Pow10(k)
    ensures |NatToDigits(n)| <= k
  {
    if n >= 10 {
      var p := Pow10(k - 1);
      assert n / 10 < p;
      assert k - 1 != 0;
      DigitsLength(n / 10, k - 1);
    }
  }

  /** Int32.ToString() with the invariant negative sign. */
  function Int32ToString(n: int): string {
    if n < 0 then "-" + NatToDigits(-n) else NatToDigits(n)
  }

  /** The white space NumberStyles.AllowLeadingWhite/AllowTrailingWhite admit: U+0009..U+000D and U+0020. */
  predicate IsNumberWhite(c: char) {
    '\t' <= c <= '\r' || c == ' '
  }

  /**
   * Drops the leading white space NumberStyles.AllowLeadingWhite admits. This and
   * StripTrailing repeat TrimStart and TrimEnd over another white-space set, each
   * written for its own set rather than over a predicate parameter, which keeps the
   * proofs about them stable.
   */
  function StripLeading(s: string): (r: string)
    ensures |r| <= |s| && r == s[|s| - |r|..]
    ensures forall k :: 0 <= k < |s| - |r| ==> IsNumberWhite(s[k])
    ensures |r| > 0 ==> !IsNumberWhite(r[0])
    decreases |s|
  {
    if |s| > 0 && IsNumberWhite(s[0]) then
      var r := StripLeading(s[1..]);
      assert s[1..][|s| - 1 - |r|..] == s[|s| - |r|..];
      r
    else s
  }

  /** Drops the trailing white space NumberStyles.AllowTrailingWhite admits. */
  function StripTrailing(s: string): (r: string)
    ensures |r| <= |s| && r == s[..|r|]
    ensures forall k :: |r| <= k < |s| ==> IsNumberWhite(s[k])
    ensures |r| > 0 ==> !IsNumberWhite(r[|r| - 1])
    decreases |s|
  {
    if |s| > 0 && IsNumberWhite(s[|s| - 1]) then
      var r := StripTrailing(s[..|s| - 1]);
      assert s[..|s| - 1][..|r|] == s[..|r|];
      r
    else s
  }

  /** The text between the white space NumberStyles.Integer allows around a number. */
  function StripNumberWhite(s: string): string {
    StripTrailing(StripLeading(s))
  }

  /** A sign-and-digits numeral with no surrounding white space, within Int32's range. */
  function ParseSigned(t: string): (r: Option<int>)
    ensures r.Some? ==> MinInt32 <= r.value <= MaxInt32
  {
    if |t| == 0 then None
    else
      var digits := if t[0] == '-' || t[0] == '+' then t[1..] else t;
      if |digits| == 0 || !AllDigits(digits) then None
      else
        var magnitude: int := DigitsValue(digits);
        var v := if t[0] == '-' then -magnitude else magnitude;
        if MinInt32 <= v <= MaxInt32 then Some(v) else None
  }

  /**
   * int.TryParse(s, out n): optional white space, an optional '+' or '-', one or
   * more ASCII digits, optional white space, and a value within Int32's range.
   * None stands for TryParse returning false.
   */
  function ParseInt32(s: string): Option<int> {
    ParseSigned(StripNumberWhite(s))
  }

  /** Text that starts and ends outside the white-space set is not stripped. */
  lemma StripNothing(s: string)
    requires |s| > 0 && !IsNumberWhite(s[0]) && !IsNumberWhite(s[|s| - 1])
    ensures StripNumberWhite(s) == s
  {
    assert StripLeading(s) == s;
  }

  /** Every 32-bit value survives rendering and parsing. */
  lemma Int32RoundTrip(n: int)
    requires MinInt32 <= n <= MaxInt32
    ensures ParseInt32(Int32ToString(n)) == Some(n)
  {
    var s := Int32ToString(n);
    var m: nat := if n < 0 then -n else n;
    var d := NatToDigits(m);
    DigitsRoundTrip(m);
    assert s[|s| - 1] == d[|d| - 1];
    StripNothing(s);
    if n < 0 {
      assert s[1..] == d;
    }
  }

  /** A numeral the parser accepts consists of an optional sign and digits. */
  lemma SignedAcceptsOnlyNumerals(t: string)
    requires ParseSigned(t).Some?
    ensures forall i :: 0 <= i < |t| ==> IsDigit(t[i]) || (i == 0 && (t[0] == '-' || t[0] == '+'))
  {
    if t[0] == '-' || t[0] == '+' {
      forall i | 1 <= i < |t| ensures IsDigit(t[i]) {
        assert t[i] == t[1..][i - 1];
      }
    }
  }

  /** The stripped text sits in s between white space that NumberStyles.Integer admits. */
  lemma StripKeepsTheCore(s: string) returns (lead: nat)
    ensures lead + |StripNumberWhite(s)| <= |s|
    ensures forall i :: 0 <= i < lead ==> IsNumberWhite(s[i])
    ensures forall i :: lead <= i < lead + |StripNumberWhite(s)| ==> s[i] == StripNumberWhite(s)[i - lead]
    ensures forall i :: lead + |StripNumberWhite(s)| <= i < |s| ==> IsNumberWhite(s[i])
  {
    var front := StripLeading(s);
    var t := StripTrailing(front);
    lead := |s| - |front|;
    forall i | lead <= i < |s| ensures s[i] == front[i - lead] {
    }
    forall i | lead <= i < lead + |t| ensures s[i] == t[i - lead] {
      assert t[i - lead] == front[i - lead];
    }
  }

  /** TryParse succeeds only on text made of white space, a sign and digits. */
  lemma ParseAcceptsOnlyNumerals(s: string)
    requires ParseInt32(s).Some?
    ensures forall i :: 0 <= i < |s| ==> IsDigit(s[i]) || IsNumberWhite(s[i]) || s[i] == '-' || s[i] == '+'
  {
    var t := StripNumberWhite(s);
    var lead := StripKeepsTheCore(s);
    SignedAcceptsOnlyNumerals(t);
    forall i | lead <= i < lead + |t|
      ensures IsDigit(s[i]) || s[i] == '-' || s[i] == '+'
    {
      assert s[i] == t[i - lead];
    }
  }

  /**
   * A decimal(18,2) amount, given in cents, rendered with two fraction digits.
   * (The source prints the decimal with the scale the request carried.)
   */
  function FormatCents(cents: nat): string {
    NatToDigits(cents / 100) + "." + [DigitChar(cents % 100 / 10), DigitChar(cents % 10)]
  }

  /** An amount that fits decimal(18,2) renders in at most 19 characters. */
  lemma FormatCentsLength(cents: nat)
    requires cents < Pow10(18)
    ensures |FormatCents(cents)| <= 19
  {
    assert Pow10(18) == 100 * Pow10(16) by {
      var k := 16;
      assert Pow10(k + 2) == 100 * Pow10(k);
    }
    DigitsLength(cents / 100, 16);
  }

}
