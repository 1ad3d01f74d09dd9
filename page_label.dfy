/** The "Pages" column: `f"{start}–{end}"`, two Python integers joined by
    an en dash. */
module PageLabel {
  import opened Chars
  import opened Wrappers

  const Dash: char := '\U{2013}'

  function DigitChar(d: nat): (c: char)
    requires d < 10
    ensures IsDigit(c)
  {
    ('0' as int + d) as char
  }

  /** `str(n)` for n >= 0. */
  function NatToString(n: nat): (r: string)
    ensures |r| > 0 && forall k | 0 <= k < |r| :: IsDigit(r[k])
  {
    if n < 10 then [DigitChar(n)] else NatToString(n / 10) + [DigitChar(n % 10)]
  }

  /** `str(i)`: a minus sign before the digits of a negative number. */
  function IntToString(i: int): (r: string)
    ensures |r| > 0
    ensures forall k | 0 <= k < |r| :: r[k] != Dash
  {
    if i < 0 then "-" + NatToString(-i) else NatToString(i)
  }

  /** The label shown for the pages start..end. */
  function PagesLabel(start: int, end: int): string {
    IntToString(start) + [Dash] + IntToString(end)
  }

  /** The value of a string of decimal digits. */
  function DigitsValue(s: string): int {
    if s == [] then 0 else DigitsValue(s[..|s| - 1]) * 10 + (s[|s| - 1] as int - '0' as int)
  }

  /** The value of an optionally signed decimal string. */
  function IntValue(s: string): int {
    if |s| > 0 && s[0] == '-' then -DigitsValue(s[1..]) else DigitsValue(s)
  }

  /** Position of the first dash, or |s| if there is none. */
  function DashIndex(s: string): (k: nat)
    ensures k <= |s|
    ensures forall i | 0 <= i < k :: s[i] != Dash
    ensures k < |s| ==> s[k] == Dash
  {
    if s == [] || s[0] == Dash then 0 else 1 + DashIndex(s[1..])
  }

  /** Reads a start and an end back from a label. */
  function ParsePages(text: string): Option<(int, int)> {
    var k := DashIndex(text);
    if k == |text| then None else Some((IntValue(text[..k]), IntValue(text[k + 1..])))
  }

  lemma {:induction false} NatToStringRoundTrip(n: nat)
    ensures DigitsValue(NatToString(n)) == n
  {
    if n >= 10 {
      var s := NatToString(n);
      assert s[..|s| - 1] == NatToString(n / 10);
      NatToStringRoundTrip(n / 10);
    }
  }

  lemma IntToStringRoundTrip(i: int)
    ensures IntValue(IntToString(i)) == i
  {
    if i < 0 {
      assert ("-" + NatToString(-i))[1..] == NatToString(-i);
      NatToStringRoundTrip(-i);
    } else {
      NatToStringRoundTrip(i);
    }
  }

  /** The label shows exactly the split's start and end: both can be read
      back from it. */
  lemma PagesRoundTrip(start: int, end: int)
    ensures ParsePages(PagesLabel(start, end)) == Some((start, end))
  {
    var x, y := IntToString(start), IntToString(end);
    var shown := PagesLabel(start, end);
    assert shown[|x|] == Dash;
    assert DashIndex(shown) == |x|;
    assert shown[..|x|] == x;
    assert shown[|x| + 1..] == y;
    IntToStringRoundTrip(start);
    IntToStringRoundTrip(end);
  }
}
