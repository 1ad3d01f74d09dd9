/** Character classes used by the filename pipeline, and the runs of them
    that the regexes `\s*` and `\d+` consume. */
module Chars {

  /** The whitespace set of Python's `str.isspace()`, which is also what the
      regex class `\s` and `str.strip()` use on text strings. */
  predicate IsSpace(c: char) {
    || c == ' '
    || ('\t' <= c <= '\r')
    || ('\U{1c}' <= c <= '\U{1f}')
    || c == '\U{85}' || c == '\U{a0}' || c == '\U{1680}'
    || ('\U{2000}' <= c <= '\U{200a}')
    || c == '\U{2028}' || c == '\U{2029}' || c == '\U{202f}'
    || c == '\U{205f}' || c == '\U{3000}'
  }

  /** A decimal digit, as matched by `\d` (ASCII digits only). */
  predicate IsDigit(c: char) {
    '0' <= c <= '9'
  }

  /** The characters Windows refuses in file names: \ / : * ? " < > | */
  predicate IsReserved(c: char) {
    c == '\\' || c == '/' || c == ':' || c == '*' || c == '?'
    || c == '"' || c == '<' || c == '>' || c == '|'
  }

  /** ASCII lower-casing, the case folding used for case-insensitive matching. */
  function Lower(c: char): (r: char)
    ensures 'A' <= c <= 'Z' ==> 'a' <= r <= 'z'
    ensures !('A' <= c <= 'Z') ==> r == c
  {
    if 'A' <= c <= 'Z' then (c as int + 32) as char else c
  }

  /** Positions lo..hi of `s` are all whitespace. */
  predicate SpacesIn(s: string, lo: int, hi: int)
    requires 0 <= lo <= hi <= |s|
  {
    forall k | lo <= k < hi :: IsSpace(s[k])
  }

  /** Positions lo..hi of `s` are all digits. */
  predicate DigitsIn(s: string, lo: int, hi: int)
    requires 0 <= lo <= hi <= |s|
  {
    forall k | lo <= k < hi :: IsDigit(s[k])
  }

  predicate NoSpace(s: string) {
    forall i | 0 <= i < |s| :: !IsSpace(s[i])
  }

  predicate NoReserved(s: string) {
    forall i | 0 <= i < |s| :: !IsReserved(s[i])
  }

  /** Where the longest whitespace run starting at position i ends. */
  function SpacesEnd(s: string, i: nat): (e: nat)
    requires i <= |s|
    ensures i <= e <= |s|
    ensures SpacesIn(s, i, e)
    ensures e < |s| ==> !IsSpace(s[e])
    decreases |s| - i
  {
    if i < |s| && IsSpace(s[i]) then SpacesEnd(s, i + 1) else i
  }

  /** Where the longest whitespace run ending at position j starts. */
  function SpacesStart(s: string, j: nat): (b: nat)
    requires j <= |s|
    ensures b <= j
    ensures SpacesIn(s, b, j)
    ensures b > 0 ==> !IsSpace(s[b - 1])
  {
    if j > 0 && IsSpace(s[j - 1]) then SpacesStart(s, j - 1) else j
  }

  /** Where the longest digit run starting at position i ends. */
  function DigitsEnd(s: string, i: nat): (e: nat)
    requires i <= |s|
    ensures i <= e <= |s|
    ensures DigitsIn(s, i, e)
    ensures e < |s| ==> !IsDigit(s[e])
    decreases |s| - i
  {
    if i < |s| && IsDigit(s[i]) then DigitsEnd(s, i + 1) else i
  }

  /** No whitespace run from i reaches further than SpacesEnd says. */
  lemma {:induction false} SpacesEndMaximal(s: string, i: nat, e: nat)
    requires i <= e <= |s| && SpacesIn(s, i, e)
    ensures e <= SpacesEnd(s, i)
    decreases e - i
  {
    if i < e {
      SpacesEndMaximal(s, i + 1, e);
    }
  }

  /** No digit run from i reaches further than DigitsEnd says. */
  lemma {:induction false} DigitsEndMaximal(s: string, i: nat, e: nat)
    requires i <= e <= |s| && DigitsIn(s, i, e)
    ensures e <= DigitsEnd(s, i)
    decreases e - i
  {
    if i < e {
      DigitsEndMaximal(s, i + 1, e);
    }
  }
}
