/** Step 1 of the filename pipeline: `re.sub(r'^#\s*\d+:?\s*', '', name)`,
    applied only when the "remove ID" option is on. */
module IdStrip {
  import opened Chars

  /** Positions b..e of `s` are what may follow the digits of an ID token:
      whitespace only, or a colon and then whitespace only. */
  predicate TailIn(s: string, b: int, e: int)
    requires 0 <= b <= e <= |s|
  {
    SpacesIn(s, b, e) || (b < e && s[b] == ':' && SpacesIn(s, b + 1, e))
  }

  /** The first j characters of `s` form a string of the language
      `#\s*\d+:?\s*`: a `#`, whitespace up to a, one or more digits from a
      to b, and a tail from b to j. */
  ghost predicate IdTokenPrefix(s: string, j: int)
    requires 0 <= j <= |s|
  {
    && 0 < j && s[0] == '#'
    && exists a, b | 1 <= a < b <= j :: SpacesIn(s, 1, a) && DigitsIn(s, a, b) && TailIn(s, b, j)
  }

  /** Where the greedy `:?\s*` ends when started at position b. */
  function TailEnd(s: string, b: nat): (e: nat)
    requires b <= |s|
    ensures b <= e <= |s| && TailIn(s, b, e)
  {
    var c := if b < |s| && s[b] == ':' then b + 1 else b;
    SpacesEnd(s, c)
  }

  /** Length of the prefix the anchored, greedy regex deletes; 0 when it does
      not match. */
  function IdTokenLength(s: string): (k: nat)
    ensures k <= |s|
    ensures k > 0 ==> s[0] == '#'
  {
    if |s| == 0 || s[0] != '#' then 0
    else
      var a := SpacesEnd(s, 1);
      var b := DigitsEnd(s, a);
      if b == a then 0 else TailEnd(s, b)
  }

  /** The title with its leading ID token deleted. */
  function StripId(s: string): (r: string)
    ensures |r| <= |s| && r == s[|s| - |r|..]
    ensures (|s| == 0 || s[0] != '#') ==> r == s
  {
    s[IdTokenLength(s)..]
  }

  /** The title the "remove ID" option passes on to the pattern step. */
  function MaybeStripId(s: string, removeId: bool): (r: string)
    ensures !removeId ==> r == s
    ensures removeId ==> r == StripId(s)
  {
    if removeId then StripId(s) else s
  }

  /** What is deleted is an ID token, and it is the longest one the title
      starts with; in particular a title starting with an ID token of any
      length is stripped. */
  lemma StripIdDeletesLongestToken(s: string)
    ensures var k := IdTokenLength(s);
      && StripId(s) == s[k..]
      && (k > 0 ==> IdTokenPrefix(s, k))
      && (forall j | 0 <= j <= |s| && IdTokenPrefix(s, j) :: 0 < j <= k)
  {
    if IdTokenLength(s) > 0 {
      IdTokenLengthIsToken(s);
    }
    forall j | 0 <= j <= |s| && IdTokenPrefix(s, j)
      ensures j <= IdTokenLength(s)
    {
      TokenBoundedByLength(s, j);
    }
  }

  /** A title that does not start with an ID token is left unchanged. */
  lemma StripIdUnchangedWithoutToken(s: string)
    requires forall j | 0 <= j <= |s| :: !IdTokenPrefix(s, j)
    ensures StripId(s) == s
  {
    if IdTokenLength(s) > 0 {
      IdTokenLengthIsToken(s);
    }
  }

  lemma IdTokenLengthIsToken(s: string)
    requires IdTokenLength(s) > 0
    ensures IdTokenPrefix(s, IdTokenLength(s))
  {
    var a := SpacesEnd(s, 1);
    var b := DigitsEnd(s, a);
    assert DigitsIn(s, a, b) && TailIn(s, b, IdTokenLength(s));
  }

  /** Any ID-token prefix of `s` is no longer than IdTokenLength(s). */
  lemma TokenBoundedByLength(s: string, j: nat)
    requires j <= |s| && IdTokenPrefix(s, j)
    ensures j <= IdTokenLength(s)
  {
    var a', b' :| 1 <= a' < b' <= j && SpacesIn(s, 1, a') && DigitsIn(s, a', b') && TailIn(s, b', j);
    var a := SpacesEnd(s, 1);
    // the whitespace run before the digits is forced
    SpacesEndMaximal(s, 1, a');
    assert !IsSpace(s[a']);
    assert a' == a;
    // the digit run is at most as long as the greedy one
    DigitsEndMaximal(s, a, b');
    var b := DigitsEnd(s, a);
    assert IdTokenLength(s) == TailEnd(s, b);
    if b' < b {
      ShortDigitsEndToken(s, j, b');
    } else {
      FullDigitsTail(s, j, b);
    }
  }

  /** A token whose digits stop before a further digit ends there. */
  lemma ShortDigitsEndToken(s: string, j: nat, b': nat)
    requires b' <= j <= |s| && b' < |s| && IsDigit(s[b']) && TailIn(s, b', j)
    ensures j == b'
  {
  }

  /** A tail starting where the greedy digits end fits in TailEnd. */
  lemma FullDigitsTail(s: string, j: nat, b: nat)
    requires b <= j <= |s| && TailIn(s, b, j)
    ensures j <= TailEnd(s, b)
  {
    if b < |s| && s[b] == ':' {
      if j > b {
        assert !IsSpace(s[b]);
        SpacesEndMaximal(s, b + 1, j);
      }
    } else {
      SpacesEndMaximal(s, b, j);
    }
  }

  /** The ID token of a typical title, colon and following space included. */
  lemma StripIdExample()
    ensures StripId("#6849: Exhibit H-3") == "Exhibit H-3"
  {
    var s := "#6849: Exhibit H-3";
    assert SpacesEnd(s, 1) == 1;
    assert DigitsEnd(s, 1) == 5 by {
      assert DigitsEnd(s, 5) == 5;
      assert DigitsEnd(s, 4) == 5;
      assert DigitsEnd(s, 3) == 5;
      assert DigitsEnd(s, 2) == 5;
    }
    assert TailEnd(s, 5) == 7 by {
      assert s[5] == ':';
      assert SpacesEnd(s, 7) == 7;
      assert SpacesEnd(s, 6) == 7;
    }
    assert s[7..] == "Exhibit H-3";
  }
}
