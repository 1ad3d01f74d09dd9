/** Steps 3 and 4 of the filename pipeline:
    `clean = re.sub(r'\s+', '_', name.strip())` and then
    `clean = re.sub(r'[\\/:*?"<>|]', '', clean)`. */
module Slugify {
  import opened Chars

  /** `str.strip()`: whitespace removed from both ends. */
  function Strip(s: string): (r: string)
    ensures r == [] || (!IsSpace(r[0]) && !IsSpace(r[|r| - 1]))
    ensures exists i, j | 0 <= i <= j <= |s| ::
      r == s[i..j] && SpacesIn(s, 0, i) && SpacesIn(s, j, |s|)
  {
    var i := SpacesEnd(s, 0);
    var j := if i == |s| then i else SpacesStart(s, |s|);
    assert i < |s| ==> !IsSpace(s[i]);
    s[i..j]
  }

  /** `re.sub(r'\s+', '_', s)`: every maximal whitespace run becomes one `_`. */
  function CollapseSpaces(s: string): (r: string)
    ensures NoSpace(r)
    decreases |s|
  {
    if s == [] then []
    else if IsSpace(s[0]) then "_" + CollapseSpaces(s[SpacesEnd(s, 0)..])
    else [s[0]] + CollapseSpaces(s[1..])
  }

  /** A maximal whitespace run, however long, becomes exactly one `_`: the
      `+` of `\s+`. */
  lemma CollapseRun(w: string, y: string)
    requires |w| > 0 && SpacesIn(w, 0, |w|)
    requires y == [] || !IsSpace(y[0])
    ensures CollapseSpaces(w + y) == "_" + CollapseSpaces(y)
  {
    var s := w + y;
    assert SpacesIn(s, 0, |w|) by {
      forall k | 0 <= k < |w| ensures IsSpace(s[k]) {
        assert s[k] == w[k];
      }
    }
    SpacesEndMaximal(s, 0, |w|);
    if |w| < |s| {
      assert s[|w|] == y[0];
    }
    var e := SpacesEnd(s, 0);
    assert e == |w|;
    assert s[e..] == y;
  }

  /** Cutting a name after a non-space character cuts its collapsed form
      there too: runs never reach across the cut. */
  lemma {:induction false} CollapseAppend(x: string, z: string)
    requires x == [] || !IsSpace(x[|x| - 1])
    ensures CollapseSpaces(x + z) == CollapseSpaces(x) + CollapseSpaces(z)
    decreases |x|
  {
    if x == [] {
      assert x + z == z;
    } else if !IsSpace(x[0]) {
      CollapseAppend(x[1..], z);
      CollapseAppendText(x, z);
    } else {
      var n := SpacesEnd(x, 0);
      CollapseAppend(x[n..], z);
      CollapseAppendSpace(x, z);
    }
  }

  /** The step of CollapseAppend for a name starting with a non-space. */
  lemma CollapseAppendText(x: string, z: string)
    requires x != [] && !IsSpace(x[0])
    requires CollapseSpaces(x[1..] + z) == CollapseSpaces(x[1..]) + CollapseSpaces(z)
    ensures CollapseSpaces(x + z) == CollapseSpaces(x) + CollapseSpaces(z)
  {
    var s := x + z;
    assert s[0] == x[0];
    SliceAppend(x, z, 1);
    CollapseHeadText(s);
    CollapseHeadText(x);
    ConcatAssoc([x[0]], CollapseSpaces(x[1..]), CollapseSpaces(z));
  }

  /** The step of CollapseAppend for a name starting with whitespace. */
  lemma CollapseAppendSpace(x: string, z: string)
    requires x != [] && IsSpace(x[0]) && SpacesEnd(x, 0) < |x|
    requires CollapseSpaces(x[SpacesEnd(x, 0)..] + z)
      == CollapseSpaces(x[SpacesEnd(x, 0)..]) + CollapseSpaces(z)
    ensures CollapseSpaces(x + z) == CollapseSpaces(x) + CollapseSpaces(z)
  {
    var s := x + z;
    var n := SpacesEnd(x, 0);
    SpacesEndAppend(x, z);
    SliceAppend(x, z, n);
    assert s[0] == x[0];
    CollapseHeadSpace(s);
    CollapseHeadSpace(x);
    ConcatAssoc("_", CollapseSpaces(x[n..]), CollapseSpaces(z));
  }

  /** One unfolding of CollapseSpaces at a non-space first character. */
  lemma CollapseHeadText(s: string)
    requires s != [] && !IsSpace(s[0])
    ensures CollapseSpaces(s) == [s[0]] + CollapseSpaces(s[1..])
  {
  }

  /** One unfolding of CollapseSpaces at a whitespace first character. */
  lemma CollapseHeadSpace(s: string)
    requires s != [] && IsSpace(s[0])
    ensures CollapseSpaces(s) == "_" + CollapseSpaces(s[SpacesEnd(s, 0)..])
  {
  }

  lemma SliceAppend(x: string, z: string, n: int)
    requires 0 <= n <= |x|
    ensures (x + z)[n..] == x[n..] + z
  {
  }

  lemma ConcatAssoc(a: string, b: string, c: string)
    ensures a + (b + c) == (a + b) + c
  {
  }

  /** The leading whitespace run of `x` is unchanged by appending, when `x`
      does not consist of whitespace only. */
  lemma SpacesEndAppend(x: string, z: string)
    requires SpacesEnd(x, 0) < |x|
    ensures SpacesEnd(x + z, 0) == SpacesEnd(x, 0)
  {
    var s := x + z;
    var n := SpacesEnd(x, 0);
    assert SpacesIn(s, 0, n) by {
      forall k | 0 <= k < n ensures IsSpace(s[k]) {
        assert s[k] == x[k];
      }
    }
    SpacesEndMaximal(s, 0, n);
    assert s[n] == x[n];
  }

  /** Two spaces between words give one `_`, not two. */
  lemma CollapseRunExample()
    ensures CollapseSpaces("a  b") == "a_b"
  {
    CollapseNoSpace("b");
    CollapseRun("  ", "b");
    assert "  " + "b" == "  b";
    CollapseAppend("a", "  b");
    CollapseNoSpace("a");
    assert "a" + "  b" == "a  b";
  }

  /** `re.sub(r'[\\/:*?"<>|]', '', s)`: every reserved character deleted. */
  function DropReserved(s: string): (r: string)
    ensures NoReserved(r)
    ensures NoSpace(s) ==> NoSpace(r)
    ensures NoReserved(s) ==> r == s
  {
    if s == [] then []
    else if IsReserved(s[0]) then DropReserved(s[1..])
    else [s[0]] + DropReserved(s[1..])
  }

  /** Dropping reserved characters works character by character: a kept
      character, `_` included, stays where it was. */
  lemma {:induction false} DropReservedAppend(x: string, y: string)
    ensures DropReserved(x + y) == DropReserved(x) + DropReserved(y)
    decreases |x|
  {
    if x == [] {
      assert x + y == y;
    } else {
      var c, xs := x[0], x[1..];
      assert x + y == [c] + (xs + y);
      DropReservedAppend(xs, y);
      DropReservedCons(c, xs);
      DropReservedCons(c, xs + y);
      if !IsReserved(c) {
        ConcatAssoc([c], DropReserved(xs), DropReserved(y));
      }
    }
  }

  lemma DropReservedCons(c: char, s: string)
    ensures DropReserved([c] + s) == if IsReserved(c) then DropReserved(s) else [c] + DropReserved(s)
  {
    assert ([c] + s)[0] == c;
    assert ([c] + s)[1..] == s;
  }

  /** A single character is dropped exactly when it is reserved. */
  lemma DropReservedChar(c: char)
    ensures DropReserved([c]) == if IsReserved(c) then [] else [c]
  {
    assert [c][1..] == [];
  }

  /** The cleaned stem: stripped, whitespace runs joined by `_`, reserved
      characters dropped. It holds no whitespace and no reserved character. */
  function Slug(s: string): (r: string)
    ensures NoSpace(r) && NoReserved(r)
  {
    DropReserved(CollapseSpaces(Strip(s)))
  }

  lemma StripNoSpace(s: string)
    requires NoSpace(s)
    ensures Strip(s) == s
  {
    if s != [] {
      assert SpacesEnd(s, 0) == 0;
      assert SpacesStart(s, |s|) == |s|;
    }
  }

  lemma {:induction false} CollapseNoSpace(s: string)
    requires NoSpace(s)
    ensures CollapseSpaces(s) == s
    decreases |s|
  {
    if s != [] {
      CollapseNoSpace(s[1..]);
      assert [s[0]] + s[1..] == s;
    }
  }

  /** Cleaning an already clean stem changes nothing. */
  lemma SlugIdempotent(s: string)
    ensures Slug(Slug(s)) == Slug(s)
  {
    var r := Slug(s);
    StripNoSpace(r);
    CollapseNoSpace(r);
  }

  /** A stem without whitespace and reserved characters is its own slug;
      together with Slug's ensures, the slugs are exactly those strings. */
  lemma SlugFixpoints(s: string)
    ensures Slug(s) == s <==> NoSpace(s) && NoReserved(s)
  {
    if NoSpace(s) && NoReserved(s) {
      StripNoSpace(s);
      CollapseNoSpace(s);
    }
  }

  /** The characters that survive cleaning unchanged: neither whitespace,
      nor reserved, nor `_`. */
  predicate IsText(c: char) {
    !IsSpace(c) && !IsReserved(c) && c != '_'
  }

  /** The text characters of `s`, in order. */
  function Text(s: string): (r: string)
    ensures |r| <= |s|
  {
    if s == [] then [] else (if IsText(s[0]) then [s[0]] else []) + Text(s[1..])
  }

  lemma {:induction false} TextAppend(a: string, b: string)
    ensures Text(a + b) == Text(a) + Text(b)
    decreases |a|
  {
    if a == [] {
      assert a + b == b;
    } else {
      var ab := a + b;
      assert ab[0] == a[0];
      assert ab[1..] == a[1..] + b;
      TextAppend(a[1..], b);
      assert Text(ab) == (if IsText(a[0]) then [a[0]] else []) + Text(ab[1..]);
      assert Text(a) == (if IsText(a[0]) then [a[0]] else []) + Text(a[1..]);
    }
  }

  lemma {:induction false} TextOfSpaces(s: string)
    requires SpacesIn(s, 0, |s|)
    ensures Text(s) == []
    decreases |s|
  {
    if s != [] {
      assert SpacesIn(s[1..], 0, |s| - 1) by {
        forall k | 0 <= k < |s| - 1 ensures IsSpace(s[1..][k]) {
          assert s[1..][k] == s[k + 1];
        }
      }
      TextOfSpaces(s[1..]);
    }
  }

  lemma StripKeepsText(s: string)
    ensures Text(Strip(s)) == Text(s)
  {
    var i, j :| 0 <= i <= j <= |s| && Strip(s) == s[i..j] && SpacesIn(s, 0, i) && SpacesIn(s, j, |s|);
    var p, m, q := s[..i], s[i..j], s[j..];
    assert s == (p + m) + q;
    TextAppend(p + m, q);
    TextAppend(p, m);
    SpacesSlice(s, 0, i);
    SpacesSlice(s, j, |s|);
    TextOfSpaces(p);
    TextOfSpaces(q);
    assert Text(s) == ([] + Text(m)) + [];
    assert ([] + Text(m)) + [] == Text(m);
  }

  lemma {:induction false} CollapseKeepsText(s: string)
    ensures Text(CollapseSpaces(s)) == Text(s)
    decreases |s|
  {
    if s != [] {
      if IsSpace(s[0]) {
        var n := SpacesEnd(s, 0);
        CollapseKeepsText(s[n..]);
        TextAppend("_", CollapseSpaces(s[n..]));
        assert s == s[..n] + s[n..];
        TextAppend(s[..n], s[n..]);
        SpacesSlice(s, 0, n);
        TextOfSpaces(s[..n]);
      } else {
        CollapseKeepsText(s[1..]);
        TextAppend([s[0]], CollapseSpaces(s[1..]));
      }
    }
  }

  lemma {:induction false} DropKeepsText(s: string)
    ensures Text(DropReserved(s)) == Text(s)
    decreases |s|
  {
    if s != [] {
      DropKeepsText(s[1..]);
      if !IsReserved(s[0]) {
        TextAppend([s[0]], DropReserved(s[1..]));
      }
    }
  }

  /** Cleaning loses no text character and reorders none: only whitespace,
      reserved characters and underscores are touched. */
  lemma SlugKeepsText(s: string)
    ensures Text(Slug(s)) == Text(s)
  {
    StripKeepsText(s);
    CollapseKeepsText(Strip(s));
    DropKeepsText(CollapseSpaces(Strip(s)));
  }

  /** Reserved characters are dropped after whitespace runs became `_`, so a
      slash between two spaces leaves two underscores side by side. */
  lemma SlugKeepsAdjacentUnderscores()
    ensures Slug("a / b") == "a__b"
  {
    StripNoSpaceEnds("a / b");
    CollapseExample();
    DropExample();
  }

  lemma CollapseExample()
    ensures CollapseSpaces("a / b") == "a_/_b"
  {
    CollapseNoSpace("b");
    CollapseSpaceStep(' ', "b");
    CollapseTextStep('/', " b");
    CollapseSpaceStep(' ', "/ b");
    CollapseTextStep('a', " / b");
  }

  /** A character other than whitespace is copied. */
  lemma CollapseTextStep(c: char, t: string)
    requires !IsSpace(c)
    ensures CollapseSpaces([c] + t) == [c] + CollapseSpaces(t)
  {
    assert ([c] + t)[1..] == t;
  }

  /** A single whitespace character before a non-space becomes one `_`. */
  lemma CollapseSpaceStep(c: char, t: string)
    requires IsSpace(c) && (t == [] || !IsSpace(t[0]))
    ensures CollapseSpaces([c] + t) == "_" + CollapseSpaces(t)
  {
    var s := [c] + t;
    assert SpacesEnd(s, 1) == 1;
    assert s[1..] == t;
  }

  lemma DropExample()
    ensures DropReserved("a_/_b") == "a__b"
  {
    assert DropReserved("_b") == "_b";
    assert DropReserved("/_b") == "_b" by { assert "/_b"[1..] == "_b"; }
    assert DropReserved("_/_b") == "__b" by { assert "_/_b"[1..] == "/_b"; }
    assert "a_/_b"[1..] == "_/_b";
  }

  lemma StripNoSpaceEnds(s: string)
    requires s != [] && !IsSpace(s[0]) && !IsSpace(s[|s| - 1])
    ensures Strip(s) == s
  {
    assert SpacesEnd(s, 0) == 0;
    assert SpacesStart(s, |s|) == |s|;
  }

  /** Whitespace positions lo..hi of `s` make a whitespace-only slice. */
  lemma SpacesSlice(s: string, lo: int, hi: int)
    requires 0 <= lo <= hi <= |s| && SpacesIn(s, lo, hi)
    ensures SpacesIn(s[lo..hi], 0, hi - lo)
  {
    forall k | 0 <= k < hi - lo ensures IsSpace(s[lo..hi][k]) {
      assert s[lo..hi][k] == s[lo + k];
    }
  }
}
