/** Step 2 of the filename pipeline: each user removal pattern, in list
    order, is substituted by the empty string, ignoring case. A pattern is
    modelled as a literal text (a regex with every character escaped). */
module Removal {
  import opened Chars

  /** `a` and `b` are equal when case is ignored. */
  predicate SameIgnoringCase(a: string, b: string) {
    |a| == |b| && forall i {:trigger a[i]} | 0 <= i < |a| :: Lower(a[i]) == Lower(b[i])
  }

  /** The pattern `p` matches `s` at position i, ignoring case. */
  predicate MatchesAt(s: string, p: string, i: nat) {
    i + |p| <= |s| && SameIgnoringCase(s[i..i + |p|], p)
  }

  /** The non-empty pattern `p` occurs somewhere in `s`. */
  predicate Occurs(p: string, s: string) {
    |p| > 0 && exists i | 0 <= i <= |s| - |p| :: MatchesAt(s, p, i)
  }

  /** `re.sub(p, '', s, flags=re.IGNORECASE)` for a literal `p`: scanning left
      to right, every match is deleted and scanning resumes after it. An empty
      pattern only matches empty strings, so it changes nothing. */
  function RemoveAll(s: string, p: string): (r: string)
    ensures |r| <= |s|
    decreases |s|
  {
    if |p| == 0 || |s| < |p| then s
    else if MatchesAt(s, p, 0) then RemoveAll(s[|p|..], p)
    else [s[0]] + RemoveAll(s[1..], p)
  }

  /** A pattern changes the name exactly when it occurs in it. */
  lemma {:induction false} RemoveAllUnchangedIff(s: string, p: string)
    ensures RemoveAll(s, p) == s <==> !Occurs(p, s)
  {
    if Occurs(p, s) {
      RemoveAllShrinks(s, p);
    } else {
      RemoveAllNoMatch(s, p);
    }
  }

  lemma {:induction false} RemoveAllShrinks(s: string, p: string)
    requires Occurs(p, s)
    ensures |RemoveAll(s, p)| < |s|
    decreases |s|
  {
    var i :| 0 <= i <= |s| - |p| && MatchesAt(s, p, i);
    if !MatchesAt(s, p, 0) {
      assert i > 0;
      assert s[1..][i - 1..i - 1 + |p|] == s[i..i + |p|];
      assert MatchesAt(s[1..], p, i - 1);
      RemoveAllShrinks(s[1..], p);
    }
  }

  lemma {:induction false} RemoveAllNoMatch(s: string, p: string)
    requires !Occurs(p, s)
    ensures RemoveAll(s, p) == s
    decreases |s|
  {
    if |p| > 0 && |s| >= |p| {
      assert !MatchesAt(s, p, 0);
      forall i | 0 <= i <= |s[1..]| - |p|
        ensures !MatchesAt(s[1..], p, i)
      {
        assert s[1..][i..i + |p|] == s[i + 1..i + 1 + |p|];
        assert !MatchesAt(s, p, i + 1);
      }
      RemoveAllNoMatch(s[1..], p);
      assert [s[0]] + s[1..] == s;
    }
  }

  /** The leftmost match is the one deleted: the text before it is kept as
      it is, and deletion carries on, on the text after the match. */
  lemma RemoveAllLeftmost(s: string, p: string, i: nat)
    requires MatchesAt(s, p, i)
    requires forall k | 0 <= k < i :: !MatchesAt(s, p, k)
    ensures RemoveAll(s, p) == s[..i] + RemoveAll(s[i + |p|..], p)
  {
    if |p| == 0 {
      assert MatchesAt(s, p, 0);
      assert s[..i] == [] && s[i + |p|..] == s;
    } else {
      var u, v := s[..i], s[i..];
      assert s == u + v;
      forall k | 0 <= k < |u|
        ensures !MatchesAt(u + v, p, k)
      {
        assert !MatchesAt(s, p, k);
      }
      RemoveAllKeepsPrefix(u, v, p);
      assert v[..|p|] == s[i..i + |p|] && v[|p|..] == s[i + |p|..];
      RemoveAllMatchFirst(v, p);
    }
  }

  /** `Form ACC` with the pattern `acc` loses its final word only. */
  lemma RemoveAllExample()
    ensures RemoveAll("Form ACC", "acc") == "Form "
  {
    var s := "Form ACC";
    assert MatchesAt(s, "acc", 5) by {
      assert s[5..8] == "ACC";
    }
    forall k | 0 <= k < 5
      ensures !MatchesAt(s, "acc", k)
    {
      assert s[k..k + 3][0] == s[k];
      assert k == 0 || k == 1 || k == 2 || k == 3 || k == 4;
    }
    RemoveAllLeftmost(s, "acc", 5);
    assert s[..5] == "Form " && s[8..] == [];
  }

  /** A match at 0 is deleted. */
  lemma RemoveAllMatchFirst(s: string, p: string)
    requires 0 < |p| && MatchesAt(s, p, 0)
    ensures RemoveAll(s, p) == RemoveAll(s[|p|..], p)
  {
  }

  /** No match at 0: the first character is kept. */
  lemma RemoveAllCons(s: string, p: string)
    requires 0 < |p| <= |s| && !MatchesAt(s, p, 0)
    ensures RemoveAll(s, p) == [s[0]] + RemoveAll(s[1..], p)
  {
  }

  /** A prefix in which no match starts is kept as it is. */
  lemma {:induction false} RemoveAllKeepsPrefix(u: string, v: string, p: string)
    requires 0 < |p|
    requires forall k | 0 <= k < |u| :: !MatchesAt(u + v, p, k)
    ensures RemoveAll(u + v, p) == u + RemoveAll(v, p)
    decreases |u|
  {
    if u == [] {
      assert u + v == v;
    } else {
      var w := u[1..];
      assert (u + v)[1..] == w + v;
      ShiftNoMatch(u + v, p, |w|);
      if |u + v| >= |p| {
        RemoveAllCons(u + v, p);
      } else {
        RemoveAllShort(u + v, p);
        RemoveAllShort(w + v, p);
      }
      RemoveAllKeepsPrefix(w, v, p);
      ConsAssoc(u[0], w, RemoveAll(v, p));
      assert [u[0]] + w == u;
    }
  }

  /** A text shorter than the pattern is returned as it is. */
  lemma RemoveAllShort(s: string, p: string)
    requires |s| < |p|
    ensures RemoveAll(s, p) == s
  {
  }

  /** No match at positions 1..n of `s` means no match at 0..n-1 of `s[1..]`. */
  lemma ShiftNoMatch(s: string, p: string, n: nat)
    requires 0 < |s| && forall k | 0 <= k < n + 1 :: !MatchesAt(s, p, k)
    ensures forall k | 0 <= k < n :: !MatchesAt(s[1..], p, k)
  {
    forall k | 0 <= k < n
      ensures !MatchesAt(s[1..], p, k)
    {
      if k + |p| <= |s| - 1 {
        assert s[1..][k..k + |p|] == s[k + 1..k + 1 + |p|];
      }
      assert !MatchesAt(s, p, k + 1);
    }
  }

  lemma ConsAssoc(c: char, a: string, b: string)
    ensures [c] + (a + b) == ([c] + a) + b
  {
  }

  /** Matching ignores case on both sides, so a pattern written in another
      case removes exactly the same text. */
  lemma {:induction false} RemoveAllIgnoresPatternCase(s: string, p: string, q: string)
    requires SameIgnoringCase(p, q)
    ensures RemoveAll(s, p) == RemoveAll(s, q)
    decreases |s|
  {
    if |p| > 0 && |s| >= |p| {
      assert MatchesAt(s, p, 0) == MatchesAt(s, q, 0);
      if MatchesAt(s, p, 0) {
        RemoveAllIgnoresPatternCase(s[|p|..], p, q);
      } else {
        RemoveAllIgnoresPatternCase(s[1..], p, q);
      }
    }
  }

  /** The patterns applied one after another, each to the result of the
      previous one. */
  function ApplyAll(s: string, patterns: seq<string>): (r: string)
    ensures |r| <= |s|
    decreases |patterns|
  {
    if patterns == [] then s
    else RemoveAll(ApplyAll(s, patterns[..|patterns| - 1]), patterns[|patterns| - 1])
  }

  /** Applying a list of patterns is applying its first part and then its
      second part to the result. */
  lemma {:induction false} ApplyAllSplit(s: string, ps: seq<string>, qs: seq<string>)
    ensures ApplyAll(s, ps + qs) == ApplyAll(ApplyAll(s, ps), qs)
    decreases |qs|
  {
    if qs == [] {
      assert ps + qs == ps;
    } else {
      assert (ps + qs)[..|ps + qs| - 1] == ps + qs[..|qs| - 1];
      ApplyAllSplit(s, ps, qs[..|qs| - 1]);
    }
  }

  /** Patterns that occur nowhere along the way leave the name unchanged. */
  lemma {:induction false} ApplyAllUnchanged(s: string, ps: seq<string>)
    requires forall i | 0 <= i < |ps| :: !Occurs(ps[i], s)
    ensures ApplyAll(s, ps) == s
    decreases |ps|
  {
    if ps != [] {
      ApplyAllUnchanged(s, ps[..|ps| - 1]);
      RemoveAllUnchangedIff(s, ps[|ps| - 1]);
    }
  }

  /** The `for rx in patterns` loop, rebinding the name on each pattern. */
  method RemovePatterns(name: string, patterns: seq<string>) returns (r: string)
    ensures r == ApplyAll(name, patterns)
  {
    r := name;
    for i := 0 to |patterns|
      invariant r == ApplyAll(name, patterns[..i])
    {
      assert patterns[..i + 1][..i] == patterns[..i];
      r := RemoveAll(r, patterns[i]);
    }
    assert patterns[..|patterns|] == patterns;
  }
}
