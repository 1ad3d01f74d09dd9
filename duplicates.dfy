/** `df["Filename"].duplicated(keep=False)`: the mask that marks every row
    whose file name occurs more than once in the batch. */
module Duplicates {

  /** Some other row has the same name as row i. */
  predicate Duplicated(names: seq<string>, i: int)
    requires 0 <= i < |names|
  {
    exists j | 0 <= j < |names| :: j != i && names[j] == names[i]
  }

  /** Being duplicated is occurring more than once in the whole column. */
  lemma DuplicatedIffRepeated(names: seq<string>, i: int)
    requires 0 <= i < |names|
    ensures Duplicated(names, i) <==> multiset(names)[names[i]] > 1
  {
    var x := names[i];
    assert names == names[..i] + [x] + names[i + 1..];
    assert multiset(names)[x] == multiset(names[..i])[x] + 1 + multiset(names[i + 1..])[x];
    if Duplicated(names, i) {
      var j :| 0 <= j < |names| && j != i && names[j] == x;
      if j < i {
        assert names[..i][j] == x;
      } else {
        assert names[i + 1..][j - i - 1] == x;
      }
    }
    if multiset(names)[x] > 1 {
      if x in names[..i] {
        var j :| 0 <= j < i && names[..i][j] == x;
        assert names[j] == x;
      } else {
        assert x in names[i + 1..];
        var j :| 0 <= j < |names| - i - 1 && names[i + 1..][j] == x;
        assert names[i + 1 + j] == x;
      }
    }
  }

  /** Counts every name, then flags each row whose count exceeds one. */
  method FlagDuplicates(names: seq<string>) returns (dup: seq<bool>)
    ensures |dup| == |names|
    ensures forall i | 0 <= i < |names| :: dup[i] == Duplicated(names, i)
  {
    var counts: map<string, nat> := map[];
    for i := 0 to |names|
      invariant forall x :: x in counts <==> x in names[..i]
      invariant forall x | x in counts :: counts[x] == multiset(names[..i])[x]
    {
      assert names[..i + 1] == names[..i] + [names[i]];
      var c := if names[i] in counts then counts[names[i]] else 0;
      counts := counts[names[i] := c + 1];
    }
    assert names[..|names|] == names;
    dup := [];
    for i := 0 to |names|
      invariant |dup| == i
      invariant forall k | 0 <= k < i :: dup[k] == Duplicated(names, k)
    {
      DuplicatedIffRepeated(names, i);
      dup := dup + [counts[names[i]] > 1];
    }
  }
}
