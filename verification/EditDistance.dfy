/**
 The edit distance behind the command suggestion, cli/src/hooks/command_not_found.ts.

 `Distance` is the recurrence the table follows. `EditPath` is the independent meaning:
 a chain of strings in which each is one single-character edit away from the one before.
 The main result, `DistanceIsLeastEditCount`, connects the two.
 */
module EditDistance {

  // ---- what an edit is -------------------------------------------------------------

  ghost predicate IsInsertion(x: string, y: string, i: nat, c: char) {
    i <= |x| && y == x[..i] + [c] + x[i..]
  }

  ghost predicate InsertsOne(x: string, y: string) {
    exists i: nat, c: char :: IsInsertion(x, y, i, c)
  }

  ghost predicate IsSubstitution(x: string, y: string, i: nat, c: char) {
    i < |x| && y == x[i := c]
  }

  ghost predicate SubstitutesOne(x: string, y: string) {
    exists i: nat, c: char :: IsSubstitution(x, y, i, c)
  }

  /** One insertion, deletion or substitution of a single character. */
  ghost predicate OneEdit(x: string, y: string) {
    InsertsOne(x, y) || InsertsOne(y, x) || SubstitutesOne(x, y)
  }

  /** A chain of single edits from `a` to `b`; it makes `|path| - 1` of them. */
  ghost predicate EditPath(path: seq<string>, a: string, b: string) {
    && |path| > 0
    && path[0] == a
    && path[|path| - 1] == b
    && forall k :: 0 <= k < |path| - 1 ==> OneEdit(path[k], path[k + 1])
  }

  /** `n` is the least number of single edits that turn `a` into `b`. */
  ghost predicate IsLeastEditCount(a: string, b: string, n: nat) {
    && (exists path :: EditPath(path, a, b) && |path| - 1 == n)
    && (forall path :: EditPath(path, a, b) ==> n <= |path| - 1)
  }

  // ---- the recurrence of the table -------------------------------------------------

  function Min(x: nat, y: nat): nat {
    if x <= y then x else y
  }

  function Init(s: string): string
    requires s != ""
  {
    s[..|s| - 1]
  }

  function Last(s: string): char
    requires s != ""
  {
    s[|s| - 1]
  }

  /** The table's recurrence; equal last characters take the diagonal with no minimum. */
  function Distance(a: string, b: string): nat
    decreases |a| + |b|
  {
    if a == "" then |b|
    else if b == "" then |a|
    else if Last(a) == Last(b) then Distance(Init(a), Init(b))
    else 1 + Min(Distance(Init(a), b), Min(Distance(a, Init(b)), Distance(Init(a), Init(b))))
  }

  // ---- the neighbour lemma ---------------------------------------------------------

  /** Dropping the last character of either string moves the distance by at most one. */
  lemma {:induction false} Neighbours(a: string, b: string)
    ensures a != "" ==> Distance(Init(a), b) <= Distance(a, b) + 1 && Distance(a, b) <= Distance(Init(a), b) + 1
    ensures b != "" ==> Distance(a, Init(b)) <= Distance(a, b) + 1 && Distance(a, b) <= Distance(a, Init(b)) + 1
    decreases |a| + |b|
  {
    if a != "" && b != "" {
      Neighbours(Init(a), b);
      Neighbours(a, Init(b));
      Neighbours(Init(a), Init(b));
    } else {
    }
  }

  // ---- no chain of edits is shorter ------------------------------------------------

  /** A substitution moves the distance to any `b` by at most one. */
  lemma {:induction false} SubstitutionBound(x: string, y: string, b: string, i: nat, c: char)
    requires IsSubstitution(x, y, i, c)
    ensures Distance(x, b) <= Distance(y, b) + 1
    decreases |x| + |b|
  {
    if i == |x| - 1 {
      assert Init(x) == Init(y);
      Neighbours(x, b);
      Neighbours(y, b);
      if b != "" {
        Neighbours(x, Init(b));
        Neighbours(Init(x), b);
        Neighbours(y, Init(b));
        if Last(x) != Last(b) && Last(y) != Last(b) {
          SubstitutionBound(x, y, Init(b), i, c);
        }
      }
    } else if b != "" {
      assert IsSubstitution(Init(x), Init(y), i, c) && Last(x) == Last(y);
      SubstitutionBound(Init(x), Init(y), b, i, c);
      SubstitutionBound(x, y, Init(b), i, c);
      SubstitutionBound(Init(x), Init(y), Init(b), i, c);
    }
  }

  /** Inserting a character moves the distance to any `b` by at most one, either way. */
  lemma {:induction false} InsertionBound(x: string, y: string, b: string, i: nat, c: char)
    requires IsInsertion(x, y, i, c)
    ensures Distance(x, b) <= Distance(y, b) + 1
    ensures Distance(y, b) <= Distance(x, b) + 1
    decreases |x| + |b|
  {
    if i == |x| {
      assert Init(y) == x;
      Neighbours(y, b);
    } else if b != "" {
      assert Init(y) == Init(x)[..i] + [c] + Init(x)[i..] && Last(x) == Last(y);
      InsertionBound(Init(x), Init(y), b, i, c);
      InsertionBound(x, y, Init(b), i, c);
      InsertionBound(Init(x), Init(y), Init(b), i, c);
    }
  }

  lemma OneEditBound(x: string, y: string, b: string)
    requires OneEdit(x, y)
    ensures Distance(x, b) <= Distance(y, b) + 1
  {
    if InsertsOne(x, y) {
      var i: nat, c :| IsInsertion(x, y, i, c);
      InsertionBound(x, y, b, i, c);
    } else if InsertsOne(y, x) {
      var i: nat, c :| IsInsertion(y, x, i, c);
      InsertionBound(y, x, b, i, c);
    } else {
      var i: nat, c :| IsSubstitution(x, y, i, c);
      SubstitutionBound(x, y, b, i, c);
    }
  }

  lemma {:induction false} DistanceToSelf(a: string)
    ensures Distance(a, a) == 0
  {
    if a == "" {
    } else {
      DistanceToSelf(Init(a));
    }
  }

  /** No chain of single edits is shorter than the distance. */
  lemma {:induction false} NoPathIsShorter(path: seq<string>, a: string, b: string)
    requires EditPath(path, a, b)
    ensures Distance(a, b) <= |path| - 1
    decreases |path|
  {
    if |path| == 1 {
      DistanceToSelf(a);
    } else {
      var tail := path[1..];
      assert forall k :: 0 <= k < |tail| - 1 ==> OneEdit(tail[k], tail[k + 1]) by {
        forall k | 0 <= k < |tail| - 1 ensures OneEdit(tail[k], tail[k + 1]) {
          assert OneEdit(path[k + 1], path[k + 2]);
        }
      }
      NoPathIsShorter(tail, path[1], b);
      assert OneEdit(path[0], path[0 + 1]);
      OneEditBound(a, path[1], b);
    }
  }

  // ---- some chain of edits attains it ----------------------------------------------

  /** Appending a character to both ends of an edit leaves an edit. */
  lemma OneEditExtends(x: string, y: string, c: char)
    requires OneEdit(x, y)
    ensures OneEdit(x + [c], y + [c])
  {
    if InsertsOne(x, y) {
      var i: nat, d :| IsInsertion(x, y, i, d);
      assert IsInsertion(x + [c], y + [c], i, d);
    } else if InsertsOne(y, x) {
      var i: nat, d :| IsInsertion(y, x, i, d);
      assert IsInsertion(y + [c], x + [c], i, d);
    } else {
      var i: nat, d :| IsSubstitution(x, y, i, d);
      assert IsSubstitution(x + [c], y + [c], i, d);
    }
  }

  function Extended(path: seq<string>, c: char): (r: seq<string>)
    ensures |r| == |path|
  {
    seq(|path|, k requires 0 <= k < |path| => path[k] + [c])
  }

  lemma PathExtends(path: seq<string>, a: string, b: string, c: char)
    requires EditPath(path, a, b)
    ensures EditPath(Extended(path, c), a + [c], b + [c])
  {
    var r := Extended(path, c);
    forall k | 0 <= k < |r| - 1 ensures OneEdit(r[k], r[k + 1]) {
      assert OneEdit(path[k], path[k + 1]);
      OneEditExtends(path[k], path[k + 1], c);
    }
  }

  lemma PathThroughDeletion(a: string, b: string, rest: seq<string>)
    requires a != "" && EditPath(rest, Init(a), b)
    ensures EditPath([a] + rest, a, b)
  {
    assert a == Init(a)[..|a| - 1] + [Last(a)] + Init(a)[|a| - 1..];
    assert IsInsertion(Init(a), a, |a| - 1, Last(a));
  }

  lemma PathThroughInsertion(a: string, b: string, rest: seq<string>)
    requires b != "" && EditPath(rest, a, Init(b))
    ensures EditPath([a] + Extended(rest, Last(b)), a, b)
  {
    PathExtends(rest, a, Init(b), Last(b));
    assert Init(b) + [Last(b)] == b;
    assert a + [Last(b)] == a[..|a|] + [Last(b)] + a[|a|..];
    assert IsInsertion(a, a + [Last(b)], |a|, Last(b));
  }

  lemma PathThroughDiagonal(a: string, b: string, rest: seq<string>)
    requires a != "" && b != "" && EditPath(rest, Init(a), Init(b))
    ensures Last(a) == Last(b) ==> EditPath(Extended(rest, Last(b)), a, b)
    ensures EditPath([a] + Extended(rest, Last(b)), a, b)
  {
    PathExtends(rest, Init(a), Init(b), Last(b));
    assert Init(a) + [Last(a)] == a && Init(b) + [Last(b)] == b;
    assert Init(a) + [Last(b)] == a[|a| - 1 := Last(b)];
    assert IsSubstitution(a, Init(a) + [Last(b)], |a| - 1, Last(b));
  }

  /** The chain of edits that reads the recurrence backwards. */
  lemma {:induction false} ShortestPath(a: string, b: string) returns (path: seq<string>)
    ensures EditPath(path, a, b) && |path| - 1 == Distance(a, b)
    decreases |a| + |b|
  {
    if a == "" && b == "" {
      path := [a];
    } else if b == "" || (a != "" && Last(a) != Last(b) && Distance(a, b) == 1 + Distance(Init(a), b)) {
      var rest := ShortestPath(Init(a), b);
      PathThroughDeletion(a, b, rest);
      path := [a] + rest;
    } else if a == "" || (Last(a) != Last(b) && Distance(a, b) == 1 + Distance(a, Init(b))) {
      var rest := ShortestPath(a, Init(b));
      PathThroughInsertion(a, b, rest);
      path := [a] + Extended(rest, Last(b));
    } else {
      var rest := ShortestPath(Init(a), Init(b));
      PathThroughDiagonal(a, b, rest);
      path := (if Last(a) == Last(b) then [] else [a]) + Extended(rest, Last(b));
      assert Last(a) == Last(b) ==> path == Extended(rest, Last(b));
    }
  }

  /** The table's value is the least number of single-character edits from `a` to `b`. */
  lemma DistanceIsLeastEditCount(a: string, b: string)
    ensures IsLeastEditCount(a, b, Distance(a, b))
  {
    var shortest := ShortestPath(a, b);
    forall path | EditPath(path, a, b) ensures Distance(a, b) <= |path| - 1 {
      NoPathIsShorter(path, a, b);
    }
  }

  // ---- the distance is a metric between two bounds ---------------------------------

  lemma {:induction false} ZeroOnlyForEqual(a: string, b: string)
    ensures Distance(a, b) == 0 <==> a == b
    decreases |a| + |b|
  {
    if a != "" && b != "" && Last(a) == Last(b) {
      ZeroOnlyForEqual(Init(a), Init(b));
      assert a == Init(a) + [Last(a)] && b == Init(b) + [Last(b)];
    } else {
    }
  }

  lemma {:induction false} Symmetric(a: string, b: string)
    ensures Distance(a, b) == Distance(b, a)
    decreases |a| + |b|
  {
    if a != "" && b != "" {
      Symmetric(Init(a), b);
      Symmetric(a, Init(b));
      Symmetric(Init(a), Init(b));
    } else {
    }
  }

  lemma TriangleInequality(a: string, b: string, c: string)
    ensures Distance(a, c) <= Distance(a, b) + Distance(b, c)
  {
    var p := ShortestPath(a, b);
    var q := ShortestPath(b, c);
    var r := p + q[1..];
    forall k | 0 <= k < |r| - 1 ensures OneEdit(r[k], r[k + 1]) {
      if k < |p| - 1 {
        assert OneEdit(p[k], p[k + 1]);
      } else {
        var j := k - (|p| - 1);
        assert r[k] == q[j] && r[k + 1] == q[j + 1];
        assert OneEdit(q[j], q[j + 1]);
      }
    }
    NoPathIsShorter(r, a, c);
  }

  lemma {:induction false} LengthBounds(a: string, b: string)
    ensures |a| - |b| <= Distance(a, b) && |b| - |a| <= Distance(a, b)
    ensures Distance(a, b) <= |a| || Distance(a, b) <= |b|
    decreases |a| + |b|
  {
    if a != "" && b != "" {
      LengthBounds(Init(a), b);
      LengthBounds(a, Init(b));
      LengthBounds(Init(a), Init(b));
    } else {
    }
  }

  // ---- the table, filled in place --------------------------------------------------

  function InitCell(i: nat, j: nat): nat {
    if i == 0 then j else if j == 0 then i else 0
  }

  lemma RowStep(a: string, b: string, i: nat, j: nat)
    requires 0 < i <= |a| && 0 < j <= |b|
    ensures Distance(a[..i], b[..j]) ==
            if a[i - 1] == b[j - 1] then Distance(a[..i - 1], b[..j - 1])
            else 1 + Min(Distance(a[..i - 1], b[..j]),
                         Min(Distance(a[..i], b[..j - 1]), Distance(a[..i - 1], b[..j - 1])))
  {
    assert Init(a[..i]) == a[..i - 1] && Init(b[..j]) == b[..j - 1];
  }

  /** The rows before `i` hold the distances between prefixes. */
  ghost predicate RowsFilled(dp: array2<nat>, a: string, b: string, i: nat)
    reads dp
  {
    && dp.Length0 == |a| + 1 && dp.Length1 == |b| + 1 && i <= |a| + 1
    && forall p, q :: 0 <= p < i && 0 <= q <= |b| ==> dp[p, q] == Distance(a[..p], b[..q])
  }

  /** The inner loop: one row of the table, from the row above and its own first cell. */
  method FillRow(dp: array2<nat>, a: string, b: string, i: nat)
    requires 1 <= i <= |a| && RowsFilled(dp, a, b, i) && dp[i, 0] == i
    modifies dp
    ensures RowsFilled(dp, a, b, i + 1)
    ensures forall p, q :: i < p <= |a| && 0 <= q <= |b| ==> dp[p, q] == old(dp[p, q])
  {
    var j := 1;
    while j <= |b|
      invariant 1 <= j <= |b| + 1
      invariant RowsFilled(dp, a, b, i)
      invariant forall q :: 0 <= q < j ==> dp[i, q] == Distance(a[..i], b[..q])
      invariant forall p, q :: i < p <= |a| && 0 <= q <= |b| ==> dp[p, q] == old(dp[p, q])
    {
      RowStep(a, b, i, j);
      dp[i, j] :=
        if a[i - 1] == b[j - 1] then dp[i - 1, j - 1]
        else 1 + Min(dp[i - 1, j], Min(dp[i, j - 1], dp[i - 1, j - 1]));
      j := j + 1;
    }
  }

  /** Fills the table row by row in place; the last cell is the least number of edits. */
  method Levenshtein(a: string, b: string) returns (d: nat)
    ensures d == Distance(a, b)
    ensures IsLeastEditCount(a, b, d)
  {
    var dp := new nat[|a| + 1, |b| + 1]((i: nat, j: nat) => InitCell(i, j));
    var i := 1;
    while i <= |a|
      invariant 1 <= i <= |a| + 1
      invariant RowsFilled(dp, a, b, i)
      invariant forall p :: i <= p <= |a| ==> dp[p, 0] == p
    {
      FillRow(dp, a, b, i);
      i := i + 1;
    }
    d := dp[|a|, |b|];
    assert a[..|a|] == a && b[..|b|] == b;
    DistanceIsLeastEditCount(a, b);
  }
}
