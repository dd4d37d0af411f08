/** LIKE: the dynamic-programming table decides whether the string splits into pieces that fit the pattern. */
module LikePatterns {
  import opened Bytes
  import opened Rows

  const PERCENT: byte := 37
  const UNDERSCORE: byte := 95

  // ----- what LIKE means (section 8.5 of ISO/IEC 9075:1992, without ESCAPE)

  /** A piece of the string fits a pattern character: any piece for %, any one character for _, else that character. */
  predicate Fits(piece: Text, c: byte) {
    if c == PERCENT then true else if c == UNDERSCORE then |piece| == 1 else piece == [c]
  }

  /** The cuts split s into one piece for each pattern character, in order, and every piece fits. */
  predicate Splits(s: Text, p: Text, cuts: seq<nat>) {
    && |cuts| == |p| + 1 && cuts[0] == 0 && cuts[|p|] == |s|
    && (forall j :: 0 <= j < |p| ==> PieceFits(s, p, cuts, j))
  }

  predicate PieceFits(s: Text, p: Text, cuts: seq<nat>, j: nat)
    requires |cuts| == |p| + 1 && j < |p|
  {
    cuts[j] <= cuts[j + 1] <= |s| && Fits(s[cuts[j]..cuts[j + 1]], p[j])
  }

  ghost predicate Like(s: Text, p: Text) {
    exists cuts: seq<nat> :: Splits(s, p, cuts)
  }

  // ----- the last pattern character

  lemma LikeNothing(s: Text)
    ensures Like(s, []) <==> s == []
  {
    if s == [] { assert Splits(s, [], [0]); }
  }

  /** Pieces of a prefix, with the last cut moved. */
  lemma SplitsPrefix(s: Text, t: Text, p: Text, cuts: seq<nat>, n: nat)
    requires Splits(s, p, cuts) && n <= |p| && cuts[n] <= |t|
             && (forall i :: 0 <= i < cuts[n] ==> i < |s| && t[i] == s[i])
    ensures Splits(t[..cuts[n]], p[..n], cuts[..n + 1])
  {
    var u, q, ks := t[..cuts[n]], p[..n], cuts[..n + 1];
    CutsAscend(s, p, cuts);
    forall j | 0 <= j < n
      ensures PieceFits(u, q, ks, j)
    {
      assert PieceFits(s, p, cuts, j);
      assert u[cuts[j]..cuts[j + 1]] == s[cuts[j]..cuts[j + 1]];
    }
  }

  lemma CutsAscend(s: Text, p: Text, cuts: seq<nat>)
    requires Splits(s, p, cuts)
    ensures forall i, j :: 0 <= i <= j <= |p| ==> cuts[i] <= cuts[j]
  {
    forall i, j | 0 <= i <= j <= |p|
      ensures cuts[i] <= cuts[j]
    {
      var k := i;
      while k < j
        invariant i <= k <= j && cuts[i] <= cuts[k]
      {
        assert PieceFits(s, p, cuts, k);
        k := k + 1;
      }
    }
  }

  /** One more piece at the end. */
  lemma SplitsMore(s: Text, k: nat, p: Text, cuts: seq<nat>, c: byte)
    requires k <= |s| && Splits(s[..k], p, cuts) && Fits(s[k..], c)
    ensures Like(s, p + [c])
  {
    var more, q := cuts + [|s|], p + [c];
    forall j | 0 <= j < |q|
      ensures PieceFits(s, q, more, j)
    {
      if j < |p| {
        assert PieceFits(s[..k], p, cuts, j);
        assert s[cuts[j]..cuts[j + 1]] == s[..k][cuts[j]..cuts[j + 1]];
      }
    }
    assert Splits(s, q, more);
  }

  /** A character or _ at the end takes the last character of the string. */
  lemma LikeOne(s: Text, p: Text, c: byte)
    requires c != PERCENT
    ensures Like(s, p + [c]) <==> s != [] && (c == UNDERSCORE || c == s[|s| - 1]) && Like(s[..|s| - 1], p)
  {
    var q, n := p + [c], |s|;
    if Like(s, q) {
      var cuts :| Splits(s, q, cuts);
      assert q[|p|] == c && q[..|p|] == p;
      assert PieceFits(s, q, cuts, |p|);
      SplitsPrefix(s, s, q, cuts, |p|);
    }
    if n > 0 && (c == UNDERSCORE || c == s[n - 1]) && Like(s[..n - 1], p) {
      var cuts :| Splits(s[..n - 1], p, cuts);
      assert s[n - 1..] == [s[n - 1]];
      SplitsMore(s, n - 1, p, cuts, c);
    }
  }

  /** % at the end takes nothing, or the last character and perhaps more. */
  lemma LikePercent(s: Text, p: Text)
    ensures Like(s, p + [PERCENT]) <==> Like(s, p) || (s != [] && Like(s[..|s| - 1], p + [PERCENT]))
  {
    var q, n := p + [PERCENT], |s|;
    if Like(s, q) {
      var cuts :| Splits(s, q, cuts);
      assert q[..|p|] == p && PieceFits(s, q, cuts, |p|);
      SplitsPrefix(s, s, q, cuts, |p|);
      if cuts[|p|] == n {
        assert s[..n] == s;
      } else {
        assert s[..n - 1][..cuts[|p|]] == s[..cuts[|p|]];
        SplitsMore(s[..n - 1], cuts[|p|], p, cuts[..|p| + 1], PERCENT);
      }
    }
    if Like(s, p) {
      var cuts :| Splits(s, p, cuts);
      assert s[..n] == s;
      SplitsMore(s, n, p, cuts, PERCENT);
    }
    if n > 0 && Like(s[..n - 1], q) {
      var cuts :| Splits(s[..n - 1], q, cuts);
      assert q[..|p|] == p && PieceFits(s[..n - 1], q, cuts, |p|);
      SplitsPrefix(s[..n - 1], s[..n - 1], q, cuts, |p|);
      assert s[..n - 1][..cuts[|p|]] == s[..cuts[|p|]];
      SplitsMore(s, cuts[|p|], p, cuts[..|p| + 1], PERCENT);
    }
  }

  // ----- the table

  /** The value of a cell: whether the first i characters match the first j pattern characters. */
  ghost predicate Cell(s: Text, i: nat, p: Text, j: nat)
    requires i <= |s| && j <= |p|
  {
    Like(s[..i], p[..j])
  }

  lemma NoPattern(s: Text, i: nat, p: Text)
    requires i <= |s|
    ensures Cell(s, i, p, 0) <==> i == 0
  {
    LikeNothing(s[..i]);
  }

  /** How a cell follows from its neighbours. */
  lemma CellStep(s: Text, i: nat, p: Text, j: nat)
    requires i <= |s| && 1 <= j <= |p|
    ensures p[j - 1] == PERCENT ==> (Cell(s, i, p, j) <==> Cell(s, i, p, j - 1) || (i > 0 && Cell(s, i - 1, p, j)))
    ensures p[j - 1] != PERCENT ==>
              (Cell(s, i, p, j) <==>
                 i > 0 && (p[j - 1] == UNDERSCORE || s[i - 1] == p[j - 1]) && Cell(s, i - 1, p, j - 1))
  {
    assert p[..j] == p[..j - 1] + [p[j - 1]];
    assert i > 0 ==> s[..i][..i - 1] == s[..i - 1];
    if p[j - 1] == PERCENT { LikePercent(s[..i], p[..j - 1]); } else { LikeOne(s[..i], p[..j - 1], p[j - 1]); }
  }

  method MatchLikePattern(str: Text, pattern: Text) returns (b: bool)
    ensures b <==> Like(str, pattern)
  {
    hide Like, Cell;
    var m, n := |str|, |pattern|;
    var dp := new bool[m + 1, n + 1]((i, j) => false);
    dp[0, 0] := true;
    NoPattern(str, 0, pattern);
    for j := 1 to n + 1
      invariant forall k :: 0 <= k < j ==> dp[0, k] == Cell(str, 0, pattern, k)
      invariant forall i, k :: 0 <= i <= m && 0 <= k <= n && (i > 0 || k >= j) ==> !dp[i, k]
    {
      CellStep(str, 0, pattern, j);
      if pattern[j - 1] == PERCENT { dp[0, j] := dp[0, j - 1]; }
    }
    for i := 1 to m + 1
      invariant forall h, k :: 0 <= h < i && 0 <= k <= n ==> dp[h, k] == Cell(str, h, pattern, k)
      invariant forall h, k :: i <= h <= m && 0 <= k <= n ==> !dp[h, k]
    {
      NoPattern(str, i, pattern);
      for j := 1 to n + 1
        invariant forall h, k :: 0 <= h < i && 0 <= k <= n ==> dp[h, k] == Cell(str, h, pattern, k)
        invariant forall k :: 0 <= k < j ==> dp[i, k] == Cell(str, i, pattern, k)
        invariant forall h, k :: i < h <= m && 0 <= k <= n ==> !dp[h, k]
      {
        CellStep(str, i, pattern, j);
        if pattern[j - 1] == PERCENT {
          dp[i, j] := dp[i, j - 1] || dp[i - 1, j];
        } else if pattern[j - 1] == UNDERSCORE {
          dp[i, j] := dp[i - 1, j - 1];
        } else {
          dp[i, j] := dp[i - 1, j - 1] && str[i - 1] == pattern[j - 1];
        }
      }
    }
    WholeCell(str, pattern);
    return dp[m, n];
  }

  lemma WholeCell(s: Text, p: Text)
    ensures Cell(s, |s|, p, |p|) <==> Like(s, p)
  {
    assert s[..|s|] == s && p[..|p|] == p;
  }
}
