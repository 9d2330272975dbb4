/** The linear-space column scanner (hirschberg_dp): one rolling vector that,
    after consuming the whole first sequence, holds the last row of the
    textbook table. */
module ColumnScanner {
  import opened Seqs
  import opened Scoring
  import opened Table

  /** The last row T(|s1|, 0..|s2|) of the textbook table, as a vector. */
  function LastRow<T>(sc: Scoring<T>, s1: seq<T>, s2: seq<T>): (r: seq<int>)
    ensures |r| == |s2| + 1
  {
    seq(|s2| + 1, j requires 0 <= j <= |s2| => Textbook(sc, s1, s2, |s1|, j))
  }

  /** What the scanner returns: the last row, or UnknownSymbol when a symbol it
      looks up is missing. Every symbol of `s1` is looked up, and every symbol
      of `s2` as soon as `s1` is not empty. */
  function Scan<T>(sc: Scoring<T>, s1: seq<T>, s2: seq<T>): (r: Result<seq<int>>)
    ensures r.Ok? ==> |r.value| == |s2| + 1
  {
    if !sc.Known(s1) || (|s1| > 0 && !sc.Known(s2)) then Err(UnknownSymbol)
    else Ok(LastRow(sc, s1, s2))
  }

  /** hirschberg_dp: start from the border row 0, gap, 2*gap, ...; for each
      symbol of `s1` update the vector in place from left to right, keeping
      the overwritten entry (the diagonal predecessor) in `prev`. */
  method ScoreColumn<T>(sc: Scoring<T>, s1: seq<T>, s2: seq<T>) returns (r: Result<seq<int>>)
    requires sc.Indexable()
    ensures r == Scan(sc, s1, s2)
    ensures r.Ok? <==> sc.Known(s1) && (|s1| > 0 ==> sc.Known(s2))
    ensures r.Err? ==> r.error == UnknownSymbol
    ensures r.Ok? ==> |r.value| == |s2| + 1
    ensures r.Ok? ==> forall j :: 0 <= j <= |s2| ==> r.value[j] == Textbook(sc, s1, s2, |s1|, j)
    ensures |s1| == 0 ==> r == Ok(GapRow(|s2|, sc.gap))
  {
    var n := |s2|;
    var dp := new int[n + 1](_ => 0);
    for i := 1 to n + 1
      invariant forall j :: 0 <= j < i ==> dp[j] == j * sc.gap
    {
      dp[i] := dp[i - 1] + sc.gap;
    }
    for row := 0 to |s1|
      invariant forall j :: 0 <= j <= n ==> dp[j] == Textbook(sc, s1, s2, row, j)
      invariant sc.Known(s1[..row])
      invariant row > 0 ==> sc.Known(s2)
    {
      var mi := sc.IndexOf(s1[row]);
      if mi.None? {
        return Err(UnknownSymbol);
      }
      var known := NextRow(sc, s1, s2, dp, row, mi.value);
      if !known {
        return Err(UnknownSymbol);
      }
      assert s1[..row + 1] == s1[..row] + [s1[row]];
    }
    assert s1[..|s1|] == s1;
    r := Ok(dp[..]);
    assert dp[..] == LastRow(sc, s1, s2);
    if |s1| == 0 {
      assert dp[..] == GapRow(n, sc.gap);
    }
  }

  /** One pass of the outer loop: the vector moves from row `row` to row
      `row + 1` of the table, unless a symbol of `s2` is missing from the map. */
  method NextRow<T>(sc: Scoring<T>, s1: seq<T>, s2: seq<T>, dp: array<int>, row: nat, mi: nat)
      returns (known: bool)
    requires sc.Indexable() && row < |s1| && s1[row] in sc.symbols && mi == sc.symbols[s1[row]]
    requires dp.Length == |s2| + 1
    requires forall j :: 0 <= j <= |s2| ==> dp[j] == Textbook(sc, s1, s2, row, j)
    modifies dp
    ensures known <==> sc.Known(s2)
    ensures known ==> forall j :: 0 <= j <= |s2| ==> dp[j] == Textbook(sc, s1, s2, row + 1, j)
  {
    var n := |s2|;
    var prev := dp[0];
    dp[0] := dp[0] + sc.gap;
    for col := 0 to n
      invariant forall j :: 0 <= j <= col ==> dp[j] == Textbook(sc, s1, s2, row + 1, j)
      invariant forall j :: col < j <= n ==> dp[j] == Textbook(sc, s1, s2, row, j)
      invariant prev == Textbook(sc, s1, s2, row, col)
      invariant sc.Known(s2[..col])
    {
      var mj := sc.IndexOf(s2[col]);
      if mj.None? {
        return false;
      }
      var next := prev + sc.matrix.At(mi, mj.value);
      next := Max(next, dp[col] + sc.gap);
      next := Max(next, dp[col + 1] + sc.gap);
      prev := dp[col + 1];
      dp[col + 1] := next;
    }
    assert s2[..n] == s2;
    return true;
  }
}
