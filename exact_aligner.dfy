/** The quadratic-space exact aligner (needleman_wunsch_unoptimized): fill the
    whole table, take the first maximum of its last row, and trace back from
    there to recover the aligned symbols of the first sequence. */
module ExactAligner {
  import opened Seqs
  import opened Scoring
  import opened Table
  import ColumnScanner

  /** Row 0 as the aligner fills it. Its border loop counts the rows 1..m and
      writes entry i of row 0, so the entries past column m keep the 0 the table
      was created with. (When m > n that loop runs past the end of row 0.) */
  function WrittenBorder(m: nat, n: nat, gap: int): (r: seq<int>)
    ensures |r| == n + 1
  {
    seq(n + 1, j => if j <= m then j * gap else 0)
  }

  /** Entry (i, j) of the aligner's table. */
  function Grid<T>(sc: Scoring<T>, s1: seq<T>, s2: seq<T>, i: nat, j: nat): int
    requires i <= |s1| && j <= |s2|
  {
    Cell(sc, s1, s2, WrittenBorder(|s1|, |s2|, sc.gap), i, j)
  }

  /** The aligner's whole table, row by row. */
  function Rows<T>(sc: Scoring<T>, s1: seq<T>, s2: seq<T>): (g: seq<seq<int>>)
    ensures |g| == |s1| + 1 && forall a :: 0 <= a <= |s1| ==> |g[a]| == |s2| + 1
  {
    seq(|s1| + 1, a requires 0 <= a <= |s1| =>
      seq(|s2| + 1, b requires 0 <= b <= |s2| => Grid(sc, s1, s2, a, b)))
  }

  /** The last row of the aligner's table. */
  function BottomRow<T>(sc: Scoring<T>, s1: seq<T>, s2: seq<T>): (r: seq<int>)
    ensures |r| == |s2| + 1
  {
    Rows(sc, s1, s2)[|s1|]
  }

  /** The symbols the traceback over table `g` emits from row i, column j, in
      the order they end up after the final reversal. Each step first tests a
      move up (the cell equals the one above plus a gap), then a move left, and
      otherwise moves diagonally and emits s1[i - 1]. */
  function Walk<T>(g: seq<seq<int>>, gap: int, s1: seq<T>, i: nat, j: nat): seq<T>
    requires |g| == |s1| + 1 && forall a :: 0 <= a < |g| ==> j < |g[a]|
    requires j == 0 || i <= |s1|
    decreases i + j
  {
    if i == 0 || j == 0 then []
    else if g[i][j] == g[i - 1][j] + gap then Walk(g, gap, s1, i - 1, j)
    else if g[i][j] == g[i][j - 1] + gap then Walk(g, gap, s1, i, j - 1)
    else Walk(g, gap, s1, i - 1, j - 1) + [s1[i - 1]]
  }

  /** The outcome of the exact aligner. The traceback starts in row
      `best` (the first maximum of the last row) and column |s1|, reading the
      row index where a column index is meant; it leaves the table when
      0 < |s1| < best. */
  function ExactAlignment<T>(sc: Scoring<T>, s1: seq<T>, s2: seq<T>): (r: Result<Alignment<T>>)
    ensures r.Err? ==> r.error == UnknownSymbol || r.error == OutOfBounds
  {
    if |s1| > |s2| then Err(OutOfBounds)
    else if !sc.Scorable(s1, s2) then Err(UnknownSymbol)
    else
      var last := BottomRow(sc, s1, s2);
      var best := ArgMax(last, 0);
      if 0 < |s1| < best then Err(OutOfBounds)
      else Ok(Alignment(Walk(Rows(sc, s1, s2), sc.gap, s1, best, |s1|), last[best]))
  }

  /** needleman_wunsch_unoptimized, step by step on a two-dimensional array:
      the border, the inner cells, the first maximum of the last row, and the
      traceback. */
  method NeedlemanWunsch<T>(sc: Scoring<T>, s1: seq<T>, s2: seq<T>) returns (r: Result<Alignment<T>>)
    requires sc.Indexable()
    ensures r == ExactAlignment(sc, s1, s2)
  {
    var m, n := |s1|, |s2|;
    var dp := new int[m + 1, n + 1]((_, _) => 0);
    var inBounds := FillBorder(dp, m, n, sc.gap);
    if !inBounds {
      return Err(OutOfBounds);
    }
    var known := FillInner(sc, s1, s2, dp);
    if !known {
      return Err(UnknownSymbol);
    }
    ghost var g := Rows(sc, s1, s2);
    assert forall a, b :: 0 <= a <= m && 0 <= b <= n ==> dp[a, b] == g[a][b];
    var best := FirstMaxColumn(dp, m, g[m]);
    var score := dp[m, best];
    r := TraceBack(s1, dp, best, sc.gap, g);
    if r.Ok? {
      r := Ok(Alignment(r.value.symbols, score));
    }
  }

  /** The border loop: row 0 and column 0 up to index m. It fails when it
      reaches column n + 1 of row 0, which does not exist. */
  method FillBorder(dp: array2<int>, m: nat, n: nat, gap: int) returns (inBounds: bool)
    requires dp.Length0 == m + 1 && dp.Length1 == n + 1
    requires forall a, b :: 0 <= a <= m && 0 <= b <= n ==> dp[a, b] == 0
    modifies dp
    ensures inBounds <==> m <= n
    ensures inBounds ==> forall c :: 0 <= c <= n ==> dp[0, c] == WrittenBorder(m, n, gap)[c]
    ensures inBounds ==> forall a :: 0 < a <= m ==> dp[a, 0] == a * gap
  {
    for i := 1 to m + 1
      invariant i - 1 <= n
      invariant forall c :: 0 <= c < i ==> dp[0, c] == c * gap
      invariant forall c :: i <= c <= n ==> dp[0, c] == 0
      invariant forall a :: 0 < a < i ==> dp[a, 0] == a * gap
    {
      if i > n {
        return false;
      }
      dp[0, i] := dp[0, i - 1] + gap;
      dp[i, 0] := dp[0, i];
    }
    return true;
  }

  /** The inner cells, row by row, each from its three predecessors. Every
      cell looks up both of its symbols and fails on one missing from the map. */
  method FillInner<T>(sc: Scoring<T>, s1: seq<T>, s2: seq<T>, dp: array2<int>) returns (known: bool)
    requires sc.Indexable() && |s1| <= |s2|
    requires dp.Length0 == |s1| + 1 && dp.Length1 == |s2| + 1
    requires forall c :: 0 <= c <= |s2| ==> dp[0, c] == WrittenBorder(|s1|, |s2|, sc.gap)[c]
    requires forall a :: 0 < a <= |s1| ==> dp[a, 0] == a * sc.gap
    modifies dp
    ensures known <==> sc.Scorable(s1, s2)
    ensures known ==> forall a, b :: 0 <= a <= |s1| && 0 <= b <= |s2| ==> dp[a, b] == Grid(sc, s1, s2, a, b)
  {
    var m, n := |s1|, |s2|;
    for i := 1 to m + 1
      invariant forall a, b :: 0 <= a < i && 0 <= b <= n ==> dp[a, b] == Grid(sc, s1, s2, a, b)
      invariant forall a :: i <= a <= m ==> dp[a, 0] == a * sc.gap
      invariant n > 0 ==> sc.Known(s1[..i - 1])
      invariant i > 1 ==> sc.Known(s2)
    {
      for j := 1 to n + 1
        invariant forall a, b :: 0 <= a < i && 0 <= b <= n ==> dp[a, b] == Grid(sc, s1, s2, a, b)
        invariant forall b :: 0 <= b < j ==> dp[i, b] == Grid(sc, s1, s2, i, b)
        invariant forall a :: i < a <= m ==> dp[a, 0] == a * sc.gap
        invariant j > 1 ==> s1[i - 1] in sc.symbols
        invariant sc.Known(s2[..j - 1])
      {
        var mi := sc.IndexOf(s1[i - 1]);
        if mi.None? {
          return false;
        }
        var mj := sc.IndexOf(s2[j - 1]);
        if mj.None? {
          return false;
        }
        var v := dp[i - 1, j - 1] + sc.matrix.At(mi.value, mj.value);
        v := Max(v, dp[i - 1, j] + sc.gap);
        v := Max(v, dp[i, j - 1] + sc.gap);
        dp[i, j] := v;
        assert s2[..j] == s2[..j - 1] + [s2[j - 1]];
      }
      assert n > 0 ==> s1[..i] == s1[..i - 1] + [s1[i - 1]];
      assert s2[..n] == s2;
    }
    assert n > 0 ==> s1[..m] == s1;
    return true;
  }

  /** The scan of the last row that keeps the current best column unless a
      strictly larger entry appears. */
  method FirstMaxColumn(dp: array2<int>, m: nat, ghost last: seq<int>) returns (best: nat)
    requires dp.Length0 == m + 1 && |last| == dp.Length1 > 0
    requires forall b :: 0 <= b < |last| ==> dp[m, b] == last[b]
    ensures best == ArgMax(last, 0)
  {
    best := 0;
    var max := dp[m, 0];
    for k := 1 to dp.Length1
      invariant best == ArgMax(last[..k], 0)
      invariant max == last[best]
    {
      assert last[..k + 1][..k] == last[..k];
      if max < dp[m, k] {
        max := dp[m, k];
        best := k;
      }
    }
    assert last[..dp.Length1] == last;
  }

  /** The traceback from row `best`, column |s1|, collecting symbols
      backwards and reversing them at the end. Its first read leaves the table
      when 0 < |s1| < best. */
  method TraceBack<T>(s1: seq<T>, dp: array2<int>, best: nat, gap: int, ghost g: seq<seq<int>>)
    returns (r: Result<Alignment<T>>)
    requires dp.Length0 == |s1| + 1 && |s1| < dp.Length1 && best < dp.Length1
    requires |g| == |s1| + 1 && forall a :: 0 <= a <= |s1| ==> |g[a]| == dp.Length1
    requires forall a, b :: 0 <= a <= |s1| && 0 <= b < dp.Length1 ==> dp[a, b] == g[a][b]
    ensures r.Err? <==> 0 < |s1| < best
    ensures r.Err? ==> r.error == OutOfBounds
    ensures r.Ok? ==> r.value.symbols == Walk(g, gap, s1, best, |s1|)
  {
    var m := |s1|;
    ghost var inside := best <= m || m == 0;
    var ti: nat, tj: nat := best, m;
    var emitted: seq<T> := [];
    while ti > 0 && tj > 0
      invariant ti <= best && tj <= m
      invariant !inside ==> ti == best && tj == m
      invariant inside ==> (tj == 0 || ti <= m) && Walk(g, gap, s1, best, m) == Walk(g, gap, s1, ti, tj) + Reverse(emitted)
      decreases ti + tj
    {
      if ti > m {
        return Err(OutOfBounds);
      }
      if dp[ti, tj] == dp[ti - 1, tj] + gap {
        assert Walk(g, gap, s1, ti, tj) == Walk(g, gap, s1, ti - 1, tj);
        ti := ti - 1;
      } else if dp[ti, tj] == dp[ti, tj - 1] + gap {
        assert Walk(g, gap, s1, ti, tj) == Walk(g, gap, s1, ti, tj - 1);
        tj := tj - 1;
      } else {
        assert Walk(g, gap, s1, ti, tj) == Walk(g, gap, s1, ti - 1, tj - 1) + [s1[ti - 1]];
        EmitStep(Walk(g, gap, s1, ti - 1, tj - 1), s1[ti - 1], emitted);
        ti, tj := ti - 1, tj - 1;
        emitted := emitted + [s1[ti]];
      }
    }
    r := Ok(Alignment(Reverse(emitted), 0));
  }

  /** Emitting x moves it from the end of the walk still to do to the front of
      the reversed collected symbols. */
  lemma EmitStep<T>(rest: seq<T>, x: T, emitted: seq<T>)
    ensures (rest + [x]) + Reverse(emitted) == rest + Reverse(emitted + [x])
  {
    ReverseSnoc(emitted, x);
  }

  /** The exact aligner fails out of bounds when the first sequence is the
      longer one or when the traceback would start past the last column, fails
      on an unknown symbol only when the table has inner cells to score, and
      otherwise scores the first maximum of the last row. */
  lemma ExactOutcome<T>(sc: Scoring<T>, s1: seq<T>, s2: seq<T>)
    ensures var r := ExactAlignment(sc, s1, s2);
            (|s1| > |s2| ==> r == Err(OutOfBounds))
            && (r == Err(UnknownSymbol) <==> |s1| <= |s2| && !sc.Scorable(s1, s2))
            && (r == Err(OutOfBounds) <==>
                  |s1| > |s2| || (sc.Scorable(s1, s2) && 0 < |s1| < ArgMax(BottomRow(sc, s1, s2), 0)))
            && (r.Ok? ==> forall j :: 0 <= j <= |s2| ==> BottomRow(sc, s1, s2)[j] <= r.value.score)
            && (r.Ok? ==> exists j :: 0 <= j <= |s2| && BottomRow(sc, s1, s2)[j] == r.value.score
                                      && forall k :: 0 <= k < j ==> BottomRow(sc, s1, s2)[k] < r.value.score)
  {
    if |s1| <= |s2| && sc.Scorable(s1, s2) {
      var best := ArgMax(BottomRow(sc, s1, s2), 0);
      assert BottomRow(sc, s1, s2)[best] == BottomRow(sc, s1, s2)[best];
    }
  }

  /** An empty first sequence aligns to nothing with score 0: its only table
      row is all zeros, so the first maximum is column 0. */
  lemma ExactEmptyFirst<T>(sc: Scoring<T>, s2: seq<T>)
    ensures ExactAlignment(sc, [], s2) == Ok(Alignment([], 0))
  {
    var last := BottomRow(sc, [], s2);
    forall b | 0 <= b <= |s2| ensures last[b] == 0 {
      assert last[b] == Grid(sc, [], s2, 0, b) == WrittenBorder(0, |s2|, sc.gap)[b];
    }
    ArgMaxUnique(last, 0, 0);
  }

  /** The traceback only emits symbols of s1[..i], in their original order,
      and at most one per row and per column it crosses. */
  lemma {:induction false} WalkSubsequence<T>(g: seq<seq<int>>, gap: int, s1: seq<T>, i: nat, j: nat)
    requires |g| == |s1| + 1 && forall a :: 0 <= a < |g| ==> j < |g[a]|
    requires i <= |s1|
    ensures IsSubsequence(Walk(g, gap, s1, i, j), s1[..i])
    ensures |Walk(g, gap, s1, i, j)| <= i && |Walk(g, gap, s1, i, j)| <= j
    decreases i + j
  {
    if i == 0 || j == 0 {
      EmptyIsSubsequence(s1[..i]);
    } else {
      assert s1[..i] == s1[..i - 1] + [s1[i - 1]];
      if g[i][j] == g[i - 1][j] + gap {
        WalkSubsequence(g, gap, s1, i - 1, j);
        EmptyIsSubsequence([s1[i - 1]]);
        SubsequenceConcat(Walk(g, gap, s1, i - 1, j), s1[..i - 1], [], [s1[i - 1]]);
        assert Walk(g, gap, s1, i - 1, j) + [] == Walk(g, gap, s1, i - 1, j);
      } else if g[i][j] == g[i][j - 1] + gap {
        WalkSubsequence(g, gap, s1, i, j - 1);
      } else {
        WalkSubsequence(g, gap, s1, i - 1, j - 1);
        SelfIsSubsequence([s1[i - 1]]);
        SubsequenceConcat(Walk(g, gap, s1, i - 1, j - 1), s1[..i - 1], [s1[i - 1]], [s1[i - 1]]);
      }
    }
  }

  /** The aligned symbols are a subsequence of the first sequence, no longer
      than either sequence. */
  lemma ExactSymbolsSubsequence<T>(sc: Scoring<T>, s1: seq<T>, s2: seq<T>)
    requires ExactAlignment(sc, s1, s2).Ok?
    ensures IsSubsequence(ExactAlignment(sc, s1, s2).value.symbols, s1)
    ensures |ExactAlignment(sc, s1, s2).value.symbols| <= |s1| <= |s2|
  {
    var g := Rows(sc, s1, s2);
    var best := ArgMax(BottomRow(sc, s1, s2), 0);
    if |s1| == 0 {
      EmptyIsSubsequence(s1);
    } else {
      assert best <= |s1| <= |s2|;
      assert ExactAlignment(sc, s1, s2).value.symbols == Walk(g, sc.gap, s1, best, |s1|);
      WalkWithinFirst(g, sc.gap, s1, best, |s1|);
    }
  }

  /** A traceback from row i emits a subsequence of the whole first sequence. */
  lemma WalkWithinFirst<T>(g: seq<seq<int>>, gap: int, s1: seq<T>, i: nat, j: nat)
    requires |g| == |s1| + 1 && forall a :: 0 <= a < |g| ==> j < |g[a]|
    requires i <= |s1|
    ensures IsSubsequence(Walk(g, gap, s1, i, j), s1)
    ensures |Walk(g, gap, s1, i, j)| <= i
  {
    var w := Walk(g, gap, s1, i, j);
    WalkSubsequence(g, gap, s1, i, j);
    EmptyIsSubsequence(s1[i..]);
    SubsequenceConcat(w, s1[..i], [], s1[i..]);
    assert s1[..i] + s1[i..] == s1;
    assert w + [] == w;
  }

  /** The aligner's table is the textbook table in every column up to |s1|,
      where the two first rows agree. */
  lemma GridIsTextbookUpToColumn<T>(sc: Scoring<T>, s1: seq<T>, s2: seq<T>, i: nat, j: nat)
    requires i <= |s1| && j <= |s2| && j <= |s1|
    ensures Grid(sc, s1, s2, i, j) == Textbook(sc, s1, s2, i, j)
  {
    var top1, top2 := WrittenBorder(|s1|, |s2|, sc.gap), GapRow(|s2|, sc.gap);
    assert top1[..j + 1] == top2[..j + 1];
    CellDependsOnTopPrefix(sc, s1, s2, top1, top2, i, j);
  }

  /** For sequences of equal length the two tables coincide, so the exact
      aligner's last row is the column scanner's. */
  lemma EqualLengthsBottomRow<T>(sc: Scoring<T>, s1: seq<T>, s2: seq<T>)
    requires |s1| == |s2|
    ensures BottomRow(sc, s1, s2) == ColumnScanner.LastRow(sc, s1, s2)
  {
    forall j | 0 <= j <= |s2|
      ensures BottomRow(sc, s1, s2)[j] == ColumnScanner.LastRow(sc, s1, s2)[j]
    {
      GridIsTextbookUpToColumn(sc, s1, s2, |s1|, j);
    }
  }

  /** Row 0 past column |s1| keeps its initial 0 instead of the textbook
      j * gap, so for a non-zero gap the two tables differ there. */
  lemma BorderDeparts<T>(sc: Scoring<T>, s1: seq<T>, s2: seq<T>, j: nat)
    requires |s1| < j <= |s2| && sc.gap != 0
    ensures Grid(sc, s1, s2, 0, j) == 0 != Textbook(sc, s1, s2, 0, j)
  {
  }
}
