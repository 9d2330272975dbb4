/** The dynamic-programming recurrence both aligners compute. Row 0 of the
    table is a parameter: the textbook border is 0, gap, 2*gap, ..., and the
    exact aligner fills it differently (see ExactAligner.WrittenBorder). */
module Table {
  import opened Seqs
  import opened Scoring

  /** The textbook border: entry j is j * gap. */
  function GapRow(n: nat, gap: int): (r: seq<int>)
    ensures |r| == n + 1
  {
    seq(n + 1, j => j * gap)
  }

  /** Entry (i, j) of the table over `s1` (rows) and `s2` (columns) with row 0
      given by `top`: column 0 holds i * gap, and every inner cell is the best
      of a diagonal step scored by the matrix, a step down and a step right,
      each of the last two costing one gap. */
  function Cell<T>(sc: Scoring<T>, s1: seq<T>, s2: seq<T>, top: seq<int>, i: nat, j: nat): int
    requires i <= |s1| && j <= |s2| && |top| == |s2| + 1
    decreases i + j
  {
    if i == 0 then top[j]
    else if j == 0 then i * sc.gap
    else
      Max(Max(Cell(sc, s1, s2, top, i - 1, j - 1) + sc.Score(s1[i - 1], s2[j - 1]),
              Cell(sc, s1, s2, top, i - 1, j) + sc.gap),
          Cell(sc, s1, s2, top, i, j - 1) + sc.gap)
  }

  /** The textbook recurrence T(i, j) that the column scanner computes. */
  function Textbook<T>(sc: Scoring<T>, s1: seq<T>, s2: seq<T>, i: nat, j: nat): int
    requires i <= |s1| && j <= |s2|
  {
    Cell(sc, s1, s2, GapRow(|s2|, sc.gap), i, j)
  }

  /** T(i, j) is the best of its three predecessors: it is at least each of
      them and equal to one of them. */
  lemma TextbookRecurrence<T>(sc: Scoring<T>, s1: seq<T>, s2: seq<T>, i: nat, j: nat)
    requires 0 < i <= |s1| && 0 < j <= |s2|
    ensures Textbook(sc, s1, s2, i, j) >= Textbook(sc, s1, s2, i - 1, j - 1) + sc.Score(s1[i - 1], s2[j - 1])
    ensures Textbook(sc, s1, s2, i, j) >= Textbook(sc, s1, s2, i - 1, j) + sc.gap
    ensures Textbook(sc, s1, s2, i, j) >= Textbook(sc, s1, s2, i, j - 1) + sc.gap
    ensures Textbook(sc, s1, s2, i, j) in {Textbook(sc, s1, s2, i - 1, j - 1) + sc.Score(s1[i - 1], s2[j - 1]),
                                         Textbook(sc, s1, s2, i - 1, j) + sc.gap,
                                         Textbook(sc, s1, s2, i, j - 1) + sc.gap}
  {
  }

  /** The border of the textbook table: T(i, 0) = i * gap and T(0, j) = j * gap. */
  lemma TextbookBorders<T>(sc: Scoring<T>, s1: seq<T>, s2: seq<T>, i: nat, j: nat)
    requires i <= |s1| && j <= |s2|
    ensures Textbook(sc, s1, s2, i, 0) == i * sc.gap
    ensures Textbook(sc, s1, s2, 0, j) == j * sc.gap
  {
  }

  /** A cell depends only on the part of row 0 at or left of its column: two
      tables whose first rows agree up to column j agree on every cell of
      columns 0..j. */
  lemma {:induction false} CellDependsOnTopPrefix<T>(sc: Scoring<T>, s1: seq<T>, s2: seq<T>,
                                                      top1: seq<int>, top2: seq<int>, i: nat, j: nat)
    requires i <= |s1| && j <= |s2| && |top1| == |top2| == |s2| + 1
    requires top1[..j + 1] == top2[..j + 1]
    ensures Cell(sc, s1, s2, top1, i, j) == Cell(sc, s1, s2, top2, i, j)
    decreases i + j
  {
    if i == 0 {
      assert top1[j] == top1[..j + 1][j] == top2[..j + 1][j] == top2[j];
    } else if j > 0 {
      assert top1[..j] == top1[..j + 1][..j] == top2[..j + 1][..j] == top2[..j];
      CellDependsOnTopPrefix(sc, s1, s2, top1, top2, i - 1, j - 1);
      CellDependsOnTopPrefix(sc, s1, s2, top1, top2, i - 1, j);
      CellDependsOnTopPrefix(sc, s1, s2, top1, top2, i, j - 1);
    }
  }
}
