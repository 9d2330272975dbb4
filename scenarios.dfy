/** Worked runs of the driver on a two-symbol alphabet {a, b} with the matrix
    [[1, -1], [-1, 1]] and gap -2. */
module Scenarios {
  import opened Seqs
  import opened Scoring
  import opened Table
  import opened ColumnScanner
  import opened ExactAligner
  import opened Hirschberg

  function Small(): (sc: Scoring<char>)
    ensures sc.Indexable() && sc.matrix.RowsCount() == |sc.symbols|
  {
    var sc := Scoring(map['a' := 0, 'b' := 1], Matrix([[1, -1], [-1, 1]]), -2);
    assert sc.symbols.Keys == {'a', 'b'};
    sc
  }

  /** A first sequence longer than the second is out of bounds in the exact
      aligner's border loop. */
  lemma LongerFirstFails()
    ensures Aligned(Small(), "ab", "a") == Err(OutOfBounds)
  {
  }

  /** The aligner's table for "a" against "ab": row 0 is 0, -2 and then the
      untouched 0; row 1 is -2, 1, -1. */
  lemma ShorterFirstTable()
    ensures Rows(Small(), "a", "ab") == [[0, -2, 0], [-2, 1, -1]]
  {
    var sc := Small();
    var s1, s2 := "a", "ab";
    assert sc.Score('a', 'a') == 1 && sc.Score('a', 'b') == -1;
    assert WrittenBorder(1, 2, -2) == [0, -2, 0];
    assert Grid(sc, s1, s2, 0, 0) == 0 && Grid(sc, s1, s2, 0, 1) == -2 && Grid(sc, s1, s2, 0, 2) == 0;
    assert Grid(sc, s1, s2, 1, 0) == -2;
    assert Grid(sc, s1, s2, 1, 1) == 1;
    assert Grid(sc, s1, s2, 1, 2) == -1;
    assert Rows(sc, s1, s2)[0] == [0, -2, 0];
    assert Rows(sc, s1, s2)[1] == [-2, 1, -1];
  }

  /** "a" against "ab": the last row of the aligner's table is [-2, 1, -1], its
      first maximum is in column 1, and the diagonal step emits 'a'. */
  lemma ShorterFirstAligns()
    ensures Aligned(Small(), "a", "ab") == Ok(Alignment("a", 1))
  {
    var sc := Small();
    ShorterFirstTable();
    assert BottomRow(sc, "a", "ab") == [-2, 1, -1];
    ArgMaxUnique([-2, 1, -1], 0, 1);
    assert Walk([[0, -2, 0], [-2, 1, -1]], -2, "a", 1, 1) == "a";
    assert sc.Scorable("a", "ab");
  }

  /** The aligner's table for one symbol against itself. */
  lemma SingleSymbolTable(x: char)
    requires x == 'a' || x == 'b'
    ensures Rows(Small(), [x], [x]) == [[0, -2], [-2, 1]]
  {
    var sc := Small();
    assert sc.Score(x, x) == 1;
    assert WrittenBorder(1, 1, -2) == [0, -2];
    assert Grid(sc, [x], [x], 0, 0) == 0 && Grid(sc, [x], [x], 0, 1) == -2;
    assert Grid(sc, [x], [x], 1, 0) == -2;
    assert Grid(sc, [x], [x], 1, 1) == 1;
    assert Rows(sc, [x], [x])[0] == [0, -2];
    assert Rows(sc, [x], [x])[1] == [-2, 1];
  }

  /** One symbol against one symbol: the diagonal step with score 1. */
  lemma SingleSymbolAligns(x: char)
    requires x == 'a' || x == 'b'
    ensures Aligned(Small(), [x], [x]) == Ok(Alignment([x], 1))
  {
    var sc := Small();
    SingleSymbolTable(x);
    assert BottomRow(sc, [x], [x]) == [-2, 1];
    ArgMaxUnique([-2, 1], 0, 1);
    assert Walk([[0, -2], [-2, 1]], -2, [x], 1, 1) == [x];
    assert sc.Scorable([x], [x]);
  }

  /** The forward column of "ab" against "ab": "a" against "ab". */
  lemma EqualPairForward()
    ensures ForwardColumn(Small(), "ab", "ab") == Ok([-2, 1, -1])
  {
    var sc := Small();
    assert sc.Score('a', 'a') == 1 && sc.Score('a', 'b') == -1;
    assert "ab"[..1] == "a";
    assert GapRow(2, -2) == [0, -2, -4];
    assert Textbook(sc, "a", "ab", 1, 0) == -2;
    assert Textbook(sc, "a", "ab", 1, 1) == 1;
    assert Textbook(sc, "a", "ab", 1, 2) == -1;
    assert LastRow(sc, "a", "ab") == [-2, 1, -1];
  }

  /** The backward column of "ab" against "ab": "b" against "ba", reversed. */
  lemma EqualPairBackward()
    ensures BackwardColumn(Small(), "ab", "ab") == Ok([-1, 1, -2])
  {
    var sc := Small();
    assert sc.Score('b', 'b') == 1 && sc.Score('b', 'a') == -1;
    assert Reverse("ab") == "ba";
    assert Reverse("ab")[..1] == "b";
    assert GapRow(2, -2) == [0, -2, -4];
    assert Textbook(sc, "b", "ba", 1, 0) == -2;
    assert Textbook(sc, "b", "ba", 1, 1) == 1;
    assert Textbook(sc, "b", "ba", 1, 2) == -1;
    assert LastRow(sc, "b", "ba") == [-2, 1, -1];
    assert Reverse([-2, 1, -1]) == [-1, 1, -2];
  }

  /** The sums of the two columns are [-3, 2, -3]: the split column is 0. */
  lemma EqualPairSplitColumn()
    ensures SplitColumn([-2, 1, -1], [-1, 1, -2]) == 0
  {
    assert Sums([-2, 1, -1], [-1, 1, -2]) == [-3, 2, -3];
  }

  /** "ab" against "ab" is cut into "a"/"a" and "b"/"b": the forward column
      is [-2, 1, -1], the reversed backward column is [-1, 1, -2], and their
      sums [-3, 2, -3] put the split column at 0. */
  lemma EqualPairSplit()
    ensures Divided(Small(), "ab", "ab") == Join(Aligned(Small(), "a", "a"), Aligned(Small(), "b", "b"))
  {
    EqualPairForward();
    EqualPairBackward();
    EqualPairSplitColumn();
    DividedUnfold(Small(), "ab", "ab", 1, 0);
    assert "ab"[..1] == "a" && "ab"[1..] == "b";
    assert "ab"[..0 + 1] == "a" && "ab"[0 + 1..] == "b";
  }

  /** The halves "a"/"a" and "b"/"b" join into "ab" with score 2. */
  lemma EqualPairHalves()
    ensures Join(Aligned(Small(), "a", "a"), Aligned(Small(), "b", "b")) == Ok(Alignment("ab", 2))
  {
    SingleSymbolAligns('a');
    SingleSymbolAligns('b');
    assert "a" + "b" == "ab";
  }

  /** "ab" against "ab": the recursive case, cut at column 0, gives "ab" with
      score 2. */
  lemma EqualPairAligns()
    ensures Aligned(Small(), "ab", "ab") == Ok(Alignment("ab", 2))
  {
    assert Aligned(Small(), "ab", "ab") == Divided(Small(), "ab", "ab");
    EqualPairSplit();
    EqualPairHalves();
  }
}
