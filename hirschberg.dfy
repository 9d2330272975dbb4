/** The divide-and-conquer driver (hirschberg_rec) and the validating entry
    point (hirschberg). */
module Hirschberg {
  import opened Seqs
  import opened Scoring
  import opened ColumnScanner
  import opened ExactAligner

  /** Entry i is left[i] + right[i]. */
  function Sums(left: seq<int>, right: seq<int>): (r: seq<int>)
    requires |left| == |right|
    ensures |r| == |left|
  {
    seq(|left|, i requires 0 <= i < |left| => left[i] + right[i])
  }

  /** The split column k of the second sequence: k + 1 is the first index in
      1..|left| - 1 at which left[i] + right[i] is largest. */
  function SplitColumn(left: seq<int>, right: seq<int>): (k: nat)
    requires |left| == |right| >= 2
    ensures k + 1 < |left|
    ensures forall i :: 1 <= i < |left| ==> left[i] + right[i] <= left[k + 1] + right[k + 1]
    ensures forall i :: 1 <= i <= k ==> left[i] + right[i] < left[k + 1] + right[k + 1]
  {
    var sums := Sums(left, right);
    assert forall i :: 0 <= i < |left| ==> sums[i] == left[i] + right[i];
    ArgMax(sums, 1) - 1
  }

  /** The forward scan of the recursive case: the first half s1[..|s1| / 2]
      against the whole of s2. */
  function ForwardColumn<T>(sc: Scoring<T>, s1: seq<T>, s2: seq<T>): (r: Result<seq<int>>)
    ensures r.Ok? ==> |r.value| == |s2| + 1
  {
    Scan(sc, s1[..|s1| / 2], s2)
  }

  /** The backward scan of the recursive case: the first |s1| / 2 symbols of
      reversed s1 against reversed s2, the resulting vector reversed again. */
  function BackwardColumn<T>(sc: Scoring<T>, s1: seq<T>, s2: seq<T>): (r: Result<seq<int>>)
    ensures r.Ok? ==> |r.value| == |s2| + 1
  {
    var back :- Scan(sc, Reverse(s1)[..|s1| / 2], Reverse(s2));
    Ok(Reverse(back))
  }

  /** The outcome of hirschberg_rec. With either sequence of length at most 1
      it is the exact aligner's, otherwise that of the recursive case. */
  function Aligned<T>(sc: Scoring<T>, s1: seq<T>, s2: seq<T>): (r: Result<Alignment<T>>)
    ensures r.Err? ==> r.error == UnknownSymbol || r.error == OutOfBounds
    decreases |s1|, 2
  {
    if |s1| <= 1 || |s2| <= 1 then ExactAlignment(sc, s1, s2) else Divided(sc, s1, s2)
  }

  /** The recursive case: the forward and the backward scan, then their
      combination. */
  function Divided<T>(sc: Scoring<T>, s1: seq<T>, s2: seq<T>): (r: Result<Alignment<T>>)
    requires |s1| > 1 && |s2| > 1
    ensures r.Err? ==> r.error == UnknownSymbol || r.error == OutOfBounds
    decreases |s1|, 1
  {
    var left :- ForwardColumn(sc, s1, s2);
    var right :- BackwardColumn(sc, s1, s2);
    Combine(sc, s1, s2, left, right)
  }

  /** The first sequence is split at mid = |s1| / 2, the split column k of the
      two columns decides how s2 is shared between the two recursive calls,
      and their symbols are concatenated and their scores added. Columns of
      different lengths, or empty ones, cannot be combined. */
  function Combine<T>(sc: Scoring<T>, s1: seq<T>, s2: seq<T>, left: seq<int>, right: seq<int>)
    : (r: Result<Alignment<T>>)
    requires |s1| > 1 && |s2| > 1 && |left| == |s2| + 1
    ensures r.Err? ==> r.error == UnknownSymbol || r.error == OutOfBounds || r.error == CombineError
    ensures |right| != |left| ==> r == Err(CombineError)
    ensures |right| == |left| ==> r.Err? ==> r.error != CombineError
    decreases |s1|, 0
  {
    if |left| != |right| || left == [] then Err(CombineError)
    else
      var k := SplitColumn(left, right);
      Join(Aligned(sc, s1[..|s1| / 2], s2[..k + 1]), Aligned(sc, s1[|s1| / 2..], s2[k + 1..]))
  }

  /** Appending the right sub-result to the left one: the first failure is
      passed on, otherwise the symbols are concatenated and the scores added. */
  function Join<T>(first: Result<Alignment<T>>, second: Result<Alignment<T>>): (r: Result<Alignment<T>>)
    ensures first.Err? ==> r == first.PropagateFailure()
    ensures first.Ok? && second.Err? ==> r == second.PropagateFailure()
    ensures r.Ok? ==> first.Ok? && second.Ok?
                      && r.value.symbols == first.value.symbols + second.value.symbols
                      && r.value.score == first.value.score + second.value.score
  {
    var a :- first;
    var b :- second;
    Ok(Alignment(a.symbols + b.symbols, a.score + b.score))
  }

  /** hirschberg_rec: the base case delegates to the exact aligner; the
      recursive case runs both scans, picks the split column and appends the
      right result to the left one. */
  method HirschbergRec<T>(sc: Scoring<T>, s1: seq<T>, s2: seq<T>) returns (r: Result<Alignment<T>>)
    requires sc.Indexable()
    ensures r == Aligned(sc, s1, s2)
    ensures |s1| <= 1 || |s2| <= 1 ==> r == ExactAlignment(sc, s1, s2)
    decreases |s1|, 1
  {
    if |s1| <= 1 || |s2| <= 1 {
      r := NeedlemanWunsch(sc, s1, s2);
      return;
    }
    r := DividedRec(sc, s1, s2);
  }

  /** The recursive case of hirschberg_rec: the forward and the backward scan,
      the combine check, the split column and the two recursive calls. */
  method DividedRec<T>(sc: Scoring<T>, s1: seq<T>, s2: seq<T>) returns (r: Result<Alignment<T>>)
    requires sc.Indexable() && |s1| > 1 && |s2| > 1
    ensures r == Divided(sc, s1, s2)
    decreases |s1|, 0
  {
    var mid := |s1| / 2;
    var forward := ScoreColumn(sc, s1[..mid], s2);
    assert forward == ForwardColumn(sc, s1, s2);
    if forward.Err? {
      assert Divided(sc, s1, s2) == Err(forward.error);
      return Err(forward.error);
    }
    var left := forward.value;
    var backward := ScoreColumn(sc, Reverse(s1)[..mid], Reverse(s2));
    if backward.Err? {
      assert Divided(sc, s1, s2) == Err(backward.error);
      return Err(backward.error);
    }
    var right := Reverse(backward.value);
    assert BackwardColumn(sc, s1, s2) == Ok(right);
    if |left| != |right| || left == [] {
      // Both columns have |s2| + 1 entries (SplitShape): never taken.
      assert false;
      return Err(CombineError);
    }
    var k := SplitIndex(left, right);
    assert k == SplitColumn(ForwardColumn(sc, s1, s2).value, BackwardColumn(sc, s1, s2).value);
    DividedUnfold(sc, s1, s2, mid, k);
    var first := HirschbergRec(sc, s1[..mid], s2[..k + 1]);
    if first.Err? {
      return Err(first.error);
    }
    var second := HirschbergRec(sc, s1[mid..], s2[k + 1..]);
    if second.Err? {
      return Err(second.error);
    }
    r := Join(first, second);
  }

  /** Once both scans succeed, the recursive case is the join of the two
      sub-problems cut at the split column. */
  lemma DividedUnfold<T>(sc: Scoring<T>, s1: seq<T>, s2: seq<T>, mid: nat, k: nat)
    requires |s1| > 1 && |s2| > 1 && mid == |s1| / 2
    requires ForwardColumn(sc, s1, s2).Ok? && BackwardColumn(sc, s1, s2).Ok?
    requires k == SplitColumn(ForwardColumn(sc, s1, s2).value, BackwardColumn(sc, s1, s2).value)
    ensures k < |s2|
    ensures Divided(sc, s1, s2) == Join(Aligned(sc, s1[..mid], s2[..k + 1]), Aligned(sc, s1[mid..], s2[k + 1..]))
  {
    var left, right := ForwardColumn(sc, s1, s2).value, BackwardColumn(sc, s1, s2).value;
    assert Divided(sc, s1, s2) == Combine(sc, s1, s2, left, right);
    CombineUnfold(sc, s1, s2, left, right, mid, k);
  }

  lemma CombineUnfold<T>(sc: Scoring<T>, s1: seq<T>, s2: seq<T>, left: seq<int>, right: seq<int>, mid: nat, k: nat)
    requires |s1| > 1 && |s2| > 1 && mid == |s1| / 2
    requires |left| == |right| == |s2| + 1 && k == SplitColumn(left, right)
    ensures k < |s2|
    ensures Combine(sc, s1, s2, left, right) == Join(Aligned(sc, s1[..mid], s2[..k + 1]), Aligned(sc, s1[mid..], s2[k + 1..]))
  {
  }

  /** The split-column loop of hirschberg_rec: start from index 1 and move to
      a later index only on a strictly larger sum. */
  method SplitIndex(left: seq<int>, right: seq<int>) returns (k: nat)
    requires |left| == |right| >= 2
    ensures k == SplitColumn(left, right)
    ensures k + 1 < |left|
  {
    ghost var sums := Sums(left, right);
    var best := left[1] + right[1];
    k := 0;
    for i := 2 to |left|
      invariant k + 1 == ArgMax(sums[..i], 1)
      invariant best == left[k + 1] + right[k + 1]
    {
      assert sums[..i + 1][..i] == sums[..i];
      if best < left[i] + right[i] {
        best := left[i] + right[i];
        k := i - 1;
      }
    }
    assert sums[..|left|] == sums;
  }

  /** hirschberg: reject a matrix that is not square and a symbol map whose
      size differs from the number of rows, then run the driver. */
  method Hirschberg<T>(sc: Scoring<T>, s1: seq<T>, s2: seq<T>) returns (r: Result<Alignment<T>>)
    requires sc.matrix.IsSquare() && sc.matrix.RowsCount() == |sc.symbols| ==>
             forall a :: a in sc.symbols ==> sc.symbols[a] < sc.matrix.RowsCount()
    ensures !sc.matrix.IsSquare() ==> r == Err(InvalidMatrixShape)
    ensures sc.matrix.IsSquare() && sc.matrix.RowsCount() != |sc.symbols| ==> r == Err(MapSizeMismatch)
    ensures sc.matrix.IsSquare() && sc.matrix.RowsCount() == |sc.symbols| ==> r == Aligned(sc, s1, s2)
  {
    if !sc.matrix.IsSquare() {
      return Err(InvalidMatrixShape);
    }
    if sc.matrix.RowsCount() != |sc.symbols| {
      return Err(MapSizeMismatch);
    }
    r := HirschbergRec(sc, s1, s2);
  }

  /** The aligned symbols are always a subsequence of the first sequence. */
  lemma {:induction false} AlignedSubsequence<T>(sc: Scoring<T>, s1: seq<T>, s2: seq<T>)
    requires Aligned(sc, s1, s2).Ok?
    ensures IsSubsequence(Aligned(sc, s1, s2).value.symbols, s1)
    decreases |s1|
  {
    if |s1| <= 1 || |s2| <= 1 {
      ExactSymbolsSubsequence(sc, s1, s2);
    } else {
      CombinedResult(sc, s1, s2);
      SplitShape(sc, s1, s2);
      var mid := |s1| / 2;
      var k := SplitColumn(ForwardColumn(sc, s1, s2).value, BackwardColumn(sc, s1, s2).value);
      var first := Aligned(sc, s1[..mid], s2[..k + 1]).value;
      var second := Aligned(sc, s1[mid..], s2[k + 1..]).value;
      AlignedSubsequence(sc, s1[..mid], s2[..k + 1]);
      AlignedSubsequence(sc, s1[mid..], s2[k + 1..]);
      SubsequenceConcat(first.symbols, s1[..mid], second.symbols, s1[mid..]);
    }
  }

  /** When every symbol of both sequences is in the map, the driver never
      fails with UnknownSymbol. */
  lemma {:induction false} KnownSymbolsAreFound<T>(sc: Scoring<T>, s1: seq<T>, s2: seq<T>)
    requires sc.Known(s1) && sc.Known(s2)
    ensures Aligned(sc, s1, s2) != Err(UnknownSymbol)
    decreases |s1|
  {
    if |s1| <= 1 || |s2| <= 1 {
      ExactOutcome(sc, s1, s2);
    } else {
      var mid := |s1| / 2;
      KnownScansSucceed(sc, s1, s2);
      var k := SplitColumn(ForwardColumn(sc, s1, s2).value, BackwardColumn(sc, s1, s2).value);
      DividedUnfold(sc, s1, s2, mid, k);
      KnownPieces(sc, s1, s2, mid, k);
      KnownSymbolsAreFound(sc, s1[..mid], s2[..k + 1]);
      KnownSymbolsAreFound(sc, s1[mid..], s2[k + 1..]);
      assert Aligned(sc, s1, s2) == Divided(sc, s1, s2);
    }
  }

  lemma KnownPieces<T>(sc: Scoring<T>, s1: seq<T>, s2: seq<T>, mid: nat, k: nat)
    requires sc.Known(s1) && sc.Known(s2) && mid <= |s1| && k < |s2|
    ensures sc.Known(s1[..mid]) && sc.Known(s1[mid..]) && sc.Known(s2[..k + 1]) && sc.Known(s2[k + 1..])
  {
    KnownSlice(sc, s1, 0, mid);
    KnownSlice(sc, s1, mid, |s1|);
    KnownSlice(sc, s2, 0, k + 1);
    KnownSlice(sc, s2, k + 1, |s2|);
    assert s1[0..mid] == s1[..mid] && s1[mid..|s1|] == s1[mid..];
    assert s2[0..k + 1] == s2[..k + 1] && s2[k + 1..|s2|] == s2[k + 1..];
  }

  lemma KnownSlice<T>(sc: Scoring<T>, s: seq<T>, a: nat, b: nat)
    requires sc.Known(s) && a <= b <= |s|
    ensures sc.Known(s[a..b])
  {
    assert forall i :: 0 <= i < b - a ==> s[a..b][i] == s[a + i];
  }

  /** When every symbol is in the map both scans of the recursive case
      succeed. */
  lemma KnownScansSucceed<T>(sc: Scoring<T>, s1: seq<T>, s2: seq<T>)
    requires sc.Known(s1) && sc.Known(s2) && |s1| > 1
    ensures ForwardColumn(sc, s1, s2).Ok? && BackwardColumn(sc, s1, s2).Ok?
  {
    var mid := |s1| / 2;
    KnownSlice(sc, s1, 0, mid);
    assert s1[0..mid] == s1[..mid];
    assert sc.Known(Reverse(s1));
    KnownSlice(sc, Reverse(s1), 0, mid);
    assert Reverse(s1)[0..mid] == Reverse(s1)[..mid];
    assert sc.Known(Reverse(s2));
  }

  /** In the recursive case, when both scans succeed, the two columns have
      |s2| + 1 entries each (so the combine check never fails), the split
      column lies in 0..|s2| - 1, and the two sub-problems cut both sequences
      into pieces that concatenate back to them, the first sequence into two
      strictly shorter ones. */
  lemma SplitShape<T>(sc: Scoring<T>, s1: seq<T>, s2: seq<T>)
    requires |s1| > 1 && |s2| > 1
    requires ForwardColumn(sc, s1, s2).Ok? && BackwardColumn(sc, s1, s2).Ok?
    ensures |ForwardColumn(sc, s1, s2).value| == |BackwardColumn(sc, s1, s2).value| == |s2| + 1
    ensures SplitColumn(ForwardColumn(sc, s1, s2).value, BackwardColumn(sc, s1, s2).value) < |s2|
    ensures var k := SplitColumn(ForwardColumn(sc, s1, s2).value, BackwardColumn(sc, s1, s2).value);
            s2[..k + 1] + s2[k + 1..] == s2
    ensures s1[..|s1| / 2] + s1[|s1| / 2..] == s1
    ensures 0 < |s1[..|s1| / 2]| < |s1| && 0 < |s1[|s1| / 2..]| < |s1|
  {
    var k := SplitColumn(ForwardColumn(sc, s1, s2).value, BackwardColumn(sc, s1, s2).value);
    assert s2[..k + 1] + s2[k + 1..] == s2;
    assert s1[..|s1| / 2] + s1[|s1| / 2..] == s1;
  }

  /** In the recursive case a successful result is the left sub-result's
      symbols followed by the right's, with the two scores added, where the
      sub-problems are cut at the split column of the two scans. */
  lemma CombinedResult<T>(sc: Scoring<T>, s1: seq<T>, s2: seq<T>)
    requires |s1| > 1 && |s2| > 1 && Aligned(sc, s1, s2).Ok?
    ensures ForwardColumn(sc, s1, s2).Ok? && BackwardColumn(sc, s1, s2).Ok?
    ensures var k := SplitColumn(ForwardColumn(sc, s1, s2).value, BackwardColumn(sc, s1, s2).value);
            var first := Aligned(sc, s1[..|s1| / 2], s2[..k + 1]);
            var second := Aligned(sc, s1[|s1| / 2..], s2[k + 1..]);
            first.Ok? && second.Ok? &&
            Aligned(sc, s1, s2).value ==
              Alignment(first.value.symbols + second.value.symbols, first.value.score + second.value.score)
  {
    AlignedIsDivided(sc, s1, s2);
    DividedScans(sc, s1, s2);
    var k := SplitColumn(ForwardColumn(sc, s1, s2).value, BackwardColumn(sc, s1, s2).value);
    var first := Aligned(sc, s1[..|s1| / 2], s2[..k + 1]);
    var second := Aligned(sc, s1[|s1| / 2..], s2[k + 1..]);
    DividedUnfold(sc, s1, s2, |s1| / 2, k);
    assert Aligned(sc, s1, s2) == Join(first, second);
  }

  /** With both sequences longer than 1, hirschberg_rec takes the recursive case. */
  lemma AlignedIsDivided<T>(sc: Scoring<T>, s1: seq<T>, s2: seq<T>)
    requires |s1| > 1 && |s2| > 1
    ensures Aligned(sc, s1, s2) == Divided(sc, s1, s2)
  {
  }

  /** A recursive case that succeeds had both scans succeed. */
  lemma DividedScans<T>(sc: Scoring<T>, s1: seq<T>, s2: seq<T>)
    requires |s1| > 1 && |s2| > 1 && Divided(sc, s1, s2).Ok?
    ensures ForwardColumn(sc, s1, s2).Ok? && BackwardColumn(sc, s1, s2).Ok?
  {
  }

  /** The backward scan reads the last mid = |s1| / 2 symbols of the first
      sequence, reversed, while the right recursive call receives the last
      |s1| - mid. For odd |s1| these differ: the middle symbol s1[mid] is in
      the right sub-problem but not in the backward scan. */
  lemma BackwardScanInput<T>(s1: seq<T>)
    ensures Reverse(s1)[..|s1| / 2] == Reverse(s1[|s1| - |s1| / 2..])
    ensures |s1| % 2 == 0 ==> Reverse(s1)[..|s1| / 2] == Reverse(s1[|s1| / 2..])
    ensures |s1| % 2 == 1 ==> Reverse(s1)[..|s1| / 2] == Reverse(s1[|s1| / 2 + 1..])
                              && |s1[|s1| / 2..]| == |s1| / 2 + 1
  {
    ReversePrefix(s1, |s1| / 2);
  }
}
