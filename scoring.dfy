/** The score model the engine reads: a substitution matrix, the map from
    symbols to matrix indices, and the linear gap penalty; plus the outcome
    types shared by the alignment operations. */
module Scoring {

  datatype Option<T> = None | Some(value: T)

  /** Why an alignment produced no result. */
  datatype Error =
    | InvalidMatrixShape  // the matrix is not square
    | MapSizeMismatch     // the symbol map does not have one entry per matrix row
    | UnknownSymbol       // a looked-up symbol is missing from the map (map.at throws)
    | CombineError        // the two score columns cannot be combined
    | OutOfBounds         // a vector is indexed past its end (undefined behaviour in C++)

  datatype Result<R> = Ok(value: R) | Err(error: Error) {
    predicate IsFailure() {
      Err?
    }

    function PropagateFailure<U>(): Result<U>
      requires Err?
    {
      Err(error)
    }

    function Extract(): R
      requires Ok?
    {
      value
    }
  }

  /** A matrix of scores stored row by row. */
  datatype Matrix = Matrix(cells: seq<seq<int>>) {
    predicate IsSquare() {
      forall r :: 0 <= r < |cells| ==> |cells[r]| == |cells|
    }

    function RowsCount(): nat {
      |cells|
    }

    function At(i: nat, j: nat): int
      requires IsSquare() && i < RowsCount() && j < RowsCount()
    {
      cells[i][j]
    }
  }

  /** The aligned symbols of the first sequence and the alignment score. */
  datatype Alignment<T> = Alignment(symbols: seq<T>, score: int)

  datatype Scoring<T(==)> = Scoring(symbols: map<T, nat>, matrix: Matrix, gap: int) {

    /** Every lookup the engine performs stays inside the matrix: the matrix is
        square and every symbol maps to one of its rows. The source checks the
        first half of this and takes the second on trust. */
    predicate Indexable() {
      matrix.IsSquare() && forall a :: a in symbols ==> symbols[a] < matrix.RowsCount()
    }

    /** `map.at`: the index of a symbol, or nothing when it is not in the map. */
    function IndexOf(a: T): (r: Option<nat>)
      ensures r.Some? <==> a in symbols
      ensures r.Some? ==> r.value == symbols[a]
    {
      if a in symbols then Some(symbols[a]) else None
    }

    /** The substitution score of `a` against `b`. Only ever observed for
        symbols that are in the map; 0 stands for a lookup that fails. */
    function Score(a: T, b: T): int {
      if a in symbols && b in symbols && symbols[a] < |matrix.cells|
         && symbols[b] < |matrix.cells[symbols[a]]|
      then matrix.cells[symbols[a]][symbols[b]]
      else 0
    }

    /** Every symbol of `s` is in the map. */
    predicate Known(s: seq<T>) {
      forall k :: 0 <= k < |s| ==> s[k] in symbols
    }

    /** The table over `s1` and `s2` only looks symbols up when both are
        non-empty, and then it looks up every symbol of both. */
    predicate Scorable(s1: seq<T>, s2: seq<T>) {
      |s1| == 0 || |s2| == 0 || (Known(s1) && Known(s2))
    }
  }
}
