# Hirschberg sequence alignment: a Dafny model

This project models the alignment engine of a small C++ program. It also
models the program's FASTA-style record reader. The engine aligns two
symbol sequences with Hirschberg's divide-and-conquer method under a
substitution matrix and a linear gap penalty. It has four parts:

- **`hirschberg`** is the validating entry point. It rejects a matrix that is
  not square and a symbol map whose size differs from the matrix's row count.
- **`hirschberg_dp`** is the linear-space column scanner. It keeps one rolling
  vector that ends up holding the last row of the Needleman–Wunsch table.
- **`needleman_wunsch_unoptimized`** is the quadratic-space exact aligner. It
  fills the whole table, takes the first maximum of its last row, and traces
  back to recover the aligned symbols of the first sequence.
- **`hirschberg_rec`** is the recursive driver. It cuts the first sequence in
  half, scans forward and backward, picks a split column in the second
  sequence, recurses on both halves and joins the results.

The record reader `read_dnas` takes a sequence of text lines. A line that
starts with `>` opens a record, whose id is taken from between `|`
characters. Every other non-empty line is appended to the body of the most
recent record.

The model follows the code as written, including three places where the
code departs from the textbook algorithm:

- The exact aligner's border loop runs over the rows but writes row 0. It
  goes past the end of row 0 when the first sequence is the longer one, and
  it leaves the row-0 entries past column `|s1|` at 0.
- The traceback starts in row `max_index`, column `|s1|`: row and column are
  swapped. It leaves the table when `0 < |s1| < max_index`.
- For odd lengths, the backward scan reads only the last ⌊L/2⌋ symbols of the
  first sequence. The right recursive call receives ⌈L/2⌉ of them.

An out-of-range vector access is undefined behaviour in C++. Here it becomes
the explicit outcome `Err(OutOfBounds)` in the aligner, and `BodyBeforeHeader`
in the reader (`back()` on an empty vector). A failed `map.at` becomes
`Err(UnknownSymbol)`, and each of the `throw`s becomes an `Err` of its own.

Modules, one file each:

- `Seqs` (seqs.dfy): reversal, the subsequence relation and the earliest-maximum scan.
- `Scoring` (scoring.dfy): the matrix, the symbol map, the gap, and the result types.
- `Table` (table.dfy): the dynamic-programming recurrence, with row 0 as a parameter.
- `ColumnScanner` (column_scanner.dfy): `hirschberg_dp` over an `array`.
- `ExactAligner` (exact_aligner.dfy): `needleman_wunsch_unoptimized` over an `array2`.
- `Hirschberg` (hirschberg.dfy): `hirschberg_rec` and `hirschberg`.
- `DnaReader` (dna_reader.dfy): `read_dnas`.
- `Scenarios` (scenarios.dfy): runs of the driver on a two-symbol alphabet,
  worked out by proof.

The imperative functions are Dafny methods with loops:

- `ScoreColumn` and `NextRow` model `hirschberg_dp`.
- `NeedlemanWunsch`, `FillBorder`, `FillInner`, `FirstMaxColumn` and `TraceBack` model the exact aligner.
- `SplitIndex` models the split-column loop.
- `ReadDnas` models `read_dnas`.

Each of these methods is proved equal to a specification function:

- `Scan` for the column scanner;
- `ExactAlignment` for the exact aligner;
- `SplitColumn` for the split-column loop;
- `Aligned` and `Divided` for the driver;
- `Resume` for the reader.

The properties the source promises are proved as lemmas about those functions.

## Model

| member | source | states |
|---|---|---|
| Table.Cell | Hirschberg.cpp:149-158 | The recurrence with row 0 given: column 0 is `i·gap`, and an inner cell is the best of the diagonal step scored by the matrix, the step down plus `gap` and the step right plus `gap` (reference definition, no contract). |
| Table.Textbook | Hirschberg.cpp:111-130 | `T(i, j)`: the recurrence with the textbook row 0 `j·gap` (reference definition; its properties are `TextbookRecurrence` and `TextbookBorders`). |
| Table.GapRow | Hirschberg.cpp:111-114 | The border row `[0, gap, 2·gap, …]` has `|s2| + 1` entries. |
| ColumnScanner.LastRow | Hirschberg.cpp:111-133 | Row `|s1|` of the textbook table has `|s2| + 1` entries (reference for `ScoreColumn`). |
| ExactAligner.Grid | Hirschberg.cpp:143-158 | The aligner's cell `(i, j)`: the recurrence over row 0 as the border loop writes it (reference definition, no contract). |
| ExactAligner.Rows | Hirschberg.cpp:143-158 | The aligner's whole table has `|s1| + 1` rows of `|s2| + 1` entries. |
| ExactAligner.BottomRow | Hirschberg.cpp:160-167 | The last row that the maximum scan reads has `|s2| + 1` entries. |
| ExactAligner.Walk | Hirschberg.cpp:173-183 | The traceback's emitted symbols from `(i, j)`: up-gap tested first, then left-gap, else a diagonal step that emits `s1[i - 1]` (reference definition; its properties are `WalkSubsequence` and `WalkWithinFirst`). |
| Scoring.Scoring.Score | Hirschberg.cpp:124 | `matrix(map[a], map[b])`, the substitution score of two mapped symbols (reference definition, no contract). |
| Scoring.Matrix.IsSquare | Hirschberg.cpp:23 | `is_square`: every row has as many entries as there are rows (reference definition). |
| Scoring.Matrix.RowsCount | Hirschberg.cpp:26 | `rows_count`: the number of rows (reference definition). |
| DnaReader.HeaderId | main.cpp:125-127 | The id of a header line: from just after the first `|` (from index 0 when there is none, as `npos + 1` wraps to 0) up to the next `|` or the end of the line (reference definition; its properties are the `HeaderId…` lemmas). |
| DnaReader.Lead | main.cpp:115-131 | The body text before the first header: the non-header lines up to it, concatenated (reference definition). |
| DnaReader.Records | main.cpp:119-131 | One record per header line, with the header's id and the `Lead` of the lines after it (reference definition; its properties are `RecordsCount` and `RecordAtHeader`). |
| Hirschberg.Hirschberg | Hirschberg.cpp:23-31 | A non-square matrix gives `InvalidMatrixShape`. A row count different from the map size gives `MapSizeMismatch`. Otherwise the result is the driver's, unchanged. |
| Hirschberg.HirschbergRec | Hirschberg.cpp:56-102 | The recursive driver computes `Aligned`. When either sequence has length at most 1, its result is the exact aligner's, unchanged. |
| Hirschberg.Aligned | Hirschberg.cpp:57-59 | The driver fails only with `UnknownSymbol` or `OutOfBounds`. |
| Hirschberg.DividedRec | Hirschberg.cpp:61-101 | The recursive case, run step by step (scans, combine check, split loop, two recursive calls), equals `Divided`. |
| Hirschberg.Divided | Hirschberg.cpp:61-76 | The recursive case never fails with `CombineError`: its only errors are `UnknownSymbol` and `OutOfBounds`. |
| Hirschberg.Combine | Hirschberg.cpp:74-96 | Columns of different lengths give `CombineError` (an empty column cannot occur, since the forward column has `|s2| + 1` entries). With equal lengths that error cannot occur, and every other error is `UnknownSymbol` or `OutOfBounds`. |
| Hirschberg.Join | Hirschberg.cpp:98-101 | The first failing sub-result is passed on. Otherwise the symbols are the left's followed by the right's, and the score is their sum. |
| Hirschberg.ForwardColumn | Hirschberg.cpp:62-66 | A successful forward scan has `|s2| + 1` entries. |
| Hirschberg.BackwardColumn | Hirschberg.cpp:67-72 | A successful backward scan, reversed, has `|s2| + 1` entries. |
| Hirschberg.SplitColumn | Hirschberg.cpp:78-85 | `k + 1` is the smallest index in `1..|left|-1` at which `left[i] + right[i]` is largest. |
| Hirschberg.SplitIndex | Hirschberg.cpp:78-85 | The strict-`<` scan starting at index 1 returns `SplitColumn`, so `k + 1 < |left|`. |
| Hirschberg.SplitShape | Hirschberg.cpp:74-96 | Both columns have `|s2| + 1` entries, so the combine throw cannot fire. The split satisfies `k < |s2|`. `s2[..k+1] + s2[k+1..] == s2`. `s1` splits into two non-empty, strictly shorter halves that concatenate back to it. |
| Hirschberg.DividedUnfold | Hirschberg.cpp:87-96 | When both scans succeed, the recursive case is the join of the driver on `(s1[..mid], s2[..k+1])` and on `(s1[mid..], s2[k+1..])`, with `k < |s2|`. |
| Hirschberg.CombinedResult | Hirschberg.cpp:98-101 | A successful recursive result had both scans and both sub-results succeed. Its symbols are the left's followed by the right's, and its score is the sum of theirs. |
| Hirschberg.DividedScans | Hirschberg.cpp:61-72 | A successful recursive case had both scans succeed. |
| Hirschberg.AlignedIsDivided | Hirschberg.cpp:57-61 | With both sequences longer than 1, the driver takes the recursive case. |
| Hirschberg.AlignedSubsequence | Hirschberg.cpp:87-101 | The driver's output symbols are always a subsequence of the first sequence. |
| Hirschberg.KnownSymbolsAreFound | Hirschberg.cpp:57-101 | When every symbol of both sequences is in the map, the driver never fails with `UnknownSymbol`. |
| Hirschberg.KnownScansSucceed | Hirschberg.cpp:61-72 | When every symbol is in the map, both scans succeed. |
| Hirschberg.BackwardScanInput | Hirschberg.cpp:67-72 | The backward scan reads the last ⌊L/2⌋ symbols of `s1`, reversed. For odd L that is one fewer than the right recursive call receives at line 94: the middle symbol is left out. |
| ColumnScanner.ScoreColumn | Hirschberg.cpp:111-133 | The result has `|s2| + 1` entries, and entry `j` is `T(|s1|, j)` of the textbook recurrence. An empty `s1` gives `[0, gap, 2·gap, …]`. The scan fails with `UnknownSymbol` iff a symbol of `s1`, or of `s2` when `s1` is non-empty, is missing from the map. |
| ColumnScanner.NextRow | Hirschberg.cpp:119-130 | One outer pass turns row `i` into row `i + 1` in place. The loop invariant: `dp[0..j]` holds the new row, `dp[j+1..]` holds the old one, and `prev` holds the old entry `j`. The pass fails iff a symbol of `s2` is unknown. |
| ColumnScanner.Scan | Hirschberg.cpp:111-133 | A successful scan has `|s2| + 1` entries. |
| Table.TextbookRecurrence | Hirschberg.cpp:124-126 | `T(i, j)` is at least each of the diagonal, up and left predecessors plus their costs, and equals one of them. |
| Table.TextbookBorders | Hirschberg.cpp:111-114 | `T(i, 0) = i·gap` and `T(0, j) = j·gap`. |
| Table.CellDependsOnTopPrefix | Hirschberg.cpp:149-158 | A cell depends only on the part of row 0 up to its own column. |
| ExactAligner.NeedlemanWunsch | Hirschberg.cpp:143-187 | The array implementation (border, inner cells, maximum scan, traceback) computes `ExactAlignment`. |
| ExactAligner.ExactAlignment | Hirschberg.cpp:143-187 | The exact aligner fails only with `UnknownSymbol` or `OutOfBounds`. |
| ExactAligner.ExactOutcome | Hirschberg.cpp:143-170 | `|s1| > |s2|` gives `OutOfBounds`. `UnknownSymbol` occurs iff `|s1| <= |s2|` and a looked-up symbol is missing. `OutOfBounds` occurs iff `|s1| > |s2|`, or every looked-up symbol is known and the traceback row `max_index` exceeds a non-zero `|s1|`. The score is the maximum of the last row, attained first at some column. |
| ExactAligner.FillBorder | Hirschberg.cpp:143-147 | The border loop stays in bounds iff `|s1| <= |s2|`. Then row 0 is `j·gap` up to column `|s1|` and 0 after it, and column 0 is `i·gap`. |
| ExactAligner.WrittenBorder | Hirschberg.cpp:143-146 | Row 0 as written has `|s2| + 1` entries. |
| ExactAligner.FillInner | Hirschberg.cpp:149-158 | Filling succeeds iff every looked-up symbol is in the map. Then every cell equals `Grid`. |
| ExactAligner.FirstMaxColumn | Hirschberg.cpp:160-167 | The strict scan of the last row returns its first maximum. |
| ExactAligner.TraceBack | Hirschberg.cpp:172-185 | The traceback fails iff `0 < |s1| < max_index`. Otherwise it emits `Walk`: up-gap first, then left-gap, else diagonal, emitting only on diagonal steps, reversed at the end. |
| ExactAligner.ExactEmptyFirst | Hirschberg.cpp:143-187 | An empty first sequence aligns to `([], 0)`. |
| ExactAligner.WalkSubsequence | Hirschberg.cpp:173-183 | The traceback from `(i, j)` emits a subsequence of `s1[..i]`, at most one symbol per row and per column. |
| ExactAligner.WalkWithinFirst | Hirschberg.cpp:172-185 | The traceback from row `i` emits a subsequence of `s1` of length at most `i`. |
| ExactAligner.ExactSymbolsSubsequence | Hirschberg.cpp:172-185 | The aligned symbols, once reversed, are a subsequence of `s1` in its original order, and `|symbols| <= |s1| <= |s2|`. |
| ExactAligner.GridIsTextbookUpToColumn | Hirschberg.cpp:143-158 | The aligner's table equals the textbook table in every column up to `|s1|`. |
| ExactAligner.EqualLengthsBottomRow | Hirschberg.cpp:143-158 | For sequences of equal length, the aligner's last row is the column scanner's. |
| ExactAligner.BorderDeparts | Hirschberg.cpp:143-146 | With a non-zero gap, the row-0 entries past column `|s1|` are 0, not the textbook `j·gap`. |
| ExactAligner.EmitStep | Hirschberg.cpp:179-185 | One diagonal step moves the emitted symbol from the walk still to do to the front of the reversed output. |
| Seqs.ArgMax | Hirschberg.cpp:160-167 | The index of the first maximum of `row[lo..]`. |
| Seqs.ArgMaxUnique | Hirschberg.cpp:160-167 | The earliest-maximum property determines that index uniquely. |
| Seqs.Reverse | Hirschberg.cpp:185 | `std::reverse`: the same length, with entry `k` equal to entry `|s|-1-k` of the input. |
| Seqs.ReversePrefix | Hirschberg.cpp:68-69 | The first `n` elements of the reversed sequence are the last `n` of the original, reversed. |
| Seqs.SubsequenceConcat | Hirschberg.cpp:98-99 | Subsequences of consecutive pieces concatenate to a subsequence of the joined pieces. |
| Scoring.Scoring.IndexOf | Hirschberg.cpp:117 | `map.at` finds a symbol iff it is in the map, and returns its index. |
| DnaReader.ReadDnas | main.cpp:112-137 | The line loop with its buffer and in-place vector updates computes `Resume(dnas0, "", lines)`. |
| DnaReader.Resume | main.cpp:112-137 | Reading fails iff the vector is empty and there is pending body text. |
| DnaReader.ResumeEnd | main.cpp:134-136 | At the end of input, any collected text becomes the body of the last record. |
| DnaReader.ResumeHeaderFails | main.cpp:120-123 | A header that finds collected text but no record fails. |
| DnaReader.ResumeBodyLine | main.cpp:129-131 | A non-header line is appended to the collected text. |
| DnaReader.ResumeHeaderLine | main.cpp:119-128 | A header stores the collected text in the last record, clears it, and appends a record with the header's id and an empty body. |
| DnaReader.ResumeKeepsEarlierRecords | main.cpp:119-128 | A successful read keeps every record already in the vector, and changes only the body of the last one. |
| DnaReader.SetLastBody | main.cpp:121-122 | `back().second = buf` replaces the last record's body and nothing else. |
| DnaReader.Find | main.cpp:125 | `find` returns the index of an occurrence of the character with none before it, or `npos` when no index below `npos` holds the character. |
| DnaReader.FindFirst | main.cpp:125 | The first occurrence is what `find` returns. |
| DnaReader.Substr | main.cpp:126-127 | `substr(pos, len)` returns at most `len` characters from `pos`, stopping early only at the end of the string. |
| DnaReader.HeaderIdHasNoBar | main.cpp:125-127 | An id never contains `|`: it ends before the next one, or at the end of the line. |
| DnaReader.HeaderIdBetweenBars | main.cpp:125-127 | The id is the text strictly between the first and second `|`. |
| DnaReader.HeaderIdAfterOnlyBar | main.cpp:125-127 | With only one `|`, the id runs to the end of the line. |
| DnaReader.HeaderIdWithoutBar | main.cpp:125-127 | With no `|`, `npos + 1` wraps to 0 and the id is the whole header line, `>` included. |
| DnaReader.RecordsCount | main.cpp:119-128 | Each header line contributes exactly one record. |
| DnaReader.ReadCount | main.cpp:119-128 | A successful read adds one record per header line to the vector. |
| DnaReader.RecordAtHeader | main.cpp:119-131 | The header at position `p` gives the record after those of the earlier headers. Its id is the header's, and its body is the concatenation of the non-header lines up to the next header. |
| DnaReader.LeadStopsAtHeader | main.cpp:129-131 | The body text before a header is the in-order concatenation of the lines before it. |
| DnaReader.LeadToEnd | main.cpp:129-136 | When no header follows, the body text is the in-order concatenation of all the remaining lines. |
| DnaReader.HeaderThenHeader | main.cpp:120-128 | A header immediately followed by another header, or by the end of input, keeps body `""`. |
| DnaReader.LeadNonEmpty | main.cpp:115-131 | There is body text before the first header iff some non-empty non-header line comes before any header. |
| DnaReader.ReadFails | main.cpp:120-136 | Reading fails (`back()` on an empty vector) iff the vector starts empty and a non-empty body line comes before any header. |
| DnaReader.EmptyLineSkipped | main.cpp:115-117 | Inserting an empty line anywhere changes nothing. |
| DnaReader.LeadSkipsEmpty | main.cpp:115-117 | An empty line adds nothing to a body. |
| DnaReader.RecordsSkipEmpty | main.cpp:115-117 | An empty line neither opens nor extends a record. |
| Scenarios.Small | Hirschberg.cpp:23-31 | The alphabet `{a, b}` with matrix `[[1,-1],[-1,1]]` and gap -2 passes the validation. |
| Scenarios.LongerFirstFails | Hirschberg.cpp:143-146 | `"ab"` against `"a"` goes past the end of row 0 in the border loop. |
| Scenarios.ShorterFirstTable | Hirschberg.cpp:143-158 | The table for `"a"` against `"ab"` is `[[0,-2,0],[-2,1,-1]]`. Its row 0 keeps a 0 in column 2. |
| Scenarios.ShorterFirstAligns | Hirschberg.cpp:160-187 | `"a"` against `"ab"` aligns to `("a", 1)`. |
| Scenarios.SingleSymbolTable | Hirschberg.cpp:143-158 | The table for one symbol against itself. |
| Scenarios.SingleSymbolAligns | Hirschberg.cpp:160-187 | One symbol against itself aligns to that symbol with score 1. |
| Scenarios.EqualPairForward | Hirschberg.cpp:62-66 | The forward column of `"ab"` against `"ab"` is `[-2, 1, -1]`. |
| Scenarios.EqualPairBackward | Hirschberg.cpp:67-72 | The backward column of `"ab"` against `"ab"` is `[-1, 1, -2]`. |
| Scenarios.EqualPairSplitColumn | Hirschberg.cpp:78-85 | Sums of `[-3, 2, -3]` put the split column at 0. |
| Scenarios.EqualPairSplit | Hirschberg.cpp:87-96 | `"ab"` against `"ab"` splits into `"a"`/`"a"` and `"b"`/`"b"`. |
| Scenarios.EqualPairHalves | Hirschberg.cpp:98-101 | The two halves join into `("ab", 2)`. |
| Scenarios.EqualPairAligns | Hirschberg.cpp:56-102 | The driver aligns `"ab"` against `"ab"` to `("ab", 2)`. |

## Left out

- The command-line part of main.cpp (argument parsing, `std::stol`, `freopen`, file checks and printing) is I/O plumbing and is not modelled.
- Reading the matrix from a file (IO.cpp) and the matrix class (Matrix.h) are not part of this model. The matrix is a sequence of integer rows with `is_square`, `rows_count` and an entry lookup.
- Hirschberg.Hirschberg: when the matrix is square and the map has one entry per row, it requires every value of the map to be below the row count. The source never checks this before delegating (Hirschberg.cpp:31), and a larger value would index past the matrix, which is undefined behaviour. The two rejecting branches have no such requirement.
- `long` arithmetic is modelled with unbounded integers: score overflow is not modelled.
- `read_dnas` takes a sequence of lines rather than a stream. `std::getline`'s splitting and any `'\r'` at line ends are not modelled.
- `read_dnas` changes its vector through a reference parameter. The model passes the vector in and returns the grown vector, or the failure.
- DnaReader.HeaderIdBetweenBars, DnaReader.HeaderIdAfterOnlyBar and DnaReader.HeaderIdWithoutBar: require the header line to be shorter than `npos`. A 64-bit `std::string` cannot be longer.
- DnaReader.Find: promises nothing about indices at or beyond `npos`, which no 64-bit `std::string` has.
- The model does not prove that the driver's score equals the optimal (exact aligner's) score. The code as written does not guarantee it: the row-0 border, the swapped traceback start and the shortened backward scan all break the correspondence.
- Undefined behaviour (indexing a vector past its end, `back()` on an empty vector) is modelled as an explicit failure outcome. The program's actual behaviour in those cases is unspecified.
- What the program actually returns when the first sequence is longer than the second (`"ab"` against `"a"`, say) is not modelled. It depends on the undefined behaviour in the border loop, and the model reports `OutOfBounds` instead (see `Scenarios.LongerFirstFails`).
