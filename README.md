# Determinant in log form: a Dafny model of the C and JavaScript readers and accumulators

The repository computes the sign and the natural log of the magnitude of
the determinant of a dense square matrix read from a CSV file. The C
program (`det-matrix-big.c`) and the JavaScript program
(`det-matrix-big.js`) follow the same steps:

1. Read the file and trim every line, dropping the blank ones.
2. Split each line at commas and parse the entries as finite numbers.
3. Check that the matrix is rectangular and square.
4. Pack the rows column-major (`A[j*n + i] = rows[i][j]`) for LAPACK.
5. Have `dgetrf` compute the LU factorization.
6. Read the determinant off the factors. The permutation sign comes from
   the pivot record `ipiv`. The sign and log magnitude come from the
   diagonal of U, which gives the singular answer `(0, -inf)` at
   `info > 0` or at the first exactly zero pivot.

This project models steps 1–4 and 6 of both programs in Dafny and proves
what they promise. Step 5 is a foreign call: the model receives what it
leaves behind.

Modules:

- `Common`:
  - `Option`, `Result` and `Double`. `Double` is a finite value as a
    `real`, or `±inf`, or `NaN`.
  - `CollectAll` and `MapResult`: apply a partial function to every
    element, first failure wins.
- `Text`:
  - the two whitespace classes: C `isspace` and JavaScript `trim`;
  - trimming and splitting at a character;
  - the token rule of `strtok_r`, which drops empty fields;
  - the "trim every line, drop the blank ones" filter.
- `ColumnMajor`: the layout `Offset(i, j, n) = j*n + i`, the packed image
  of a square of rows, and the packing loop `Pack`.
- `Pivots`:
  - LAPACK's pivot record;
  - the count-based permutation sign that both programs compute;
  - the explicit permutation the JavaScript program builds, and its sign
    by inversion parity;
  - the proof that the two signs agree.
- `LogDet`: the `(sign, logabs)` pair `SignLog`, the function `SlogDet` giving what
  both programs return once `dgetrf` succeeded, and its properties.
- `DetMatrixC`: `trim`, `strtok_r`, `parse_csv_line`, the `fgets` reading
  loop and `read_matrix_csv`, and `det_log_form` after its `dgetrf` call.
  These are imperative methods, each proved against a specification
  function.
- `DetMatrixJs`:
  - `readMatrix`'s `split`/`map`/`filter` pipeline as functions, with its
    throws as an error datatype;
  - the rectangularity loop and the packing loop as methods;
  - `detLogForm`'s `perm` array loops and diagonal scan as methods.

Parameters standing for code outside the model:

- The file text is a parameter `text`.
- C `strtod` is a parameter of type `Strtod`. It returns the value and the
  number of characters consumed.
- JavaScript `parseFloat` is a parameter `string -> Double`.
- `log(|u|)` is a parameter `log: real -> real`.
- The diagonal scans take the LU buffer, `info` and `ipiv` as `dgetrf`
  leaves them.

Behaviour the model keeps that differs between the programs:

- **Empty fields.** C `strtok_r` skips empty fields, so `1,,2` has two
  entries. JavaScript `split(',')` keeps them, so `1,,2` has three entries
  and `parseFloat("")` is `NaN`, which throws.
- **Error reporting.** C reports failure without a reason. JavaScript
  throws one of four errors, which keep the values their messages
  interpolate.
- **Sign of a pivot.** C uses `(uii > 0.0) ? 1 : -1` and JavaScript uses
  `Math.sign`. They agree on every nonzero pivot (`SignProductOfNonzero`).
  Both programs give the same answer for the same factorization
  (`SlogDetShape`).
- **Line endings.** JavaScript splits at `\r?\n`, but `trim` removes the
  carriage return anyway (`CarriageReturnsIrrelevant`).
- **Trailing text after a number.** C rejects a token that has anything but
  whitespace after the number `strtod` read (line 71 of the C file), so
  `1abc` fails. JavaScript's `parseFloat` accepts any finite numeric prefix,
  so `1abc` reads as 1. The model keeps both: `Accepts` tests what `strtod`
  consumed, and `ParseEntry` only tests that the value is finite.
- **Long lines.** C reads through a 65536-byte `fgets` buffer, so a
  physical line longer than 65535 characters arrives as several pieces.
  Each piece is then treated as a line of its own. The model keeps this
  (`FgetsLength`, `FgetsLines`).

## Model

| member | source | states |
|---|---|---|
| Text.IsCSpace | det-matrix-big.c:35-38 | `isspace((unsigned char)c)` in the C locale: space, tab, newline, vertical tab, form feed and carriage return; the class of every C trim (lines 59, 71 and 104) |
| Text.IsJsSpace | det-matrix-big.js:19 | the characters `String.prototype.trim` removes, used at lines 19 and 30: ECMAScript WhiteSpace (tab, VT, FF, space, NBSP, ZWNBSP, the Zs category) and LineTerminator (LF, CR, LS, PS) |
| Text.SpaceClassesAgreeOnAscii | det-matrix-big.js:19 | every C `isspace` character is removed by JavaScript `trim`, and on ASCII the two whitespace classes are the same |
| Text.Trim | det-matrix-big.c:33-41 | the string with its leading whitespace and then its trailing whitespace (under the given class) removed; never longer than the input |
| Text.TrimShape | det-matrix-big.c:33-41 | the trimmed string is the contiguous piece of the input after the leading whitespace; only whitespace lies on either side of it; it neither starts nor ends with whitespace; it is empty exactly when the input is all whitespace |
| Text.TrimIdempotent | det-matrix-big.c:59-71 | trimming an already trimmed string changes nothing |
| Text.TrimSnocSpace | det-matrix-big.js:18-19 | one more whitespace character at the end does not change the trimmed line |
| Text.Split | det-matrix-big.js:28 | `split(sep)` with a one-character separator: the pieces between separators, empty ones included, always at least one |
| Text.SplitFree | det-matrix-big.js:28 | no piece of `split(sep)` contains the separator |
| Text.JoinOfSplit | det-matrix-big.js:28 | joining the pieces of `split(sep)` with `sep` gives back the input, so splitting loses nothing |
| Text.SplitOfJoin | det-matrix-big.js:28 | splitting the join of separator-free pieces gives back the pieces |
| Text.Tokens | det-matrix-big.c:56-78 | the successive `strtok_r` tokens: skip separators, take the run up to the next separator, repeat until the end of the string |
| Text.TokensShape | det-matrix-big.c:56-78 | every `strtok_r` token is nonempty and contains no comma |
| Text.TokensAreNonEmptyPieces | det-matrix-big.c:56-78 | the `strtok_r` tokens are exactly the nonempty pieces between commas, in order |
| Text.TrimAll | det-matrix-big.js:19 | `.map(l => l.trim())`: as many lines as the input, line k trimmed |
| Text.NonEmpty | det-matrix-big.js:20 | `.filter(l => l.length > 0)`: the nonempty strings of the input, in order; never more than the input |
| Text.NonEmptyShape | det-matrix-big.js:20 | every string kept by the emptiness filter (`.filter(l => l.length > 0)`, and the empty-field drop of `strtok_r`) is nonempty and comes from the input |
| Text.NonEmptyKeeps | det-matrix-big.c:56 | every nonempty string survives the emptiness filter, so `strtok_r` loses no nonempty field |
| Text.KeptLines | det-matrix-big.c:103-108 | every line trimmed, the ones that trim to nothing dropped, the rest kept in order; never more lines than the input |
| Text.KeptLinesIsFilterOfTrim | det-matrix-big.js:17-20 | the kept lines are exactly those left by trimming every line and then dropping the empty ones |
| Text.KeptLinesShape | det-matrix-big.c:104-108 | every kept line is nonempty and already trimmed |
| Text.KeptLinesPointwise | det-matrix-big.js:18-19 | two lists of lines that trim to the same strings keep the same lines |
| Text.KeptLinesEmpty | det-matrix-big.c:108 | no line is kept exactly when every input line is all whitespace |
| DetMatrixC.Trim | det-matrix-big.c:33-41 | the two pointer walks return the bounds of the trimmed string; only whitespace lies before the start and from the end on; the piece neither starts nor ends with whitespace |
| DetMatrixC.SkipSeparators | det-matrix-big.c:56 | skipping the commas at the scan position stops at the end or at a character that is not a comma, and loses no token |
| DetMatrixC.TokenEnd | det-matrix-big.c:56 | the token runs, without a comma, up to the next comma or the end of the line |
| DetMatrixC.StrtokR | det-matrix-big.c:56-78 | one call of `strtok_r`, the first at line 56 or a later one at line 78: a token is found exactly when tokens remain; it is the first remaining token; the rest start at the new scan position; at the end the scan position is the end of the line |
| DetMatrixC.Accepts | det-matrix-big.c:69-71 | the test of line 71 on a trimmed token: `strtod` consumed at least one character, only whitespace follows what it consumed, and the value is finite |
| DetMatrixC.TokenValue | det-matrix-big.c:59-77 | a token's value: the token trimmed and converted by `strtod` if it passes the test, otherwise failure |
| DetMatrixC.AcceptsWholeToken | det-matrix-big.c:69-71 | on a trimmed token, the test of line 71 passes exactly when the token is nonempty and `strtod` consumed all of it and returned a finite value |
| DetMatrixC.TokenValueSpec | det-matrix-big.c:59-71 | a token has a value exactly when, trimmed, it is nonempty and fully consumed by `strtod` with a finite result; the value is that result |
| DetMatrixC.RejectedToken | det-matrix-big.c:71 | when the test as written fails (nothing consumed, non-whitespace after the number, or not finite), the token is rejected |
| DetMatrixC.AcceptedToken | det-matrix-big.c:71 | when the test as written passes, the token is accepted |
| DetMatrixC.ConvertToken | det-matrix-big.c:58-77 | the trim/`strtod`/trim sequence of one loop turn yields exactly the token's value, or failure |
| DetMatrixC.LineValues | det-matrix-big.c:56-84 | the values of a line's `strtok_r` tokens, in order, or failure as soon as one token has no value |
| DetMatrixC.LineValuesSpec | det-matrix-big.c:56-84 | a line parses exactly when every `strtok_r` token has a value; it then has one value per token, in token order |
| DetMatrixC.ParseCsvLine | det-matrix-big.c:43-85 | the `strtok_r` loop returns the values of all tokens in order, and fails exactly when some token has no value |
| DetMatrixC.FgetsLength | det-matrix-big.c:103 | one `fgets` call takes at most the room of the buffer, takes something from a nonempty input, and stops after the first newline, at the buffer's capacity or at the end of the input |
| DetMatrixC.FgetsLines | det-matrix-big.c:103 | the pieces successive `fgets(line, 65536, fp)` calls return until the end of the file, each as long as `FgetsLength` with room for 65535 characters |
| DetMatrixC.FgetsLinesShape | det-matrix-big.c:89-103 | every piece `fgets` returns is nonempty and shorter than the 65536-byte buffer, and the pieces together are the whole file, in order |
| DetMatrixC.Fgets | det-matrix-big.c:103 | one call returns the next piece of the file and advances past it |
| DetMatrixC.NextLine | det-matrix-big.c:103-108 | a blank piece adds no kept line; any other piece contributes its trimmed self as the next kept line |
| DetMatrixC.CsvRows | det-matrix-big.c:103-132 | the rows of the file: every `fgets` piece that is not blank once trimmed, parsed by `parse_csv_line`, or failure if one of them does not parse |
| DetMatrixC.CsvRowsSpec | det-matrix-big.c:103-132 | the rows of the file exist exactly when every kept line parses; row k is then the parse of kept line k |
| DetMatrixC.RowFails | det-matrix-big.c:110-113 | a kept line that does not parse makes the whole file fail |
| DetMatrixC.RowMismatch | det-matrix-big.c:115-119 | a row with a different length from the first makes the rows not all of one width |
| DetMatrixC.RowAccepted | det-matrix-big.c:129-131 | a row of the common width extends the rows read so far |
| DetMatrixC.ReadRows | det-matrix-big.c:103-132 | the reading loop succeeds exactly when every kept line parses and all rows have the first row's width; it then returns those rows, with `ncols` the first row's width or -1 when there is no row |
| DetMatrixC.MatrixRows | det-matrix-big.c:136-137 | an accepted matrix has at least one row and is square |
| DetMatrixC.ReadMatrixCsv | det-matrix-big.c:87-157 | reading fails exactly when the file's rows are not a square of at least one row; otherwise the result is a fresh n*n buffer holding the rows column-major, with `lda = n` |
| DetMatrixC.PivotSign | det-matrix-big.c:180-184 | the first loop computes the permutation sign: (-1) to the number of stages with `ipiv[i] != i + 1` |
| DetMatrixC.DetLogForm | det-matrix-big.c:159-202 | a negative `info` is the fatal error; otherwise the result is `SlogDet` of `info`, the permutation sign and the diagonal of U, with the C pivot sign and the sum of `log(fabs(uii))` |
| ColumnMajor.Offset | det-matrix-big.c:145 | the column-major offset `j * nrows + i` of entry (row i, column j), also read at line 188 and at lines 63 and 111 of the JavaScript file |
| ColumnMajor.ColumnMajorOf | det-matrix-big.c:143-147 | the buffer both packing loops build (also lines 61-65 of the JavaScript file): n*n cells, cell k holding the entry in row `k % n` and column `k / n` |
| ColumnMajor.OffsetInRange | det-matrix-big.c:145 | every entry of the n x n square has its offset inside the n*n buffer |
| ColumnMajor.DiagonalInRange | det-matrix-big.c:188 | every diagonal offset `i * lda + i` is inside the buffer |
| ColumnMajor.OffsetDivMod | det-matrix-big.c:145 | the row and column of an entry are recovered from its offset |
| ColumnMajor.CellOfOffset | det-matrix-big.c:143-147 | every buffer cell is the offset of some entry of the square, so the packing loop writes every cell |
| ColumnMajor.OffsetInjective | det-matrix-big.c:143-147 | distinct entries have distinct offsets, so no cell is written twice |
| ColumnMajor.ColumnMajorAt | det-matrix-big.c:145 | the packed image holds entry (i, j) at offset `j * n + i` |
| ColumnMajor.Pack | det-matrix-big.c:143-147 | the nested loop of both readers fills a fresh n*n buffer with the packed image of the rows |
| Pivots.Moved | det-matrix-big.c:180-184 | the number of the first k stages with `ipiv[i] != i + 1`, counted stage by stage |
| Pivots.Identity | det-matrix-big.js:91-93 | the identity permutation `perm[i] = i` of length n |
| Pivots.Swap | det-matrix-big.js:98-100 | the exchange of cells i and j by `tmp`: cell i gets the old cell j, cell j the old cell i, every other cell is unchanged |
| Pivots.MovedIsCount | det-matrix-big.c:180-184 | the number of swaps counted is the size of the set of stages `i` with `ipiv[i] != i + 1` |
| Pivots.NegOnePowParity | det-matrix-big.c:183 | flipping k times gives 1 for even k and -1 for odd k |
| Pivots.PermSign | det-matrix-big.c:180-184 | the permutation sign is 1 or -1 |
| Pivots.ApplyPivots | det-matrix-big.js:95-103 | `perm` after the first k stages: stage i exchanges cells i and `ipiv[i] - 1` unless they coincide; the length never changes |
| Pivots.PivotStage | det-matrix-big.js:95-103 | a stage with a real interchange swaps two cells of `perm` and flips the sign; a stage without one changes neither |
| Pivots.SwapPermutation | det-matrix-big.js:97-101 | swapping two cells of a permutation of 0..n-1 gives a permutation of 0..n-1 |
| Pivots.ApplyPivotsPermutation | det-matrix-big.js:95-103 | after every stage `perm` is a permutation of 0..n-1 |
| Pivots.InversionsAdjacentSwap | det-matrix-big.js:97-101 | exchanging two different neighbours changes the inversion count by exactly one |
| Pivots.AdjacentSwapSign | det-matrix-big.js:97-101 | exchanging two different neighbours flips the inversion sign |
| Pivots.SwapSign | det-matrix-big.js:97-101 | any transposition of two distinct cells flips the inversion sign of a permutation without repeats |
| Pivots.IdentitySign | det-matrix-big.js:90-93 | the identity permutation has sign 1 |
| Pivots.PrefixSign | det-matrix-big.js:95-103 | after k stages the count-based sign equals the inversion sign of `perm` |
| Pivots.PermSignIsSign | det-matrix-big.js:95-103 | the permutation sign both programs compute is the sign of the permutation the JavaScript program builds |
| LogDet.CSign | det-matrix-big.c:195 | the C sign of a pivot: 1 if it is positive, -1 otherwise |
| LogDet.MathSign | det-matrix-big.js:117 | `Math.sign` on a finite number: 1, -1 or 0 |
| LogDet.SignProduct | det-matrix-big.c:195 | the running `sign *=` of the diagonal scan (and `sign *= s` at line 118 of the JavaScript file): the product of the pivot signs, left to right |
| LogDet.LogSum | det-matrix-big.c:196 | the running `logabs += log(fabs(uii))` (and line 119 of the JavaScript file): the sum of the pivots' log magnitudes, left to right |
| LogDet.SlogDet | det-matrix-big.c:186-200 | what both programs return once `dgetrf` reported `info >= 0`: the singular answer (0, -inf) when `info > 0` or some pivot is exactly zero, otherwise the permutation sign times the product of the pivot signs and the sum of the pivots' log magnitudes |
| LogDet.Diagonal | det-matrix-big.c:188 | the diagonal has n entries; entry i is the cell at `i * lda + i` |
| LogDet.ScanStep | det-matrix-big.c:195-196 | one more nonzero pivot multiplies the running sign by its sign, adds its log magnitude, and leaves no zero pivot so far |
| LogDet.SignProductOfNonzero | det-matrix-big.c:195 | over nonzero pivots the C sign and `Math.sign` give the same product: (-1) to the number of negative pivots |
| LogDet.SlogDetShape | det-matrix-big.c:186-200 | the sign is -1, 0 or 1. It is 0 exactly when logabs is -inf, and exactly when `info > 0` or some pivot is zero. Otherwise it is the permutation sign times (-1)^(negative pivots) and logabs is the sum of the log magnitudes. The C and `Math.sign` forms agree |
| LogDet.ZeroPivotDecides | det-matrix-big.c:189-194 | once pivot k is zero the answer is singular whatever the pivots after it are |
| LogDet.InfoMeansZeroPivot | det-matrix-big.c:173-178 | under `dgetrf`'s promise about `info`, `info > 0` exactly when some pivot is zero |
| LogDet.UnitPivots | det-matrix-big.c:186-199 | unit pivots with no swaps give sign 1 and log magnitude 0 |
| DetMatrixJs.SplitLines | det-matrix-big.js:18 | `split(/\r?\n/)`: the pieces between line feeds, those followed by a line feed without its one carriage return; as many pieces as a split at line feeds |
| DetMatrixJs.Lines | det-matrix-big.js:17-20 | the split lines, trimmed with the JavaScript whitespace class, the empty ones dropped |
| DetMatrixJs.CarriageReturnsIrrelevant | det-matrix-big.js:17-20 | the lines kept after `split(/\r?\n/)` are those kept after a plain split at line feeds |
| DetMatrixJs.ParseEntry | det-matrix-big.js:30-33 | `parseFloat` of the trimmed entry if it is finite, otherwise the non-numeric error naming the untrimmed entry and its line |
| DetMatrixJs.ParseLine | det-matrix-big.js:28-35 | every piece of `line.split(',')` parsed as an entry, in order, or the error of the first one that fails |
| DetMatrixJs.ParseLines | det-matrix-big.js:26-36 | every line parsed, in order, or the error of the first line that fails |
| DetMatrixJs.ParseLineSpec | det-matrix-big.js:28-35 | a line parses exactly when every piece between commas, trimmed, parses to a finite number; it then gives those numbers in order |
| DetMatrixJs.ParseLineError | det-matrix-big.js:29-33 | a failed line reports its first entry that is not a finite number, untrimmed, with the line |
| DetMatrixJs.FirstOtherWidth | det-matrix-big.js:42-48 | the length of the first row, scanning from the front, whose length is not `nCols`, or nothing |
| DetMatrixJs.FirstOtherWidthSpec | det-matrix-big.js:42-48 | no other width is found exactly when every row has `nCols` entries; otherwise the width found is that of the first row that differs |
| DetMatrixJs.CheckRectangular | det-matrix-big.js:42-48 | the loop returns the length of the first row whose length is not `nCols`, or nothing |
| DetMatrixJs.ReadLines | det-matrix-big.js:22-52 | the checks of `readMatrix` in order: no line left is "File is empty"; then the first non-numeric entry; then the first row whose length is not the first row's; then a row count other than the column count; otherwise the rows, which then number at least one and form a square |
| DetMatrixJs.MatrixRows | det-matrix-big.js:15-52 | what `readMatrix` makes of the file's text: `ReadLines` of the kept lines |
| DetMatrixJs.ReadLinesSpec | det-matrix-big.js:22-52 | the lines are read exactly when there is one, every entry is a finite number and every line has as many entries as there are lines; row i is then the numbers of line i |
| DetMatrixJs.FileEmptyIffNoLines | det-matrix-big.js:22-24 | "File is empty" is thrown exactly when no line is left |
| DetMatrixJs.FileEmptyIffBlank | det-matrix-big.js:17-24 | "File is empty" is thrown exactly when every line of the file is blank |
| DetMatrixJs.NonNumericIsFirst | det-matrix-big.js:26-36 | the non-numeric entry reported is the first one: every line before it and every entry before it in its line is a finite number |
| DetMatrixJs.ReadMatrix | det-matrix-big.js:15-68 | `readMatrix` throws exactly when `MatrixRows` is an error, and throws that error; otherwise it returns a fresh n*n buffer holding the rows column-major, with `lda = n` |
| DetMatrixJs.IdentityArray | det-matrix-big.js:90-93 | the first loop fills a fresh `perm` with the identity |
| DetMatrixJs.SwapCells | det-matrix-big.js:98-100 | the three assignments exchange `perm[i]` and `perm[j]` and change nothing else |
| DetMatrixJs.PermutationSign | det-matrix-big.js:87-103 | `perm` ends as the pivots applied to the identity, a permutation of 0..n-1; `permSign` is the C count-based sign and also the sign of `perm` |
| DetMatrixJs.DetLogForm | det-matrix-big.js:72-128 | a negative `info` throws with argument `-info`, whatever `ipiv` holds (the range of the pivots is required only when `info >= 0`); otherwise the result is `SlogDet` of `info`, the permutation sign and the diagonal of U, with `Math.sign` and the sum of `Math.log(Math.abs(uii))`. By `SlogDetShape` the `sign === 0` guard never fires |

## Left out

- LAPACK `dgetrf` (det-matrix-big.c:26, 170; det-matrix-big.js:78) is a foreign call. The accumulators take its output as parameters: the factored buffer, `info` and `ipiv`. `DgetrfInfo` and `PivotRecord` state what it promises. The code contains no LU factorization of its own, so the model has none either.
- `log`, `fabs` and floating-point rounding: numbers are exact reals, and `log` is an uninterpreted parameter. NaN or infinite entries of the LU factors are not modelled, and neither is `Math.sign(NaN)`.
- `print_pretty_det`, `prettyDet` and decimal.js are left out: floating-point and arbitrary-precision library numerics.
- `det-matrix-big.py` is left out: it is a wrapper over numpy.
- `make_random_matrix.js` is left out: random generation and printing.
- `main`, `printf`, `console.log`, `die`/`process.exit` and the timing calls are left out, because they are I/O. In the model a fatal error is an `Err` result.
- File I/O is left out: `fopen` and its failure, `fs.readFileSync` and UTF-8 decoding. The file is a `string` parameter.
- `malloc`/`realloc` and their failure paths are left out. So are the capacity doubling of `vals` and `rows` and the `free` calls: allocation never fails in the model.
- The internals of `strtod` and `parseFloat` are parameters; the model uses only what they return.
- NUL characters are treated as ordinary characters. On text that contains a NUL, the model sees the characters after it, which C's string functions (`strlen`, `strcpy`, `strtok_r`, `strtod`) would not.
- DetMatrixJs.ReadMatrix: the errors carry the values that the messages interpolate (entry, line, widths, counts), not the formatted message text.
- DetMatrixC.ReadMatrixCsv: it reports failure without saying which check failed, as the C code does.
- Aliasing of `A` between `readMatrix`/`read_matrix_csv` and the factorization is not modelled, because the factorization is not modelled.
- In the C model, `text` is the file's bytes, one `char` per byte, as `fgets` reads them. The 65535-character limit of `FgetsLength` agrees with `fgets` only on that reading: on decoded code points it would count differently. The JavaScript model's `text` is the decoded string, as `fs.readFileSync(..., 'utf8')` returns it.
- C `int` arithmetic is modelled with unbounded integers, and nothing is lost by this. Every row is one `fgets` piece of at most 65535 characters, so it holds at most 32768 tokens. An accepted matrix therefore has n <= 32768, and the offsets `j * nrows + i` and `i * lda + i` are at most n*n - 1 < 2^31.
