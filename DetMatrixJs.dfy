/** The JavaScript program (det-matrix-big.js): `readMatrix`, which turns the
    text of a CSV file into a column-major buffer or throws, and
    `detLogForm`, which turns what `dgetrf` leaves behind into the sign and
    the log magnitude of the determinant.

    The file's text is the parameter `text` (`fs.readFileSync`), and
    `parseFloat` is a parameter too: the model knows of it only the number
    it returns. Throwing is an `Err` result carrying what the message
    reports. */
module DetMatrixJs {
  import opened Common
  import opened Text
  import ColumnMajor
  import Pivots
  import opened LogDet

  /** The errors `readMatrix` throws, with what their messages report. */
  datatype ReadError =
    | FileEmpty
    | NonNumeric(entry: string, line: string)
    | NotRectangular(nCols: nat, length: nat)
    | NotSquare(nRows: nat, nCols: nat)

  // ------------------------------------------------------------- the lines

  /** `s` without one carriage return at its end, if it has one. */
  function DropCr(s: string): string {
    if s != [] && s[|s| - 1] == '\r' then s[..|s| - 1] else s
  }

  /** `text.split(/\r?\n/)`: the pieces between line feeds, each piece that
      ends at a line feed without the carriage return just before it. */
  function SplitLines(text: string): (lines: seq<string>)
    ensures |lines| == |Split(text, '\n')|
  {
    var parts := Split(text, '\n');
    seq(|parts|, k requires 0 <= k < |parts| => if k < |parts| - 1 then DropCr(parts[k]) else parts[k])
  }

  /** `.map(l => l.trim()).filter(l => l.length > 0)` on the split lines. */
  function Lines(text: string): seq<string> {
    KeptLines(SplitLines(text), IsJsSpace)
  }

  /** `trim` removes carriage returns anyway, so the lines kept are those of
      a plain split at line feeds: `\r\n` and `\n` files read alike. */
  lemma CarriageReturnsIrrelevant(text: string)
    ensures Lines(text) == KeptLines(Split(text, '\n'), IsJsSpace)
  {
    var parts := Split(text, '\n');
    var lines := SplitLines(text);
    forall k | 0 <= k < |parts| ensures Trim(lines[k], IsJsSpace) == Trim(parts[k], IsJsSpace) {
      if k < |parts| - 1 && parts[k] != [] && parts[k][|parts[k]| - 1] == '\r' {
        var u := parts[k][..|parts[k]| - 1];
        assert parts[k] == u + ['\r'];
        TrimSnocSpace(u, '\r', IsJsSpace);
      }
    }
    KeptLinesPointwise(lines, parts, IsJsSpace);
  }

  // ----------------------------------------------------------- the entries

  /** `parseFloat(p.trim())`, thrown out unless `Number.isFinite`. The
      error names the untrimmed entry and its line. */
  function ParseEntry(parseFloat: string -> Double, line: string, p: string): Result<real, ReadError> {
    var x := parseFloat(Trim(p, IsJsSpace));
    if x.IsFinite() then Ok(x.value) else Err(NonNumeric(p, line))
  }

  function EntryParser(parseFloat: string -> Double, line: string): string -> Result<real, ReadError> {
    p => ParseEntry(parseFloat, line, p)
  }

  /** `line.split(',').map(...)`: every piece between commas, empty ones
      included, is an entry. */
  function ParseLine(parseFloat: string -> Double, line: string): Result<seq<real>, ReadError> {
    MapResult(Split(line, ','), EntryParser(parseFloat, line))
  }

  function LineParser(parseFloat: string -> Double): string -> Result<seq<real>, ReadError> {
    line => ParseLine(parseFloat, line)
  }

  /** `lines.map(...)`: the rows, or the first error met line by line. */
  function ParseLines(parseFloat: string -> Double, lines: seq<string>): Result<seq<seq<real>>, ReadError> {
    MapResult(lines, LineParser(parseFloat))
  }

  /** Every entry of `line` is a finite number. */
  predicate EntriesFinite(parseFloat: string -> Double, line: string) {
    forall j :: 0 <= j < |Split(line, ',')| ==> parseFloat(Trim(Split(line, ',')[j], IsJsSpace)).IsFinite()
  }

  /** The numbers of the entries of a line, in order. */
  function EntryValues(parseFloat: string -> Double, line: string): seq<real>
    requires EntriesFinite(parseFloat, line)
  {
    var parts := Split(line, ',');
    seq(|parts|, j requires 0 <= j < |parts| => parseFloat(Trim(parts[j], IsJsSpace)).value)
  }

  /** A line parses exactly when all its entries are finite numbers, and
      then it gives their numbers, one per entry, in order. */
  lemma ParseLineSpec(parseFloat: string -> Double, line: string)
    ensures ParseLine(parseFloat, line).Ok? <==> EntriesFinite(parseFloat, line)
    ensures ParseLine(parseFloat, line).Ok? ==> ParseLine(parseFloat, line).value == EntryValues(parseFloat, line)
  {
    var parts := Split(line, ',');
    var f := EntryParser(parseFloat, line);
    MapResultSpec(parts, f);
    assert forall j :: 0 <= j < |parts| ==> f(parts[j]) == ParseEntry(parseFloat, line, parts[j]);
    if ParseLine(parseFloat, line).Err? {
      var j :| 0 <= j < |parts| && f(parts[j]).Err?;
      assert !parseFloat(Trim(Split(line, ',')[j], IsJsSpace)).IsFinite();
    }
  }

  /** A failed line reports its first entry that is not a finite number. */
  lemma ParseLineError(parseFloat: string -> Double, line: string) returns (j: nat)
    requires ParseLine(parseFloat, line).Err?
    ensures j < |Split(line, ',')|
    ensures ParseLine(parseFloat, line).error == NonNumeric(Split(line, ',')[j], line)
    ensures !parseFloat(Trim(Split(line, ',')[j], IsJsSpace)).IsFinite()
    ensures forall j' :: 0 <= j' < j ==> parseFloat(Trim(Split(line, ',')[j'], IsJsSpace)).IsFinite()
  {
    var parts := Split(line, ',');
    var f := EntryParser(parseFloat, line);
    j := MapResultFirstError(parts, f);
    assert forall j' :: 0 <= j' <= j ==> f(parts[j']) == ParseEntry(parseFloat, line, parts[j']);
  }

  // ------------------------------------------------------------- the shape

  /** The length of the first row whose length is not `nCols`, if any. */
  function FirstOtherWidth(rows: seq<seq<real>>, nCols: nat): Option<nat>
    decreases |rows|
  {
    if rows == [] then None
    else if |rows[0]| != nCols then Some(|rows[0]|)
    else FirstOtherWidth(rows[1..], nCols)
  }

  /** There is no other width exactly when all rows have `nCols` entries;
      otherwise the width reported is that of the first row that differs. */
  lemma {:induction false} FirstOtherWidthSpec(rows: seq<seq<real>>, nCols: nat)
    ensures FirstOtherWidth(rows, nCols).None? <==> forall k :: 0 <= k < |rows| ==> |rows[k]| == nCols
    ensures FirstOtherWidth(rows, nCols).Some? ==>
              exists k :: 0 <= k < |rows| && |rows[k]| == FirstOtherWidth(rows, nCols).value != nCols
                && forall k' :: 0 <= k' < k ==> |rows[k']| == nCols
    decreases |rows|
  {
    if rows != [] && |rows[0]| == nCols {
      var rest := rows[1..];
      FirstOtherWidthSpec(rest, nCols);
      assert forall k :: 0 < k < |rows| ==> rows[k] == rest[k - 1];
      if FirstOtherWidth(rest, nCols).Some? {
        var k :| 0 <= k < |rest| && |rest[k]| == FirstOtherWidth(rest, nCols).value != nCols
          && forall k' :: 0 <= k' < k ==> |rest[k']| == nCols;
        assert rows[k + 1] == rest[k];
        assert forall k' :: 0 < k' < k + 1 ==> rows[k'] == rest[k' - 1];
      }
    } else if rows != [] {
      assert |rows[0]| == FirstOtherWidth(rows, nCols).value != nCols;
    }
  }

  /** The `for (const r of rows)` check of `readMatrix`. */
  method CheckRectangular(rows: seq<seq<real>>, nCols: nat) returns (r: Option<nat>)
    ensures r == FirstOtherWidth(rows, nCols)
  {
    for i := 0 to |rows|
      invariant FirstOtherWidth(rows, nCols) == FirstOtherWidth(rows[i..], nCols)
    {
      if |rows[i]| != nCols {
        return Some(|rows[i]|);
      }
      assert rows[i..][1..] == rows[i + 1..];
    }
    return None;
  }

  // ------------------------------------------------------------ readMatrix

  /** What `readMatrix` makes of the lines left after trimming: the rows, or
      what it throws. No line left is "File is empty"; then the first entry
      that is not a finite number; then the first row whose length is not
      the first row's; then a row count other than the column count. */
  function ReadLines(parseFloat: string -> Double, lines: seq<string>): (r: Result<seq<seq<real>>, ReadError>)
    ensures r.Ok? ==> |r.value| >= 1 && ColumnMajor.IsSquare(r.value, |r.value|)
  {
    if lines == [] then Err(FileEmpty)
    else
      match ParseLines(parseFloat, lines)
      case Err(e) => Err(e)
      case Ok(rows) =>
        var nCols := |rows[0]|;
        match FirstOtherWidth(rows, nCols)
        case Some(length) => Err(NotRectangular(nCols, length))
        case None =>
          FirstOtherWidthSpec(rows, nCols);
          if |rows| != nCols then Err(NotSquare(|rows|, nCols)) else Ok(rows)
  }

  /** What `readMatrix` makes of the text of a file. */
  function MatrixRows(parseFloat: string -> Double, text: string): Result<seq<seq<real>>, ReadError> {
    ReadLines(parseFloat, Lines(text))
  }

  /** The lines are read exactly when there is one, every entry of every
      line is a finite number and every line has as many entries as there
      are lines; row i then holds the numbers of line i. */
  lemma ReadLinesSpec(parseFloat: string -> Double, lines: seq<string>)
    ensures ReadLines(parseFloat, lines).Ok? <==>
              && |lines| >= 1
              && (forall i :: 0 <= i < |lines| ==> EntriesFinite(parseFloat, lines[i]))
              && (forall i :: 0 <= i < |lines| ==> |Split(lines[i], ',')| == |lines|)
    ensures ReadLines(parseFloat, lines).Ok? ==>
              && |ReadLines(parseFloat, lines).value| == |lines|
              && forall i :: 0 <= i < |lines| ==> ReadLines(parseFloat, lines).value[i] == EntryValues(parseFloat, lines[i])
  {
    var g := LineParser(parseFloat);
    MapResultSpec(lines, g);
    forall i | 0 <= i < |lines|
      ensures g(lines[i]).Ok? <==> EntriesFinite(parseFloat, lines[i])
      ensures g(lines[i]).Ok? ==> g(lines[i]).value == EntryValues(parseFloat, lines[i])
    {
      ParseLineSpec(parseFloat, lines[i]);
    }
    if lines != [] {
      var parsed := ParseLines(parseFloat, lines);
      if parsed.Err? {
        var i :| 0 <= i < |lines| && g(lines[i]).Err?;
        assert !EntriesFinite(parseFloat, lines[i]);
      } else {
        var rows := parsed.value;
        FirstOtherWidthSpec(rows, |rows[0]|);
        assert forall i :: 0 <= i < |lines| ==> |rows[i]| == |Split(lines[i], ',')|;
      }
    }
  }

  /** "File is empty" is thrown exactly when no line is left. */
  lemma FileEmptyIffNoLines(parseFloat: string -> Double, lines: seq<string>)
    ensures ReadLines(parseFloat, lines) == Err(FileEmpty) <==> lines == []
  {
    if lines != [] && ParseLines(parseFloat, lines).Err? {
      var i := MapResultFirstError(lines, LineParser(parseFloat));
      var j := ParseLineError(parseFloat, lines[i]);
    }
  }

  /** ... and no line is left exactly when every line of the file is blank. */
  lemma FileEmptyIffBlank(parseFloat: string -> Double, text: string)
    ensures MatrixRows(parseFloat, text) == Err(FileEmpty) <==>
              forall k :: 0 <= k < |SplitLines(text)| ==> AllSpace(SplitLines(text)[k], IsJsSpace)
  {
    KeptLinesEmpty(SplitLines(text), IsJsSpace);
    FileEmptyIffNoLines(parseFloat, Lines(text));
  }

  /** An entry that is not a finite number is reported with its line, and
      it is the first such entry: every line before it and every entry
      before it in its line is a finite number. */
  lemma NonNumericIsFirst(parseFloat: string -> Double, lines: seq<string>) returns (i: nat, j: nat)
    requires ReadLines(parseFloat, lines).Err? && ReadLines(parseFloat, lines).error.NonNumeric?
    ensures i < |lines| && j < |Split(lines[i], ',')|
    ensures ReadLines(parseFloat, lines).error == NonNumeric(Split(lines[i], ',')[j], lines[i])
    ensures !parseFloat(Trim(Split(lines[i], ',')[j], IsJsSpace)).IsFinite()
    ensures forall i' :: 0 <= i' < i ==> EntriesFinite(parseFloat, lines[i'])
    ensures forall j' :: 0 <= j' < j ==> parseFloat(Trim(Split(lines[i], ',')[j'], IsJsSpace)).IsFinite()
  {
    var g := LineParser(parseFloat);
    i := MapResultFirstError(lines, g);
    j := ParseLineError(parseFloat, lines[i]);
    forall i' | 0 <= i' < i ensures EntriesFinite(parseFloat, lines[i']) {
      ParseLineSpec(parseFloat, lines[i']);
    }
  }

  /** `readMatrix`: the rows as `MatrixRows` describes them, checked with
      the `for (const r of rows)` loop, then packed column-major into a
      fresh n*n buffer with `lda = n` by the nested loop. */
  method ReadMatrix(text: string, parseFloat: string -> Double) returns (r: Result<ColumnMajor.Packed, ReadError>)
    ensures r.Err? <==> MatrixRows(parseFloat, text).Err?
    ensures r.Err? ==> r.error == MatrixRows(parseFloat, text).error
    ensures r.Ok? ==>
              var rows := MatrixRows(parseFloat, text).value;
              && fresh(r.value.a)
              && r.value.n == r.value.lda == |rows|
              && r.value.a[..] == ColumnMajor.ColumnMajorOf(rows, |rows|)
  {
    var lines := Lines(text);
    if |lines| == 0 {
      return Err(FileEmpty);
    }
    var parsed := ParseLines(parseFloat, lines);
    if parsed.Err? {
      return Err(parsed.error);
    }
    var rows := parsed.value;
    var nRows := |rows|;
    var nCols := |rows[0]|;
    var other := CheckRectangular(rows, nCols);
    if other.Some? {
      return Err(NotRectangular(nCols, other.value));
    }
    if nRows != nCols {
      return Err(NotSquare(nRows, nCols));
    }
    assert ReadLines(parseFloat, lines) == Ok(rows);
    var a := ColumnMajor.Pack(rows, nRows);
    r := Ok(ColumnMajor.Packed(a, nRows, nRows));
  }

  // ------------------------------------------------------------ detLogForm

  /** `dgetrf: argument ${-info} had an illegal value`. */
  datatype LapackError = IllegalArgument(argument: int)

  /** `for (let i = 0; i < n; i++) perm[i] = i` on a fresh array. */
  method IdentityArray(n: nat) returns (perm: array<int>)
    ensures fresh(perm) && perm[..] == Pivots.Identity(n)
  {
    perm := new int[n];
    for i := 0 to n
      invariant forall k :: 0 <= k < i ==> perm[k] == k
    {
      perm[i] := i;
    }
  }

  /** `tmp = perm[i]; perm[i] = perm[j]; perm[j] = tmp`. */
  method SwapCells(perm: array<int>, i: nat, j: nat)
    requires i < perm.Length && j < perm.Length
    modifies perm
    ensures perm[..] == Pivots.Swap(old(perm[..]), i, j)
  {
    var tmp := perm[i];
    perm[i] := perm[j];
    perm[j] := tmp;
  }

  /** The `perm` loops of `detLogForm`: start from the identity and apply
      the interchange of each stage, flipping `permSign` once per real
      interchange. `perm` ends a permutation of 0 .. n-1, and `permSign` is
      both the count-based sign of the C program and the sign
      of `perm`. */
  method PermutationSign(ipiv: seq<int>, n: nat) returns (permSign: int, perm: array<int>)
    requires Pivots.PivotRecord(ipiv, n)
    ensures fresh(perm)
    ensures perm[..] == Pivots.ApplyPivots(Pivots.Identity(n), ipiv, n)
    ensures Pivots.IsPermutation(perm[..], n)
    ensures permSign == Pivots.PermSign(ipiv) == Pivots.Sign(perm[..])
  {
    permSign := 1;
    perm := IdentityArray(n);
    for i := 0 to n
      invariant perm[..] == Pivots.ApplyPivots(Pivots.Identity(n), ipiv, i)
      invariant permSign == Pivots.NegOnePow(Pivots.Moved(ipiv, i))
    {
      var j := ipiv[i] - 1;
      Pivots.PivotStage(ipiv, n, i);
      if j != i {
        SwapCells(perm, i, j);
        permSign := permSign * -1;
      }
    }
    Pivots.ApplyPivotsPermutation(ipiv, n, n);
    Pivots.PermSignIsSign(ipiv, n);
  }

  /** `detLogForm` after its call of `dgetrf` on the n x n buffer `a`
      (`lda = n`). A negative `info` throws. A positive one, or an exactly
      zero pivot met while scanning the diagonal, gives the singular answer
      at once. Otherwise the sign is `permSign` times the `Math.sign` of
      every pivot and the log magnitude the sum of `Math.log(Math.abs(uii))`;
      that sign is never 0, so the final `sign === 0` guard never fires. */
  method DetLogForm(a: array<real>, n: nat, lda: nat, info: int, ipiv: seq<int>, log: real -> real)
    returns (r: Result<SignLog, LapackError>)
    requires lda == n && a.Length == n * n && |ipiv| == n
    requires info >= 0 ==> Pivots.PivotRecord(ipiv, n)
    ensures r.Err? <==> info < 0
    ensures r.Err? ==> r.error == IllegalArgument(-info)
    ensures info >= 0 ==> r == Ok(SlogDet(info, Pivots.PermSign(ipiv), Diagonal(a[..], n), MathSign, log))
  {
    if info < 0 {
      return Err(IllegalArgument(-info));
    }
    if info > 0 {
      return Ok(Singular);
    }
    var permSign, perm := PermutationSign(ipiv, n);
    ghost var d := Diagonal(a[..], n);
    var logabs := 0.0;
    var sign := permSign;
    for i := 0 to n
      invariant sign == permSign * SignProduct(d[..i], MathSign)
      invariant logabs == LogSum(d[..i], log)
      invariant !HasZero(d[..i])
    {
      ColumnMajor.OffsetInRange(i, i, n);
      var uii := a[i * lda + i];
      assert uii == d[i];
      if uii == 0.0 {
        return Ok(Singular);
      }
      ScanStep(permSign, d, i, MathSign, log);
      var s := MathSign(uii);
      sign := sign * s;
      logabs := logabs + log(Abs(uii));
    }
    assert d[..n] == d;
    SignProductOfNonzero(d);
    r := if sign == 0 then Ok(Singular) else Ok(SignLog(sign, Finite(logabs)));
  }
}
