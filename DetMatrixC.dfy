/** The C program (det-matrix-big.c): reading a square CSV matrix into a
    column-major buffer, and turning the output of `dgetrf` into the sign
    and the log magnitude of the determinant.

    The file is read through `fgets` into a 64 KiB line buffer; its bytes
    are the parameter `text`, one `char` per byte. `strtod` is a parameter too: the model knows of it
    only the value it returns and how many characters it consumed. `dgetrf`
    itself is not modelled: `DetLogForm` receives what it leaves behind (the
    packed LU buffer, `info` and `ipiv`). */
module DetMatrixC {
  import opened Common
  import opened Text
  import ColumnMajor
  import Pivots
  import opened LogDet

  // ------------------------------------------------------------------ trim

  /** `trim`: skip leading white space, then walk back from the end over
      trailing white space. The trimmed string is `s[lo..hi]` (C returns a
      pointer to `s[lo]` and writes the terminator at `s[hi]`). */
  method Trim(s: string) returns (lo: nat, hi: nat)
    ensures lo <= hi <= |s|
    ensures s[lo..hi] == Text.Trim(s, IsCSpace)
    ensures forall k :: 0 <= k < lo ==> IsCSpace(s[k])
    ensures forall k :: hi <= k < |s| ==> IsCSpace(s[k])
    ensures lo < hi ==> !IsCSpace(s[lo]) && !IsCSpace(s[hi - 1])
  {
    lo := 0;
    while lo < |s| && IsCSpace(s[lo])
      invariant lo <= |s|
      invariant forall k :: 0 <= k < lo ==> IsCSpace(s[k])
    {
      lo := lo + 1;
    }
    if lo == |s| {
      hi := lo;
      TrimAt(s, IsCSpace, lo, hi);
      return;
    }
    var end := |s| - 1;
    while end > lo && IsCSpace(s[end])
      invariant lo <= end < |s|
      invariant forall k :: end < k < |s| ==> IsCSpace(s[k])
    {
      end := end - 1;
    }
    hi := end + 1;
    TrimAt(s, IsCSpace, lo, hi);
  }

  // -------------------------------------------------------------- strtok_r

  /** `strtok_r` first skips the delimiters at `pos` (`strspn`); skipping
      them loses no token. */
  method SkipSeparators(s: string, pos: nat) returns (lo: nat)
    requires pos <= |s|
    ensures pos <= lo <= |s| && (lo == |s| || s[lo] != ',')
    ensures Tokens(s[pos..], ',') == Tokens(s[lo..], ',')
  {
    lo := pos;
    while lo < |s| && s[lo] == ','
      invariant pos <= lo <= |s|
      invariant Tokens(s[pos..], ',') == Tokens(s[lo..], ',')
    {
      assert s[lo..] == [','] + s[lo + 1..];
      TokensSkip(s[lo + 1..], ',');
      lo := lo + 1;
    }
  }

  /** Then it finds the end of the token at `lo` (`strpbrk`): the next
      delimiter or the end of the string. */
  method TokenEnd(s: string, lo: nat) returns (hi: nat)
    requires lo < |s| && s[lo] != ','
    ensures lo < hi <= |s| && ',' !in s[lo..hi]
    ensures hi == |s| || s[hi] == ','
  {
    hi := lo + 1;
    while hi < |s| && s[hi] != ','
      invariant lo < hi <= |s|
      invariant ',' !in s[lo..hi]
    {
      assert s[lo..hi + 1] == s[lo..hi] + [s[hi]];
      hi := hi + 1;
    }
  }

  /** One call of `strtok_r(…, ",", &saveptr)` with `saveptr` at `pos`:
      commas are skipped; at the end of the string there is no token;
      otherwise the token `s[lo..hi]` runs to the next comma, which is
      overwritten by the terminator, and `saveptr` moves past it. The token
      is the first of `Tokens`, and the rest of them start at `next`. */
  method StrtokR(s: string, pos: nat) returns (found: bool, lo: nat, hi: nat, next: nat)
    requires pos <= |s|
    ensures pos <= next <= |s|
    ensures found <==> Tokens(s[pos..], ',') != []
    ensures found ==> pos <= lo < hi <= next && Tokens(s[pos..], ',') == [s[lo..hi]] + Tokens(s[next..], ',')
    ensures !found ==> next == |s|
  {
    lo := SkipSeparators(s, pos);
    if lo == |s| {
      TokensOfEmpty(',');
      found, hi, next := false, lo, lo;
      return;
    }
    hi := TokenEnd(s, lo);
    found := true;
    next := if hi < |s| then hi + 1 else hi;
    TokensFrom(s, ',', lo, hi);
  }

  // ---------------------------------------------------------------- strtod

  /** What `x = strtod(t, &endptr)` reports: the value `x` and the number of
      characters consumed, `endptr - t`. */
  datatype Conversion = Conversion(value: Double, used: nat)

  /** A number parser in the shape of `strtod`: it never consumes more
      than its input. */
  type Strtod = f: string -> Conversion | forall s :: f(s).used <= |s|
    witness (s: string) => Conversion(NaN, 0)

  /** The test of one trimmed token: `strtod` consumed something, only white
      space follows, and the value is finite. */
  predicate Accepts(strtod: Strtod, t: string) {
    var c := strtod(t);
    c.used > 0 && AllSpace(t[c.used..], IsCSpace) && c.value.IsFinite()
  }

  /** On a trimmed token the test says: the number parser consumed the whole
      token, which is not empty, and produced a finite value. */
  lemma AcceptsWholeToken(strtod: Strtod, t: string)
    requires Text.Trim(t, IsCSpace) == t
    ensures Accepts(strtod, t) <==> t != [] && strtod(t).used == |t| && strtod(t).value.IsFinite()
  {
    var c := strtod(t);
    TrimShape(t, IsCSpace);
    if 0 < c.used < |t| {
      assert t[c.used..][|t| - c.used - 1] == t[|t| - 1];
    }
  }

  // -------------------------------------------------------- parse_csv_line

  /** The value `parse_csv_line` takes from one token: the token trimmed, if
      it passes the test, converted; otherwise the line fails. */
  function TokenValue(strtod: Strtod, tok: string): Option<real> {
    var t := Text.Trim(tok, IsCSpace);
    if Accepts(strtod, t) then Some(strtod(t).value.value) else None
  }

  function TokenConverter(strtod: Strtod): string -> Option<real> {
    tok => TokenValue(strtod, tok)
  }

  /** A token has a value exactly when, trimmed, it is non-empty and the
      number parser consumes all of it and produces a finite number; the
      value is that number. */
  lemma TokenValueSpec(strtod: Strtod, tok: string)
    ensures var t := Text.Trim(tok, IsCSpace);
      && (TokenValue(strtod, tok).Some? <==> t != [] && strtod(t).used == |t| && strtod(t).value.IsFinite())
      && (TokenValue(strtod, tok).Some? ==> strtod(t).value == Finite(TokenValue(strtod, tok).value))
  {
    TrimIdempotent(tok, IsCSpace);
    AcceptsWholeToken(strtod, Text.Trim(tok, IsCSpace));
  }

  /** The per-token step of `parse_csv_line`: trim the token, convert it
      with `strtod`, and reject it if nothing was consumed, if anything but
      white space follows, or if the value is not finite. */
  method ConvertToken(tok: string, strtod: Strtod) returns (r: Option<real>)
    ensures r == TokenValue(strtod, tok)
  {
    var tlo, thi := Trim(tok);
    var t := tok[tlo..thi];
    var conv := strtod(t);
    var rlo, rhi := Trim(t[conv.used..]);
    if conv.used == 0 || rlo < rhi || !conv.value.IsFinite() {
      RejectedToken(strtod, t, rlo, rhi);
      return None;
    }
    AcceptedToken(strtod, t, rlo, rhi);
    r := Some(conv.value.value);
  }

  /** The test of `parse_csv_line` as the code writes it fails: the token is
      rejected. */
  lemma RejectedToken(strtod: Strtod, t: string, rlo: nat, rhi: nat)
    requires var rest := t[strtod(t).used..];
      && rlo <= rhi <= |rest|
      && (forall k :: 0 <= k < rlo ==> IsCSpace(rest[k]))
      && (forall k :: rhi <= k < |rest| ==> IsCSpace(rest[k]))
      && (rlo < rhi ==> !IsCSpace(rest[rlo]))
    requires strtod(t).used == 0 || rlo < rhi || !strtod(t).value.IsFinite()
    ensures !Accepts(strtod, t)
  {
  }

  /** The test as the code writes it passes: the token is accepted. */
  lemma AcceptedToken(strtod: Strtod, t: string, rlo: nat, rhi: nat)
    requires var rest := t[strtod(t).used..];
      && rlo == rhi <= |rest|
      && (forall k :: 0 <= k < rlo ==> IsCSpace(rest[k]))
      && (forall k :: rhi <= k < |rest| ==> IsCSpace(rest[k]))
    requires strtod(t).used > 0 && strtod(t).value.IsFinite()
    ensures Accepts(strtod, t)
  {
    var rest := t[strtod(t).used..];
    assert forall k :: 0 <= k < |rest| ==> IsCSpace(rest[k]);
  }

  /** What `parse_csv_line` makes of a line: the values of its `strtok_r`
      tokens at commas, if every token has one. */
  function LineValues(line: string, strtod: Strtod): Option<seq<real>> {
    CollectAll(Tokens(line, ','), TokenConverter(strtod))
  }

  /** A line parses exactly when each of its tokens has a value, and then it
      has one value per token, in order. */
  lemma LineValuesSpec(line: string, strtod: Strtod)
    ensures LineValues(line, strtod).Some? <==>
              forall k :: 0 <= k < |Tokens(line, ',')| ==> TokenValue(strtod, Tokens(line, ',')[k]).Some?
    ensures LineValues(line, strtod).Some? ==>
              && |LineValues(line, strtod).value| == |Tokens(line, ',')|
              && forall k :: 0 <= k < |Tokens(line, ',')| ==>
                   TokenValue(strtod, Tokens(line, ',')[k]) == Some(LineValues(line, strtod).value[k])
  {
    var toks := Tokens(line, ',');
    var convert := TokenConverter(strtod);
    CollectAllSpec(toks, convert);
    assert forall k :: 0 <= k < |toks| ==> convert(toks[k]) == TokenValue(strtod, toks[k]);
    if !LineValues(line, strtod).Some? {
      var k :| 0 <= k < |toks| && convert(toks[k]).None?;
      assert TokenValue(strtod, Tokens(line, ',')[k]).None?;
    }
  }

  /** `parse_csv_line`: cut the line into `strtok_r` tokens at commas,
      convert each, and fail on the first token that has no value; on
      success the values are the tokens' values in order. */
  method ParseCsvLine(line: string, strtod: Strtod) returns (r: Option<seq<real>>)
    ensures r == LineValues(line, strtod)
  {
    ghost var convert := TokenConverter(strtod);
    var vals: seq<real> := [];
    ghost var done: seq<string> := [];
    var found: bool, lo: nat, hi: nat, next: nat := StrtokR(line, 0);
    assert line[0..] == line;
    while found
      invariant next <= |line|
      invariant CollectAll(done, convert) == Some(vals)
      invariant found ==> lo < hi <= next && Tokens(line, ',') == done + [line[lo..hi]] + Tokens(line[next..], ',')
      invariant !found ==> Tokens(line, ',') == done
      decreases if found then |line| - next + 1 else 0
    {
      var tok := line[lo..hi];
      var x := ConvertToken(tok, strtod);
      assert convert(tok) == x;
      if x.None? {
        CollectAllStops(done, tok, Tokens(line[next..], ','), convert);
        return None;
      }
      CollectAllSnoc(done, tok, convert);
      vals := vals + [x.value];
      done := done + [tok];
      found, lo, hi, next := StrtokR(line, next);
    }
    r := Some(vals);
  }

  // ------------------------------------------------------------------ fgets

  /** `char line[1 << 16]`. */
  const LineBufferSize: nat := 65536

  /** How much of `s` one `fgets` call takes when it may store `room`
      characters: through the first newline, or `room` characters, or all of
      `s`, whichever is shortest. */
  function FgetsLength(s: string, room: nat): (k: nat)
    ensures k <= |s| && k <= room
    ensures s != [] && room > 0 ==> k > 0
    ensures forall i :: 0 <= i < k - 1 ==> s[i] != '\n'
    ensures k == |s| || k == room || s[k - 1] == '\n'
    decreases room
  {
    if s == [] || room == 0 then 0
    else if s[0] == '\n' then 1
    else 1 + FgetsLength(s[1..], room - 1)
  }

  /** The pieces that successive `fgets(line, sizeof(line), fp)` calls return
      until the end of the file. */
  function FgetsLines(text: string): (lines: seq<string>)
    decreases |text|
  {
    if text == [] then []
    else
      var k := FgetsLength(text, LineBufferSize - 1);
      [text[..k]] + FgetsLines(text[k..])
  }

  /** The pieces put back together. */
  function Concat(pieces: seq<string>): string
    decreases |pieces|
  {
    if pieces == [] then [] else pieces[0] + Concat(pieces[1..])
  }

  /** Every piece is nonempty and shorter than the buffer, and the pieces
      put back together are the text: `fgets` neither loses nor reorders
      input. */
  lemma {:induction false} FgetsLinesShape(text: string)
    ensures forall k :: 0 <= k < |FgetsLines(text)| ==> 0 < |FgetsLines(text)[k]| < LineBufferSize
    ensures Concat(FgetsLines(text)) == text
    decreases |text|
  {
    if text != [] {
      var k := FgetsLength(text, LineBufferSize - 1);
      FgetsLinesShape(text[k..]);
      assert text == text[..k] + text[k..];
    }
  }

  // -------------------------------------------------------- read_matrix_csv

  /** `parse_csv_line` as a row parser. */
  function RowParser(strtod: Strtod): string -> Option<seq<real>> {
    line => LineValues(line, strtod)
  }

  /** One `fgets(line, sizeof(line), fp)` call at position `pos` of the
      file: the piece it returns and where the next call starts. */
  method Fgets(text: string, pos: nat) returns (line: string, next: nat)
    requires pos < |text|
    ensures pos < next <= |text| && line == text[pos..next]
    ensures FgetsLines(text[pos..]) == [line] + FgetsLines(text[next..])
  {
    var k := FgetsLength(text[pos..], LineBufferSize - 1);
    line := text[pos..pos + k];
    next := pos + k;
    assert text[pos..][..k] == line && text[pos..][k..] == text[next..];
  }

  /** One turn of the reading loop before parsing: `fgets` the next piece
      and trim it; a blank piece adds no kept line, any other adds its
      trimmed self. */
  method NextLine(text: string, pos: nat) returns (blank: bool, t: string, next: nat)
    requires pos < |text|
    ensures pos < next <= |text|
    ensures blank ==> KeptLines(FgetsLines(text[pos..]), IsCSpace) == KeptLines(FgetsLines(text[next..]), IsCSpace)
    ensures !blank ==> KeptLines(FgetsLines(text[pos..]), IsCSpace) == [t] + KeptLines(FgetsLines(text[next..]), IsCSpace)
  {
    var line;
    line, next := Fgets(text, pos);
    KeptLinesCons(line, FgetsLines(text[next..]), IsCSpace);
    var lo, hi := Trim(line);
    blank := lo == hi;
    t := line[lo..hi];
    if blank {
      assert [] + KeptLines(FgetsLines(text[next..]), IsCSpace) == KeptLines(FgetsLines(text[next..]), IsCSpace);
    }
  }

  /** The rows of the file: each line `fgets` returns that is not blank once
      trimmed, parsed by `parse_csv_line`, if every such line parses. */
  function CsvRows(text: string, strtod: Strtod): Option<seq<seq<real>>> {
    CollectAll(KeptLines(FgetsLines(text), IsCSpace), RowParser(strtod))
  }

  /** Every row has as many values as the first. */
  predicate SameWidth(rows: seq<seq<real>>) {
    forall k :: 0 <= k < |rows| ==> |rows[k]| == |rows[0]|
  }

  /** The matrix `read_matrix_csv` accepts: the rows of the file, if they
      form a square of at least one row. */
  function MatrixRows(text: string, strtod: Strtod): (r: Option<seq<seq<real>>>)
    ensures r.Some? ==> |r.value| >= 1 && ColumnMajor.IsSquare(r.value, |r.value|)
  {
    match CsvRows(text, strtod)
    case None => None
    case Some(rows) => if |rows| >= 1 && ColumnMajor.IsSquare(rows, |rows|) then Some(rows) else None
  }

  /** The rows of the file exist exactly when every kept line parses, and
      then row k is the parse of kept line k. */
  lemma CsvRowsSpec(text: string, strtod: Strtod)
    ensures CsvRows(text, strtod).Some? <==>
              forall k :: 0 <= k < |KeptLines(FgetsLines(text), IsCSpace)| ==>
                LineValues(KeptLines(FgetsLines(text), IsCSpace)[k], strtod).Some?
    ensures CsvRows(text, strtod).Some? ==>
              && |CsvRows(text, strtod).value| == |KeptLines(FgetsLines(text), IsCSpace)|
              && forall k :: 0 <= k < |KeptLines(FgetsLines(text), IsCSpace)| ==>
                   LineValues(KeptLines(FgetsLines(text), IsCSpace)[k], strtod) == Some(CsvRows(text, strtod).value[k])
  {
    var lines := KeptLines(FgetsLines(text), IsCSpace);
    var parse := RowParser(strtod);
    CollectAllSpec(lines, parse);
    assert forall k :: 0 <= k < |lines| ==> parse(lines[k]) == LineValues(lines[k], strtod);
    if CsvRows(text, strtod).None? {
      var k :| 0 <= k < |lines| && parse(lines[k]).None?;
      assert LineValues(KeptLines(FgetsLines(text), IsCSpace)[k], strtod).None?;
    }
  }

  /** A kept line that does not parse makes the whole file fail. */
  lemma RowFails(all: seq<string>, done: seq<string>, t: string, later: seq<string>, parse: string -> Option<seq<real>>)
    requires all == done + ([t] + later) && parse(t).None?
    ensures CollectAll(all, parse).None?
  {
    AppendAssoc(done, [t], later);
    CollectAllStops(done, t, later, parse);
  }

  /** A kept line whose row is wider or narrower than the rows before it
      makes the rows of the file not all of the same width. */
  lemma RowMismatch(all: seq<string>, done: seq<string>, t: string, later: seq<string>, parse: string -> Option<seq<real>>, rows: seq<seq<real>>)
    requires all == done + ([t] + later) && CollectAll(done, parse) == Some(rows)
    requires rows != [] && parse(t).Some? && |parse(t).value| != |rows[0]|
    ensures CollectAll(all, parse).None? || !SameWidth(CollectAll(all, parse).value)
  {
    AppendAssoc(done, [t], later);
    if CollectAll(all, parse).Some? {
      CollectAllAround(done, t, later, parse);
      var whole := CollectAll(all, parse).value;
      assert whole[0] == rows[0];
      assert |whole[|done|]| != |whole[0]|;
    }
  }

  /** A kept line whose row has the common width extends the rows read. */
  lemma RowAccepted(all: seq<string>, done: seq<string>, t: string, later: seq<string>, parse: string -> Option<seq<real>>, rows: seq<seq<real>>, ncols: int)
    requires all == done + ([t] + later) && CollectAll(done, parse) == Some(rows)
    requires parse(t).Some? && |parse(t).value| == ncols
    requires forall k :: 0 <= k < |rows| ==> |rows[k]| == ncols
    ensures all == done + [t] + later
    ensures CollectAll(done + [t], parse) == Some(rows + [parse(t).value])
    ensures forall k :: 0 <= k < |rows| + 1 ==> |(rows + [parse(t).value])[k]| == ncols
  {
    AppendAssoc(done, [t], later);
    CollectAllSnoc(done, t, parse);
  }

  /** The reading loop of `read_matrix_csv`: read lines with `fgets`, skip
      the blank ones, parse each remaining one, and fail as soon as a line
      does not parse or has a different number of values than the first.
      `ncols` is the number of values of the first row, -1 when there is
      none. */
  method ReadRows(text: string, strtod: Strtod) returns (r: Option<seq<seq<real>>>, ncols: int)
    ensures r.Some? <==> CsvRows(text, strtod).Some? && SameWidth(CsvRows(text, strtod).value)
    ensures r.Some? ==> r == CsvRows(text, strtod)
    ensures r.Some? ==> ncols == if r.value == [] then -1 else |r.value[0]|
  {
    ncols := -1;
    var rows: seq<seq<real>> := [];
    ghost var done: seq<string> := [];
    ghost var parse := RowParser(strtod);
    ghost var all := KeptLines(FgetsLines(text), IsCSpace);
    var pos: nat := 0;
    assert text[0..] == text;
    while pos < |text|
      invariant pos <= |text|
      invariant all == done + KeptLines(FgetsLines(text[pos..]), IsCSpace)
      invariant CollectAll(done, parse) == Some(rows)
      invariant ncols >= -1 && (ncols == -1 <==> rows == [])
      invariant ncols >= 0 ==> forall k :: 0 <= k < |rows| ==> |rows[k]| == ncols
      decreases |text| - pos
    {
      var blank, t, next := NextLine(text, pos);
      ghost var later := KeptLines(FgetsLines(text[next..]), IsCSpace);
      pos := next;
      if blank {
        continue;
      }
      var vals := ParseCsvLine(t, strtod);
      if vals.None? {
        RowFails(all, done, t, later, parse);
        return None, ncols;
      }
      if ncols < 0 {
        ncols := |vals.value|;
      }
      if |vals.value| != ncols {
        RowMismatch(all, done, t, later, parse, rows);
        return None, ncols;
      }
      RowAccepted(all, done, t, later, parse, rows, ncols);
      rows := rows + [vals.value];
      done := done + [t];
    }
    assert text[pos..] == [];
    assert all == done;
    assert SameWidth(rows);
    r := Some(rows);
  }

  /** `read_matrix_csv`: the rows as `ReadRows` reads them; fail unless
      there is at least one row and one column and as many rows as columns;
      then pack the rows column-major with `lda = n`. */
  method ReadMatrixCsv(text: string, strtod: Strtod) returns (r: Option<ColumnMajor.Packed>)
    ensures r.None? <==> MatrixRows(text, strtod).None?
    ensures r.Some? ==>
              var rows := MatrixRows(text, strtod).value;
              && fresh(r.value.a)
              && r.value.n == r.value.lda == |rows|
              && r.value.a[..] == ColumnMajor.ColumnMajorOf(rows, |rows|)
  {
    var rows, ncols := ReadRows(text, strtod);
    if rows.None? {
      return None;
    }
    var nrows := |rows.value|;
    if nrows <= 0 || ncols <= 0 {
      return None;
    }
    if nrows != ncols {
      assert |rows.value[0]| != |rows.value|;
      return None;
    }
    var a := ColumnMajor.Pack(rows.value, nrows);
    r := Some(ColumnMajor.Packed(a, nrows, nrows));
  }

  // ----------------------------------------------------------- det_log_form

  /** The first loop of `det_log_form`: flip the sign once per stage with
      `ipiv[i] != i + 1`. */
  method PivotSign(ipiv: seq<int>) returns (permSign: int)
    ensures permSign == Pivots.PermSign(ipiv)
  {
    permSign := 1;
    for i := 0 to |ipiv|
      invariant permSign == Pivots.NegOnePow(Pivots.Moved(ipiv, i))
    {
      var j := ipiv[i];
      if j != i + 1 {
        permSign := -permSign;
      }
    }
  }

  /** `det_log_form` after its call of `dgetrf` on the n x n buffer `a`
      (`lda = n`), which left the LU factors in `a` and reported `info` and
      `ipiv`. A negative `info` is fatal (`die`). A positive one, or an
      exactly zero pivot met while scanning the diagonal, gives the singular
      answer at once. Otherwise the sign is the permutation sign (flipped
      once per `ipiv[i] != i + 1`) times the pivot signs, and the log
      magnitude is the sum of `log(fabs(uii))`. */
  method DetLogForm(a: array<real>, n: nat, lda: nat, info: int, ipiv: seq<int>, log: real -> real)
    returns (r: Result<SignLog, string>)
    requires lda == n && a.Length == n * n && |ipiv| == n
    ensures r.Err? <==> info < 0
    ensures r.Err? ==> r.error == "dgetrf: illegal argument"
    ensures info >= 0 ==> r == Ok(SlogDet(info, Pivots.PermSign(ipiv), Diagonal(a[..], n), CSign, log))
  {
    if info < 0 {
      return Err("dgetrf: illegal argument");
    }
    if info > 0 {
      return Ok(Singular);
    }
    var permSign := PivotSign(ipiv);
    ghost var d := Diagonal(a[..], n);
    var sign := permSign;
    var logabs := 0.0;
    for i := 0 to n
      invariant sign == permSign * SignProduct(d[..i], CSign)
      invariant logabs == LogSum(d[..i], log)
      invariant !HasZero(d[..i])
    {
      ColumnMajor.OffsetInRange(i, i, n);
      var uii := a[i * lda + i];
      assert uii == d[i];
      if uii == 0.0 {
        return Ok(Singular);
      }
      ScanStep(permSign, d, i, CSign, log);
      sign := sign * (if uii > 0.0 then 1 else -1);
      logabs := logabs + log(Abs(uii));
    }
    assert d[..n] == d;
    r := Ok(SignLog(if sign == 0 then 0 else sign, Finite(logabs)));
  }
}
