/** String logic shared by the CSV readers of both programs: the two
    whitespace classes, trimming, splitting at a separator character, the
    empty-token rule of `strtok_r`, and the "trim every line, drop the blank
    ones" step. */
module Text {

  /** `isspace` in the "C" locale. */
  predicate IsCSpace(c: char) {
    c == ' ' || c == '\t' || c == '\n' || c == '\U{B}' || c == '\U{C}' || c == '\r'
  }

  /** The characters `String.prototype.trim` removes: ECMAScript WhiteSpace
      (TAB, VT, FF, SP, NBSP, ZWNBSP and the Zs category) and
      LineTerminator (LF, CR, LS, PS). */
  predicate IsJsSpace(c: char) {
    || c == '\t' || c == '\n' || c == '\U{B}' || c == '\U{C}' || c == '\r' || c == ' '
    || c == '\U{A0}' || c == '\U{1680}' || ('\U{2000}' <= c <= '\U{200A}')
    || c == '\U{2028}' || c == '\U{2029}' || c == '\U{202F}' || c == '\U{205F}'
    || c == '\U{3000}' || c == '\U{FEFF}'
  }

  /** On ASCII the two classes coincide; beyond ASCII only JavaScript has
      white space. */
  lemma SpaceClassesAgreeOnAscii(c: char)
    ensures IsCSpace(c) ==> IsJsSpace(c)
    ensures c < '\U{80}' ==> (IsJsSpace(c) <==> IsCSpace(c))
  {
  }

  predicate AllSpace(s: string, isSpace: char -> bool) {
    forall k :: 0 <= k < |s| ==> isSpace(s[k])
  }

  // ---------------------------------------------------------------- trimming

  /** `s` without its leading white space. */
  function TrimStart(s: string, isSpace: char -> bool): (r: string)
    ensures |r| <= |s|
    decreases |s|
  {
    if s != [] && isSpace(s[0]) then TrimStart(s[1..], isSpace) else s
  }

  /** The result is a suffix of `s` that starts with a non-space character,
      and everything it drops is white space. */
  lemma {:induction false} TrimStartShape(s: string, isSpace: char -> bool)
    ensures var r := TrimStart(s, isSpace);
      && r == s[|s| - |r|..]
      && (forall k :: 0 <= k < |s| - |r| ==> isSpace(s[k]))
      && (r == [] || !isSpace(r[0]))
    decreases |s|
  {
    if s != [] && isSpace(s[0]) {
      TrimStartShape(s[1..], isSpace);
      var r := TrimStart(s[1..], isSpace);
      assert s[1..][|s| - 1 - |r|..] == s[|s| - |r|..];
      forall k | 0 < k < |s| - |r| ensures isSpace(s[k]) {
        assert s[k] == s[1..][k - 1];
      }
    }
  }

  /** `s` without its trailing white space. */
  function TrimEnd(s: string, isSpace: char -> bool): (r: string)
    ensures |r| <= |s|
    decreases |s|
  {
    if s != [] && isSpace(s[|s| - 1]) then TrimEnd(s[..|s| - 1], isSpace) else s
  }

  /** The result is a prefix of `s` that ends with a non-space character,
      and everything it drops is white space. */
  lemma {:induction false} TrimEndShape(s: string, isSpace: char -> bool)
    ensures var r := TrimEnd(s, isSpace);
      && r == s[..|r|]
      && (forall k :: |r| <= k < |s| ==> isSpace(s[k]))
      && (r == [] || !isSpace(r[|r| - 1]))
    decreases |s|
  {
    if s != [] && isSpace(s[|s| - 1]) {
      TrimEndShape(s[..|s| - 1], isSpace);
      var r := TrimEnd(s[..|s| - 1], isSpace);
      assert s[..|s| - 1][..|r|] == s[..|r|];
      forall k | |r| <= k < |s| - 1 ensures isSpace(s[k]) {
        assert s[k] == s[..|s| - 1][k];
      }
    }
  }

  /** Number of leading white-space characters of `s`. */
  function Leading(s: string, isSpace: char -> bool): (lo: nat)
    ensures lo <= |s|
  {
    |s| - |TrimStart(s, isSpace)|
  }

  /** `s` without leading and trailing white space. */
  function Trim(s: string, isSpace: char -> bool): (r: string)
    ensures |r| <= |s|
  {
    TrimEnd(TrimStart(s, isSpace), isSpace)
  }

  /** The trimmed string is the contiguous piece `s[lo..lo + |r|]`, with
      `lo` the number of leading white-space characters and only white
      space on either side; it neither starts nor ends with white space,
      and it is empty exactly when `s` is all white space. */
  lemma TrimShape(s: string, isSpace: char -> bool)
    ensures var r, lo := Trim(s, isSpace), Leading(s, isSpace);
      && lo + |r| <= |s|
      && r == s[lo..lo + |r|]
      && (forall k :: 0 <= k < lo ==> isSpace(s[k]))
      && (forall k :: lo + |r| <= k < |s| ==> isSpace(s[k]))
      && (r == [] || (!isSpace(r[0]) && !isSpace(r[|r| - 1])))
      && (r == [] <==> AllSpace(s, isSpace))
  {
    var u := TrimStart(s, isSpace);
    TrimStartShape(s, isSpace);
    TrimEndShape(u, isSpace);
    TrimPieces(s, u, TrimEnd(u, isSpace), |s| - |u|, isSpace);
  }

  lemma TrimPieces(s: string, u: string, r: string, lo: nat, isSpace: char -> bool)
    requires lo <= |s| && u == s[lo..] && |r| <= |u| && r == u[..|r|]
    requires forall k :: 0 <= k < lo ==> isSpace(s[k])
    requires forall k :: |r| <= k < |u| ==> isSpace(u[k])
    requires u == [] || !isSpace(u[0])
    requires r == [] || !isSpace(r[|r| - 1])
    ensures lo + |r| <= |s| && r == s[lo..lo + |r|]
    ensures forall k :: lo + |r| <= k < |s| ==> isSpace(s[k])
    ensures r == [] || (!isSpace(r[0]) && !isSpace(r[|r| - 1]))
    ensures r == [] <==> AllSpace(s, isSpace)
  {
    forall k | lo + |r| <= k < |s| ensures isSpace(s[k]) {
      assert s[k] == u[k - lo];
    }
    if r != [] {
      assert r[0] == u[0] == s[lo];
    }
  }

  /** The start of the trimmed piece is the first non-space position. */
  lemma {:induction false} TrimStartAt(s: string, isSpace: char -> bool, lo: nat)
    requires lo <= |s|
    requires forall k :: 0 <= k < lo ==> isSpace(s[k])
    requires lo == |s| || !isSpace(s[lo])
    ensures TrimStart(s, isSpace) == s[lo..]
    decreases lo
  {
    if lo > 0 {
      assert isSpace(s[0]);
      TrimStartAt(s[1..], isSpace, lo - 1);
      assert s[1..][lo - 1..] == s[lo..];
    }
  }

  /** The end of the trimmed piece is one past the last non-space position. */
  lemma {:induction false} TrimEndAt(s: string, isSpace: char -> bool, hi: nat)
    requires hi <= |s|
    requires forall k :: hi <= k < |s| ==> isSpace(s[k])
    requires hi == 0 || !isSpace(s[hi - 1])
    ensures TrimEnd(s, isSpace) == s[..hi]
    decreases |s| - hi
  {
    if hi < |s| {
      assert isSpace(s[|s| - 1]);
      TrimEndAt(s[..|s| - 1], isSpace, hi);
      assert s[..|s| - 1][..hi] == s[..hi];
    } else {
      assert s[..hi] == s;
    }
  }

  /** The trimmed piece is `s[lo..hi]` when only white space lies outside it
      and it neither starts nor ends with white space. */
  lemma TrimAt(s: string, isSpace: char -> bool, lo: nat, hi: nat)
    requires lo <= hi <= |s|
    requires forall k :: 0 <= k < lo ==> isSpace(s[k])
    requires forall k :: hi <= k < |s| ==> isSpace(s[k])
    requires lo < hi ==> !isSpace(s[lo]) && !isSpace(s[hi - 1])
    requires lo == hi ==> lo == |s|
    ensures Trim(s, isSpace) == s[lo..hi]
  {
    TrimStartAt(s, isSpace, lo);
    TrimEndOfSuffix(s, isSpace, lo, hi);
  }

  lemma TrimEndOfSuffix(s: string, isSpace: char -> bool, lo: nat, hi: nat)
    requires lo <= hi <= |s|
    requires forall k :: hi <= k < |s| ==> isSpace(s[k])
    requires lo < hi ==> !isSpace(s[hi - 1])
    ensures TrimEnd(s[lo..], isSpace) == s[lo..hi]
  {
    var t := s[lo..];
    assert forall k :: hi - lo <= k < |t| ==> t[k] == s[lo + k];
    TrimEndAt(t, isSpace, hi - lo);
    assert t[..hi - lo] == s[lo..hi];
  }

  /** Trimming twice changes nothing. */
  lemma TrimIdempotent(s: string, isSpace: char -> bool)
    ensures Trim(Trim(s, isSpace), isSpace) == Trim(s, isSpace)
  {
    var t := Trim(s, isSpace);
    TrimShape(s, isSpace);
    TrimStartAt(t, isSpace, 0);
    TrimEndAt(t, isSpace, |t|);
  }

  /** A white-space character at the end makes no difference to `Trim`. */
  lemma TrimSnocSpace(s: string, c: char, isSpace: char -> bool)
    requires isSpace(c)
    ensures Trim(s + [c], isSpace) == Trim(s, isSpace)
  {
    var t := s + [c];
    TrimShape(s, isSpace);
    var r, lo := Trim(s, isSpace), Leading(s, isSpace);
    if r == [] {
      TrimShape(t, isSpace);
      assert AllSpace(t, isSpace) by {
        forall k | 0 <= k < |t| ensures isSpace(t[k]) {
          if k < |s| {
            assert t[k] == s[k];
          }
        }
      }
    } else {
      assert forall k :: 0 <= k < |s| ==> t[k] == s[k];
      TrimAt(t, isSpace, lo, lo + |r|);
      assert t[lo..lo + |r|] == s[lo..lo + |r|];
    }
  }

  // --------------------------------------------------------------- splitting

  /** The pieces of `s` between occurrences of `sep`, empty pieces included
      (`String.prototype.split` with a one-character separator). */
  function Split(s: string, sep: char): (parts: seq<string>)
    ensures |parts| >= 1
    decreases |s|
  {
    if s == [] then [[]]
    else
      var rest := Split(s[1..], sep);
      if s[0] == sep then [[]] + rest else [[s[0]] + rest[0]] + rest[1..]
  }

  /** No piece contains the separator. */
  lemma {:induction false} SplitFree(s: string, sep: char)
    ensures forall k :: 0 <= k < |Split(s, sep)| ==> sep !in Split(s, sep)[k]
    decreases |s|
  {
    if s != [] {
      SplitFree(s[1..], sep);
      var rest := Split(s[1..], sep);
      if s[0] != sep {
        assert sep !in [s[0]] + rest[0];
      }
    }
  }

  /** The pieces glued back together with `sep` between them. */
  function Join(parts: seq<string>, sep: char): string
    requires |parts| >= 1
    decreases |parts|
  {
    if |parts| == 1 then parts[0] else parts[0] + [sep] + Join(parts[1..], sep)
  }

  /** Splitting loses nothing: the pieces rejoin to the input. */
  lemma {:induction false} JoinOfSplit(s: string, sep: char)
    ensures Join(Split(s, sep), sep) == s
    decreases |s|
  {
    if s != [] {
      var rest := Split(s[1..], sep);
      JoinOfSplit(s[1..], sep);
      if s[0] == sep {
        assert Split(s, sep) == [[]] + rest;
        assert ([[]] + rest)[1..] == rest;
      } else {
        var parts := Split(s, sep);
        assert parts == [[s[0]] + rest[0]] + rest[1..];
        if |rest| == 1 {
          assert Join(parts, sep) == [s[0]] + rest[0];
        } else {
          assert parts[1..] == rest[1..];
          assert Join(rest, sep) == rest[0] + [sep] + Join(rest[1..], sep);
        }
      }
    }
  }

  /** A piece free of `sep` followed by `sep` splits off as the first piece. */
  lemma {:induction false} SplitCons(a: string, sep: char, b: string)
    requires sep !in a
    ensures Split(a + [sep] + b, sep) == [a] + Split(b, sep)
    decreases |a|
  {
    if a == [] {
      assert ([sep] + b)[1..] == b;
    } else {
      SplitCons(a[1..], sep, b);
      assert (a + [sep] + b)[1..] == a[1..] + [sep] + b;
      assert [a[0]] + a[1..] == a;
    }
  }

  /** A string free of `sep` is a single piece. */
  lemma {:induction false} SplitNone(a: string, sep: char)
    requires sep !in a
    ensures Split(a, sep) == [a]
    decreases |a|
  {
    if a != [] {
      SplitNone(a[1..], sep);
      assert [a[0]] + a[1..] == a;
    }
  }

  /** Joining loses nothing either: pieces free of `sep` split back out. */
  lemma {:induction false} SplitOfJoin(parts: seq<string>, sep: char)
    requires |parts| >= 1
    requires forall k :: 0 <= k < |parts| ==> sep !in parts[k]
    ensures Split(Join(parts, sep), sep) == parts
    decreases |parts|
  {
    if |parts| == 1 {
      SplitNone(parts[0], sep);
    } else {
      SplitOfJoin(parts[1..], sep);
      SplitCons(parts[0], sep, Join(parts[1..], sep));
      assert [parts[0]] + parts[1..] == parts;
    }
  }

  // ------------------------------------------------------ strtok_r's tokens

  /** The non-empty strings of `parts`, in order. */
  function NonEmpty(parts: seq<string>): (r: seq<string>)
    ensures |r| <= |parts|
    decreases |parts|
  {
    if parts == [] then []
    else (if parts[0] == [] then [] else [parts[0]]) + NonEmpty(parts[1..])
  }

  /** What survives is non-empty and comes from `parts`. */
  lemma {:induction false} NonEmptyShape(parts: seq<string>)
    ensures forall k :: 0 <= k < |NonEmpty(parts)| ==> NonEmpty(parts)[k] != [] && NonEmpty(parts)[k] in parts
    decreases |parts|
  {
    if parts != [] {
      NonEmptyShape(parts[1..]);
      var head := if parts[0] == [] then [] else [parts[0]];
      var r := NonEmpty(parts);
      assert r == head + NonEmpty(parts[1..]);
      forall k | 0 <= k < |r| ensures r[k] != [] && r[k] in parts {
        if k < |head| {
          assert r[k] == parts[0];
        } else {
          assert r[k] == NonEmpty(parts[1..])[k - |head|];
          assert r[k] in parts[1..];
        }
      }
    }
  }

  /** Only empty strings: nothing survives. */
  lemma {:induction false} NonEmptyOfEmpties(parts: seq<string>)
    requires forall k :: 0 <= k < |parts| ==> parts[k] == []
    ensures NonEmpty(parts) == []
    decreases |parts|
  {
    if parts != [] {
      NonEmptyOfEmpties(parts[1..]);
    }
  }

  /** Every non-empty string of `parts` survives. */
  lemma {:induction false} NonEmptyKeeps(parts: seq<string>, k: nat)
    requires k < |parts| && parts[k] != []
    ensures parts[k] in NonEmpty(parts)
    decreases |parts|
  {
    if k > 0 {
      NonEmptyKeeps(parts[1..], k - 1);
    }
  }

  /** Length of the run of non-`sep` characters at the start of `s`. */
  function TokenLength(s: string, sep: char): (k: nat)
    ensures k <= |s|
    ensures s != [] && s[0] != sep ==> k > 0
    decreases |s|
  {
    if s == [] || s[0] == sep then 0 else 1 + TokenLength(s[1..], sep)
  }

  /** The run at the start stops at a separator or at the end, and holds no
      separator. */
  lemma {:induction false} TokenLengthShape(s: string, sep: char)
    ensures TokenLength(s, sep) == |s| || s[TokenLength(s, sep)] == sep
    ensures sep !in s[..TokenLength(s, sep)]
    decreases |s|
  {
    if s != [] && s[0] != sep {
      TokenLengthShape(s[1..], sep);
      assert s[..TokenLength(s, sep)] == [s[0]] + s[1..][..TokenLength(s[1..], sep)];
    }
  }

  /** A run free of `sep` followed by `sep` or by the end is the whole run. */
  lemma {:induction false} TokenLengthOf(a: string, sep: char, b: string)
    requires sep !in a && (b == [] || b[0] == sep)
    ensures TokenLength(a + b, sep) == |a|
    decreases |a|
  {
    if a != [] {
      assert (a + b)[1..] == a[1..] + b;
      TokenLengthOf(a[1..], sep, b);
    } else {
      assert a + b == b;
    }
  }

  /** The tokens `strtok_r` returns for delimiter `sep`: separators are
      skipped, and each token is a maximal run of non-`sep` characters, so
      that consecutive, leading and trailing separators produce no empty
      token. */
  function Tokens(s: string, sep: char): (toks: seq<string>)
    decreases |s|
  {
    if s == [] then []
    else if s[0] == sep then Tokens(s[1..], sep)
    else
      var k := TokenLength(s, sep);
      [s[..k]] + Tokens(s[k..], sep)
  }

  /** Every token is non-empty and free of `sep`. */
  lemma {:induction false} TokensShape(s: string, sep: char)
    ensures forall k :: 0 <= k < |Tokens(s, sep)| ==> Tokens(s, sep)[k] != [] && sep !in Tokens(s, sep)[k]
    decreases |s|
  {
    if s != [] {
      if s[0] == sep {
        TokensShape(s[1..], sep);
      } else {
        var n := TokenLength(s, sep);
        TokenLengthShape(s, sep);
        TokensShape(s[n..], sep);
        var toks := Tokens(s, sep);
        assert toks == [s[..n]] + Tokens(s[n..], sep);
        forall k | 0 <= k < |toks| ensures toks[k] != [] && sep !in toks[k] {
          if k > 0 {
            assert toks[k] == Tokens(s[n..], sep)[k - 1];
          }
        }
      }
    }
  }

  /** The tokens are exactly the non-empty pieces of the split at `sep`. */
  lemma {:induction false} TokensAreNonEmptyPieces(s: string, sep: char)
    ensures Tokens(s, sep) == NonEmpty(Split(s, sep))
    decreases |s|
  {
    if s == [] {
      assert Split(s, sep) == [[]];
    } else if s[0] == sep {
      TokensAreNonEmptyPieces(s[1..], sep);
      assert Split(s, sep) == [[]] + Split(s[1..], sep);
      assert ([[]] + Split(s[1..], sep))[1..] == Split(s[1..], sep);
    } else {
      var n := TokenLength(s, sep);
      TokenLengthShape(s, sep);
      assert s == s[..n] + s[n..];
      if n == |s| {
        SplitNone(s, sep);
        assert s[..n] == s && s[n..] == [];
        assert Tokens(s, sep) == [s] + Tokens([], sep);
        assert [s][1..] == [];
        assert NonEmpty([s]) == [s] + NonEmpty([]);
      } else {
        var rest := s[n + 1..];
        assert s[n..] == [sep] + rest;
        assert s == s[..n] + [sep] + rest;
        TokensAreNonEmptyPieces(rest, sep);
        SplitCons(s[..n], sep, rest);
        assert ([s[..n]] + Split(rest, sep))[1..] == Split(rest, sep);
        assert ([sep] + rest)[1..] == rest;
      }
    }
  }

  lemma TokensOfEmpty(sep: char)
    ensures Tokens([], sep) == []
  {
  }

  /** A leading separator contributes no token. */
  lemma TokensSkip(s: string, sep: char)
    ensures Tokens([sep] + s, sep) == Tokens(s, sep)
  {
    assert ([sep] + s)[1..] == s;
  }

  /** A non-empty run of non-separators followed by a separator is the next
      token. */
  lemma TokensCons(a: string, sep: char, b: string)
    requires a != [] && sep !in a
    ensures Tokens(a + [sep] + b, sep) == [a] + Tokens(b, sep)
  {
    var s := a + [sep] + b;
    assert s == a + ([sep] + b);
    TokenLengthOf(a, sep, [sep] + b);
    assert s[0] == a[0];
    assert s[..|a|] == a && s[|a|..] == [sep] + b;
    TokensSkip(b, sep);
  }

  /** A non-empty run of non-separators at the end is the last token. */
  lemma TokensLast(a: string, sep: char)
    requires a != [] && sep !in a
    ensures Tokens(a, sep) == [a]
  {
    TokenLengthOf(a, sep, []);
    assert a + [] == a;
    assert a[..|a|] == a && a[|a|..] == [];
  }

  /** The token of `s[lo..]` that starts at `lo` and runs up to the next
      separator (or the end) at `hi` comes first, and the rest of the tokens
      follow the separator. */
  lemma TokensFrom(s: string, sep: char, lo: nat, hi: nat)
    requires lo < hi <= |s| && sep !in s[lo..hi]
    requires hi == |s| || s[hi] == sep
    ensures var next := if hi < |s| then hi + 1 else hi;
      Tokens(s[lo..], sep) == [s[lo..hi]] + Tokens(s[next..], sep)
  {
    if hi < |s| {
      assert s[lo..] == s[lo..hi] + [sep] + s[hi + 1..];
      TokensCons(s[lo..hi], sep, s[hi + 1..]);
    } else {
      assert s[lo..] == s[lo..hi];
      TokensLast(s[lo..hi], sep);
      TokensOfEmpty(sep);
    }
  }

  // ------------------------------------------------------- blank-line rule

  /** Every line trimmed. */
  function TrimAll(lines: seq<string>, isSpace: char -> bool): (r: seq<string>)
    ensures |r| == |lines|
    ensures forall k :: 0 <= k < |r| ==> r[k] == Trim(lines[k], isSpace)
  {
    seq(|lines|, k requires 0 <= k < |lines| => Trim(lines[k], isSpace))
  }

  /** The lines that are not blank, trimmed, in order: both readers skip a
      line that is empty once trimmed. */
  function KeptLines(lines: seq<string>, isSpace: char -> bool): (kept: seq<string>)
    ensures |kept| <= |lines|
    decreases |lines|
  {
    if lines == [] then []
    else
      var t := Trim(lines[0], isSpace);
      (if t == [] then [] else [t]) + KeptLines(lines[1..], isSpace)
  }

  /** Kept lines are the lines mapped through `Trim` with the empty results
      filtered out, as `lines.map(trim).filter(nonempty)`. */
  lemma {:induction false} KeptLinesIsFilterOfTrim(lines: seq<string>, isSpace: char -> bool)
    ensures KeptLines(lines, isSpace) == NonEmpty(TrimAll(lines, isSpace))
    decreases |lines|
  {
    if lines != [] {
      KeptLinesIsFilterOfTrim(lines[1..], isSpace);
      var all := TrimAll(lines, isSpace);
      assert all[0] == Trim(lines[0], isSpace);
      assert all[1..] == TrimAll(lines[1..], isSpace);
    }
  }

  /** Every kept line is non-empty and already trimmed. */
  lemma KeptLinesShape(lines: seq<string>, isSpace: char -> bool)
    ensures forall k :: 0 <= k < |KeptLines(lines, isSpace)| ==>
              KeptLines(lines, isSpace)[k] != [] && Trim(KeptLines(lines, isSpace)[k], isSpace) == KeptLines(lines, isSpace)[k]
  {
    KeptLinesIsFilterOfTrim(lines, isSpace);
    TrimAllTrimmed(lines, isSpace);
    NonEmptyShape(TrimAll(lines, isSpace));
  }

  lemma TrimAllTrimmed(lines: seq<string>, isSpace: char -> bool)
    ensures forall t :: t in TrimAll(lines, isSpace) ==> Trim(t, isSpace) == t
  {
    forall t | t in TrimAll(lines, isSpace) ensures Trim(t, isSpace) == t {
      var j :| 0 <= j < |lines| && t == TrimAll(lines, isSpace)[j];
      TrimIdempotent(lines[j], isSpace);
    }
  }

  /** The first line read either contributes its trimmed self or, if blank,
      nothing. */
  lemma KeptLinesCons(line: string, rest: seq<string>, isSpace: char -> bool)
    ensures KeptLines([line] + rest, isSpace)
         == (if Trim(line, isSpace) == [] then [] else [Trim(line, isSpace)]) + KeptLines(rest, isSpace)
  {
    assert ([line] + rest)[1..] == rest;
  }

  /** Lines that trim alike keep alike. */
  lemma {:induction false} KeptLinesPointwise(a: seq<string>, b: seq<string>, isSpace: char -> bool)
    requires |a| == |b| && forall k :: 0 <= k < |a| ==> Trim(a[k], isSpace) == Trim(b[k], isSpace)
    ensures KeptLines(a, isSpace) == KeptLines(b, isSpace)
    decreases |a|
  {
    if a != [] {
      assert Trim(a[0], isSpace) == Trim(b[0], isSpace);
      KeptLinesPointwise(a[1..], b[1..], isSpace);
    }
  }

  /** No kept line at all exactly when every line is blank. */
  lemma KeptLinesEmpty(lines: seq<string>, isSpace: char -> bool)
    ensures KeptLines(lines, isSpace) == [] <==> forall k :: 0 <= k < |lines| ==> AllSpace(lines[k], isSpace)
  {
    KeptLinesIsFilterOfTrim(lines, isSpace);
    var t := TrimAll(lines, isSpace);
    if k :| 0 <= k < |lines| && !AllSpace(lines[k], isSpace) {
      TrimShape(lines[k], isSpace);
      NonEmptyKeeps(t, k);
    } else {
      forall k | 0 <= k < |lines| ensures t[k] == [] {
        TrimShape(lines[k], isSpace);
      }
      NonEmptyOfEmpties(t);
    }
  }
}
