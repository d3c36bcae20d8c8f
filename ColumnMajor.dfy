/** The column-major layout LAPACK expects: entry (i, j) of an n x n matrix
    with leading dimension `lda` lives at offset `j * lda + i`. Both readers
    pack their rows this way, with `lda = n`. */
module ColumnMajor {

  /** A packed matrix as a reader hands it on: the buffer, the order `n`
      and the leading dimension `lda`. */
  datatype Packed = Packed(a: array<real>, n: nat, lda: nat)

  /** `rows` is an n x n matrix given row by row. */
  predicate IsSquare(rows: seq<seq<real>>, n: nat) {
    |rows| == n && forall i :: 0 <= i < n ==> |rows[i]| == n
  }

  /** Offset of entry (row i, column j). */
  function Offset(i: nat, j: nat, lda: nat): nat {
    j * lda + i
  }

  lemma MulMonotone(a: nat, b: nat, n: nat)
    requires a <= b
    ensures a * n <= b * n
  {
  }

  /** Euclidean division is unique: `q * n + r` with `r < n` divides back to
      `q` with remainder `r`. */
  lemma DivModUnique(k: nat, n: nat, q: nat, r: nat)
    requires r < n && k == q * n + r
    ensures k / n == q && k % n == r
  {
    var q', r' := k / n, k % n;
    if q' < q {
      MulMonotone(q' + 1, q, n);
    } else if q < q' {
      MulMonotone(q + 1, q', n);
    }
  }

  /** The row of buffer cell k: `k % n`. */
  function Row(k: nat, n: nat): nat {
    if n == 0 then 0 else k % n
  }

  /** The column of buffer cell k: `k / n`. */
  function Col(k: nat, n: nat): nat {
    if n == 0 then 0 else k / n
  }

  /** Row and column are recovered from an offset. */
  lemma OffsetDivMod(i: nat, j: nat, n: nat)
    requires i < n
    ensures Row(Offset(i, j, n), n) == i && Col(Offset(i, j, n), n) == j
  {
    DivModUnique(j * n + i, n, j, i);
  }

  /** Every offset of an n x n matrix is inside the n*n buffer. */
  lemma OffsetInRange(i: nat, j: nat, n: nat)
    requires i < n && j < n
    ensures Offset(i, j, n) < n * n
  {
    MulMonotone(j + 1, n, n);
  }

  /** The diagonal entries are inside the buffer. */
  lemma DiagonalInRange(n: nat)
    ensures forall i :: 0 <= i < n ==> Offset(i, i, n) < n * n
  {
    forall i | 0 <= i < n ensures Offset(i, i, n) < n * n {
      OffsetInRange(i, i, n);
    }
  }

  /** Each buffer cell is the offset of the entry in its row and column,
      and both are below n. */
  lemma CellOfOffset(k: nat, n: nat)
    requires k < n * n
    ensures Row(k, n) < n && Col(k, n) < n && Offset(Row(k, n), Col(k, n), n) == k
  {
    if n <= k / n {
      MulMonotone(n, k / n, n);
    }
  }

  /** Two entries of the square have the same offset only if they are the
      same entry: together with `OffsetInRange` and `CellOfOffset`, the
      layout maps the n x n index square one-to-one onto the buffer. */
  lemma OffsetInjective(i: nat, j: nat, i': nat, j': nat, n: nat)
    requires i < n && i' < n
    ensures Offset(i, j, n) == Offset(i', j', n) ==> i == i' && j == j'
  {
    OffsetDivMod(i, j, n);
    OffsetDivMod(i', j', n);
  }

  /** The packed buffer of an n x n matrix given row by row: cell k holds
      the entry in row `k % n`, column `k / n`. */
  function ColumnMajorOf(rows: seq<seq<real>>, n: nat): (a: seq<real>)
    requires IsSquare(rows, n)
    ensures |a| == n * n
  {
    seq(n * n, k requires 0 <= k < n * n => RowMajorEntry(rows, n, k))
  }

  function RowMajorEntry(rows: seq<seq<real>>, n: nat, k: nat): real
    requires IsSquare(rows, n) && k < n * n
  {
    CellOfOffset(k, n);
    rows[Row(k, n)][Col(k, n)]
  }

  /** Entry (i, j) is at offset j * n + i of the packed buffer. */
  lemma ColumnMajorAt(rows: seq<seq<real>>, n: nat, i: nat, j: nat)
    requires IsSquare(rows, n) && i < n && j < n
    ensures Offset(i, j, n) < n * n && ColumnMajorOf(rows, n)[Offset(i, j, n)] == rows[i][j]
  {
    OffsetInRange(i, j, n);
    OffsetDivMod(i, j, n);
  }

  /** The nested loop of both readers, `A[j * n + i] = rows[i][j]` for all
      i, j < n, into a fresh buffer of n*n cells. */
  method Pack(rows: seq<seq<real>>, n: nat) returns (a: array<real>)
    requires IsSquare(rows, n)
    ensures fresh(a) && a.Length == n * n
    ensures a[..] == ColumnMajorOf(rows, n)
  {
    a := new real[n * n];
    ghost var cm := ColumnMajorOf(rows, n);
    for i := 0 to n
      invariant forall k :: 0 <= k < a.Length && Row(k, n) < i ==> a[k] == cm[k]
    {
      for j := 0 to n
        invariant forall k :: 0 <= k < a.Length && Row(k, n) < i ==> a[k] == cm[k]
        invariant forall k :: 0 <= k < a.Length && Row(k, n) == i && Col(k, n) < j ==> a[k] == cm[k]
      {
        ColumnMajorAt(rows, n, i, j);
        OffsetDivMod(i, j, n);
        a[j * n + i] := rows[i][j];
        forall k | 0 <= k < a.Length && Row(k, n) == i && Col(k, n) == j ensures k == Offset(i, j, n) {
          CellOfOffset(k, n);
        }
      }
      forall k | 0 <= k < a.Length && Row(k, n) == i ensures Col(k, n) < n {
        CellOfOffset(k, n);
      }
    }
    forall k | 0 <= k < a.Length ensures a[k] == cm[k] {
      CellOfOffset(k, n);
    }
  }
}
