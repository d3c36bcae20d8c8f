/** The (sign, log|det|) form of a determinant, read off an LU factorization
    as `dgetrf` leaves it: the diagonal of U sits at offsets `i * lda + i` of
    the packed buffer, and the row permutation is given by the pivot
    record. `log` is a parameter: the model treats `log |u|` as an
    uninterpreted real function, so the log magnitude is the sum of its
    values over the diagonal. */
module LogDet {
  import opened Common
  import ColumnMajor
  import Pivots

  /** The result pair `{logabs, sign}` (`logabs_out`, `sign_out` in C). */
  datatype SignLog = SignLog(sign: int, logabs: Double)

  /** The singular answer: sign 0 and log magnitude -infinity. */
  const Singular := SignLog(0, NegInf)

  function Abs(u: real): real {
    if u < 0.0 then -u else u
  }

  /** The diagonal of U in the packed buffer of an n x n matrix, `lda = n`. */
  function Diagonal(a: seq<real>, n: nat): (d: seq<real>)
    requires |a| == n * n
    ensures |d| == n
    ensures forall i :: 0 <= i < n ==> ColumnMajor.Offset(i, i, n) < |a| && d[i] == a[ColumnMajor.Offset(i, i, n)]
  {
    ColumnMajor.DiagonalInRange(n);
    seq(n, i requires 0 <= i < n => a[ColumnMajor.Offset(i, i, n)])
  }

  /** The C program's sign of a nonzero pivot: `(uii > 0.0) ? 1 : -1`. */
  function CSign(u: real): int {
    if u > 0.0 then 1 else -1
  }

  /** JavaScript's `Math.sign` on a finite number. */
  function MathSign(u: real): int {
    if u > 0.0 then 1 else if u < 0.0 then -1 else 0
  }

  /** The product of `sgn` over `d`, accumulated left to right. */
  function SignProduct(d: seq<real>, sgn: real -> int): int {
    if d == [] then 1 else SignProduct(d[..|d| - 1], sgn) * sgn(d[|d| - 1])
  }

  /** The sum of `log |u|` over `d`, accumulated left to right. */
  function LogSum(d: seq<real>, log: real -> real): real {
    if d == [] then 0.0 else LogSum(d[..|d| - 1], log) + log(Abs(d[|d| - 1]))
  }

  predicate HasZero(d: seq<real>) {
    exists i :: 0 <= i < |d| && d[i] == 0.0
  }

  /** What both programs return once `dgetrf` has reported `info >= 0`: the
      singular answer if `info > 0` or a pivot is exactly zero, otherwise the
      permutation sign times the product of the pivot signs under `sgn`,
      with the sum of the pivots' log magnitudes. */
  function SlogDet(info: int, permSign: int, d: seq<real>, sgn: real -> int, log: real -> real): SignLog {
    if info > 0 || HasZero(d) then Singular
    else SignLog(permSign * SignProduct(d, sgn), Finite(LogSum(d, log)))
  }

  /** One more nonzero pivot in the diagonal scans of both programs: the
      running sign is multiplied by its sign and the running log magnitude
      grows by its log magnitude, and there is still no zero pivot. */
  lemma ScanStep(permSign: int, d: seq<real>, i: nat, sgn: real -> int, log: real -> real)
    requires i < |d| && !HasZero(d[..i]) && d[i] != 0.0
    ensures permSign * SignProduct(d[..i + 1], sgn) == permSign * SignProduct(d[..i], sgn) * sgn(d[i])
    ensures LogSum(d[..i + 1], log) == LogSum(d[..i], log) + log(Abs(d[i]))
    ensures !HasZero(d[..i + 1])
  {
    assert d[..i + 1][..i] == d[..i];
    assert d[..i + 1][i] == d[i];
  }

  /** The number of negative entries of `d`. */
  function Negatives(d: seq<real>): nat {
    if d == [] then 0 else Negatives(d[..|d| - 1]) + (if d[|d| - 1] < 0.0 then 1 else 0)
  }

  /** Over nonzero pivots the C sign and `Math.sign` agree, and their
      product is (-1) to the number of negative pivots. */
  lemma {:induction false} SignProductOfNonzero(d: seq<real>)
    requires !HasZero(d)
    ensures SignProduct(d, CSign) == SignProduct(d, MathSign) == Pivots.NegOnePow(Negatives(d))
  {
    if d != [] {
      var init := d[..|d| - 1];
      assert !HasZero(init) by {
        forall i | 0 <= i < |init| ensures init[i] != 0.0 {
          assert init[i] == d[i];
        }
      }
      SignProductOfNonzero(init);
      assert d[|d| - 1] != 0.0;
    }
  }

  /** The shape of every result: the sign is -1, 0 or 1; it is 0 exactly
      when the log magnitude is -infinity, and that happens exactly when
      `info > 0` or some pivot is zero; otherwise the sign is
      `permSign * (-1)^(negative pivots)` and the log magnitude is the sum
      of the pivots' log magnitudes. */
  lemma SlogDetShape(info: int, permSign: int, d: seq<real>, log: real -> real)
    requires permSign == 1 || permSign == -1
    ensures var r := SlogDet(info, permSign, d, CSign, log);
      && r == SlogDet(info, permSign, d, MathSign, log)
      && r.sign in {-1, 0, 1}
      && (r.sign == 0 <==> r.logabs == NegInf)
      && (r.sign == 0 <==> info > 0 || HasZero(d))
      && (r.sign != 0 ==> r.sign == permSign * Pivots.NegOnePow(Negatives(d)) && r.logabs == Finite(LogSum(d, log)))
  {
    if !(info > 0 || HasZero(d)) {
      SignProductOfNonzero(d);
    }
  }

  /** The scan stops at the first zero pivot: once pivot k is zero, nothing
      after it changes the answer. */
  lemma ZeroPivotDecides(info: int, permSign: int, d: seq<real>, d': seq<real>, k: nat, sgn: real -> int, log: real -> real)
    requires k < |d| && d[k] == 0.0 && |d'| == |d| && d'[..k + 1] == d[..k + 1]
    ensures SlogDet(info, permSign, d, sgn, log) == SlogDet(info, permSign, d', sgn, log) == Singular
  {
    assert d'[k] == d'[..k + 1][k];
  }

  /** `dgetrf`'s promise about `info >= 0`: info = 0 when every pivot is
      nonzero, and info = i > 0 when U(i,i) (1-based) is the first exactly
      zero pivot. */
  predicate DgetrfInfo(info: int, d: seq<real>) {
    && 0 <= info <= |d|
    && (info == 0 ==> !HasZero(d))
    && (info > 0 ==> d[info - 1] == 0.0 && forall i :: 0 <= i < info - 1 ==> d[i] != 0.0)
  }

  /** Under `dgetrf`'s promise the two singularity tests agree: `info > 0`
      exactly when a pivot is zero, so the zero test of the diagonal scan is
      a second line of defence. */
  lemma InfoMeansZeroPivot(info: int, d: seq<real>)
    requires DgetrfInfo(info, d)
    ensures info > 0 <==> HasZero(d)
  {
    if info > 0 {
      assert d[info - 1] == 0.0;
    }
  }

  /** The identity matrix: no swaps and unit pivots give sign 1 and log
      magnitude n * log 1, which is 0 for a log with log 1 = 0. */
  lemma {:induction false} UnitPivots(d: seq<real>, log: real -> real)
    requires forall i :: 0 <= i < |d| ==> d[i] == 1.0
    requires log(1.0) == 0.0
    ensures SlogDet(0, 1, d, CSign, log) == SignLog(1, Finite(0.0))
  {
    if d != [] {
      var init := d[..|d| - 1];
      UnitPivots(init, log);
      assert !HasZero(d);
      assert !HasZero(init);
    } else {
      assert !HasZero(d);
    }
  }
}
