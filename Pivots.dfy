/** LAPACK's pivot record and the sign of the row permutation it encodes.

    `dgetrf` reports its row interchanges in `ipiv`: at stage i (0-based)
    row i was swapped with row `ipiv[i] - 1` (the entries are 1-based), and
    `ipiv[i] == i + 1` means no swap. The determinant of the permutation is
    (-1) to the number of real swaps. Besides that count, this module gives
    the permutation itself (the `perm` array the JavaScript program builds)
    and its sign by inversion parity, and proves the two signs equal. */
module Pivots {

  /** The pivot record `dgetrf` returns for an n x n matrix: n entries with
      `i + 1 <= ipiv[i] <= n`, since stage i picks its pivot among rows
      i .. n-1. */
  predicate PivotRecord(ipiv: seq<int>, n: nat) {
    |ipiv| == n && forall i :: 0 <= i < n ==> i + 1 <= ipiv[i] <= n
  }

  /** How many of the first k stages swapped two rows (`ipiv[i] != i + 1`). */
  function Moved(ipiv: seq<int>, k: nat): nat
    requires k <= |ipiv|
  {
    if k == 0 then 0 else Moved(ipiv, k - 1) + (if ipiv[k - 1] != k then 1 else 0)
  }

  /** `Moved` is the size of the set of stages that swapped. */
  lemma {:induction false} MovedIsCount(ipiv: seq<int>, k: nat)
    requires k <= |ipiv|
    ensures Moved(ipiv, k) == |set i | 0 <= i < k && ipiv[i] != i + 1|
  {
    if k > 0 {
      MovedIsCount(ipiv, k - 1);
      var before := set i | 0 <= i < k - 1 && ipiv[i] != i + 1;
      if ipiv[k - 1] != k {
        assert (set i | 0 <= i < k && ipiv[i] != i + 1) == before + {k - 1};
      } else {
        assert (set i | 0 <= i < k && ipiv[i] != i + 1) == before;
      }
    }
  }

  /** (-1) to the power k. */
  function NegOnePow(k: nat): (r: int)
    ensures r == 1 || r == -1
  {
    if k == 0 then 1 else -NegOnePow(k - 1)
  }

  /** (-1)^k is 1 for even k and -1 for odd k. */
  lemma {:induction false} NegOnePowParity(k: nat)
    ensures NegOnePow(k) == if k % 2 == 0 then 1 else -1
  {
    if k > 0 {
      NegOnePowParity(k - 1);
    }
  }

  /** The permutation sign both programs compute: (-1) to the number of
      stages i with `ipiv[i] != i + 1`. */
  function PermSign(ipiv: seq<int>): (s: int)
    ensures s == 1 || s == -1
  {
    NegOnePow(Moved(ipiv, |ipiv|))
  }

  // ------------------------------------------------------------ permutations

  /** 0, 1, ..., n-1: `perm[i] = i` before any swap. */
  function Identity(n: nat): (p: seq<int>)
    ensures |p| == n && forall i :: 0 <= i < n ==> p[i] == i
  {
    seq(n, i => i)
  }

  /** `p` with the entries at positions i and j exchanged. */
  function Swap(p: seq<int>, i: nat, j: nat): (q: seq<int>)
    requires i < |p| && j < |p|
    ensures |q| == |p| && q[i] == p[j] && q[j] == p[i]
    ensures forall k :: 0 <= k < |p| && k != i && k != j ==> q[k] == p[k]
  {
    p[i := p[j]][j := p[i]]
  }

  /** The entries of `p` are pairwise different. */
  predicate Distinct(p: seq<int>) {
    forall a, b :: 0 <= a < b < |p| ==> p[a] != p[b]
  }

  /** `p` lists each of 0 .. n-1 exactly once. */
  predicate IsPermutation(p: seq<int>, n: nat) {
    |p| == n && (forall a :: 0 <= a < n ==> 0 <= p[a] < n) && Distinct(p)
  }

  /** `p` after the interchanges of the first k stages, applied in order. */
  function ApplyPivots(p: seq<int>, ipiv: seq<int>, k: nat): (q: seq<int>)
    requires k <= |ipiv| && |ipiv| == |p|
    requires forall i :: 0 <= i < k ==> 1 <= ipiv[i] <= |p|
    ensures |q| == |p|
  {
    if k == 0 then p
    else
      var q := ApplyPivots(p, ipiv, k - 1);
      if ipiv[k - 1] - 1 != k - 1 then Swap(q, k - 1, ipiv[k - 1] - 1) else q
  }

  /** Stage i of the record, in the terms of the loop that applies it: a
      real interchange swaps two cells and flips (-1)^Moved, no interchange
      changes nothing. */
  lemma PivotStage(ipiv: seq<int>, n: nat, i: nat)
    requires PivotRecord(ipiv, n) && i < n
    ensures ipiv[i] - 1 != i ==>
              && ApplyPivots(Identity(n), ipiv, i + 1) == Swap(ApplyPivots(Identity(n), ipiv, i), i, ipiv[i] - 1)
              && NegOnePow(Moved(ipiv, i + 1)) == -NegOnePow(Moved(ipiv, i))
    ensures ipiv[i] - 1 == i ==>
              && ApplyPivots(Identity(n), ipiv, i + 1) == ApplyPivots(Identity(n), ipiv, i)
              && Moved(ipiv, i + 1) == Moved(ipiv, i)
  {
  }

  /** An interchange keeps a permutation a permutation. */
  lemma SwapPermutation(p: seq<int>, n: nat, i: nat, j: nat)
    requires IsPermutation(p, n) && i < n && j < n
    ensures IsPermutation(Swap(p, i, j), n)
  {
    SwapDistinct(p, i, j);
  }

  /** Each stage's interchange is a single transposition or nothing, so the
      row order stays a permutation of 0 .. n-1 after every stage. */
  lemma {:induction false} ApplyPivotsPermutation(ipiv: seq<int>, n: nat, k: nat)
    requires PivotRecord(ipiv, n) && k <= n
    ensures IsPermutation(ApplyPivots(Identity(n), ipiv, k), n)
  {
    if k > 0 {
      ApplyPivotsPermutation(ipiv, n, k - 1);
      SwapPermutation(ApplyPivots(Identity(n), ipiv, k - 1), n, k - 1, ipiv[k - 1] - 1);
    }
  }

  // ------------------------------------------------------ inversion parity

  /** Number of entries of `s` smaller than x. */
  function Below(x: int, s: seq<int>): nat
    decreases |s|
  {
    if s == [] then 0 else (if s[0] < x then 1 else 0) + Below(x, s[1..])
  }

  /** Number of inversions of `p`: pairs a < b with p[a] > p[b]. */
  function Inversions(p: seq<int>): nat
    decreases |p|
  {
    if p == [] then 0 else Below(p[0], p[1..]) + Inversions(p[1..])
  }

  /** The sign of a permutation, by the parity of its inversions. */
  function Sign(p: seq<int>): (s: int)
    ensures s == 1 || s == -1
  {
    NegOnePow(Inversions(p))
  }

  /** Exchanging two neighbours of `s` does not change how many entries are
      below x. */
  lemma {:induction false} BelowAdjacentSwap(x: int, s: seq<int>, k: nat)
    requires k + 1 < |s|
    ensures Below(x, Swap(s, k, k + 1)) == Below(x, s)
    decreases k
  {
    var t := Swap(s, k, k + 1);
    if k == 0 {
      assert t[1..][1..] == s[1..][1..];
      assert t[1..][0] == s[0] && t[0] == s[1];
    } else {
      BelowAdjacentSwap(x, s[1..], k - 1);
      assert t[1..] == Swap(s[1..], k - 1, k);
    }
  }

  /** Exchanging two different neighbours adds or removes exactly one
      inversion. */
  lemma {:induction false} InversionsAdjacentSwap(p: seq<int>, k: nat)
    requires k + 1 < |p| && p[k] != p[k + 1]
    ensures Inversions(Swap(p, k, k + 1)) == Inversions(p) + (if p[k] < p[k + 1] then 1 else -1)
    decreases k
  {
    var q := Swap(p, k, k + 1);
    if k == 0 {
      assert q[1..][1..] == p[1..][1..];
      assert q[1..][0] == p[0] && q[0] == p[1];
      assert p[1..][0] == p[1];
    } else {
      InversionsAdjacentSwap(p[1..], k - 1);
      assert q[1..] == Swap(p[1..], k - 1, k);
      BelowAdjacentSwap(p[0], p[1..], k - 1);
    }
  }

  lemma NegOnePowStep(k: nat)
    ensures NegOnePow(k + 1) == -NegOnePow(k)
  {
  }

  /** Exchanging neighbours flips the sign. */
  lemma AdjacentSwapSign(p: seq<int>, k: nat)
    requires k + 1 < |p| && p[k] != p[k + 1]
    ensures Sign(Swap(p, k, k + 1)) == -Sign(p)
  {
    InversionsAdjacentSwap(p, k);
    if p[k] < p[k + 1] {
      NegOnePowStep(Inversions(p));
    } else {
      NegOnePowStep(Inversions(Swap(p, k, k + 1)));
    }
  }

  lemma SwapDistinct(p: seq<int>, i: nat, j: nat)
    requires Distinct(p) && i < |p| && j < |p|
    ensures Distinct(Swap(p, i, j))
  {
    var q := Swap(p, i, j);
    forall a, b | 0 <= a < b < |p| ensures q[a] != q[b] {
      var a' := if a == i then j else if a == j then i else a;
      var b' := if b == i then j else if b == j then i else b;
      assert q[a] == p[a'] && q[b] == p[b'] && a' != b';
    }
  }

  /** Every transposition of a sequence of distinct entries flips its sign.
      The exchange of i and j is the exchange of j-1 and j, then of i and
      j-1, then of j-1 and j again: three flips by induction on j - i. */
  lemma {:induction false} SwapSign(p: seq<int>, i: nat, j: nat)
    requires Distinct(p) && i < j < |p|
    ensures Sign(Swap(p, i, j)) == -Sign(p)
    decreases j - i
  {
    if j == i + 1 {
      AdjacentSwapSign(p, i);
    } else {
      var q1 := Swap(p, j - 1, j);
      AdjacentSwapSign(p, j - 1);
      SwapDistinct(p, j - 1, j);
      var q2 := Swap(q1, i, j - 1);
      SwapSign(q1, i, j - 1);
      SwapDistinct(q1, i, j - 1);
      AdjacentSwapSign(q2, j - 1);
      ThreeSwaps(p, i, j);
    }
  }

  /** Exchanging i and j is exchanging j-1 and j, then i and j-1, then j-1
      and j again. */
  lemma ThreeSwaps(p: seq<int>, i: nat, j: nat)
    requires i + 1 < j < |p|
    ensures Swap(Swap(Swap(p, j - 1, j), i, j - 1), j - 1, j) == Swap(p, i, j)
  {
    var q := Swap(Swap(Swap(p, j - 1, j), i, j - 1), j - 1, j);
    forall k | 0 <= k < |p| ensures q[k] == Swap(p, i, j)[k] {
    }
  }

  /** An increasing sequence has no inversions. */
  lemma {:induction false} IncreasingNoInversions(p: seq<int>)
    requires forall a, b :: 0 <= a < b < |p| ==> p[a] < p[b]
    ensures Inversions(p) == 0
    decreases |p|
  {
    if p != [] {
      IncreasingNoInversions(p[1..]);
      NoneBelow(p[0], p[1..]);
    }
  }

  lemma {:induction false} NoneBelow(x: int, s: seq<int>)
    requires forall a :: 0 <= a < |s| ==> x < s[a]
    ensures Below(x, s) == 0
    decreases |s|
  {
    if s != [] {
      NoneBelow(x, s[1..]);
    }
  }

  /** The count of swapping stages gives the sign of the row permutation
      they build: `PermSign(ipiv)` is the sign of `perm` once the loop over
      `ipiv` is done. */
  lemma PermSignIsSign(ipiv: seq<int>, n: nat)
    requires PivotRecord(ipiv, n)
    ensures PermSign(ipiv) == Sign(ApplyPivots(Identity(n), ipiv, n))
  {
    PrefixSign(ipiv, n, n);
  }

  lemma {:induction false} PrefixSign(ipiv: seq<int>, n: nat, k: nat)
    requires PivotRecord(ipiv, n) && k <= n
    ensures NegOnePow(Moved(ipiv, k)) == Sign(ApplyPivots(Identity(n), ipiv, k))
  {
    if k == 0 {
      IdentitySign(n);
    } else {
      PrefixSign(ipiv, n, k - 1);
      var q := ApplyPivots(Identity(n), ipiv, k - 1);
      if ipiv[k - 1] != k {
        ApplyPivotsPermutation(ipiv, n, k - 1);
        SwapSign(q, k - 1, ipiv[k - 1] - 1);
        NegOnePowStep(Moved(ipiv, k - 1));
      }
    }
  }

  /** The identity has sign 1. */
  lemma IdentitySign(n: nat)
    ensures Sign(Identity(n)) == 1
  {
    IncreasingNoInversions(Identity(n));
  }
}
