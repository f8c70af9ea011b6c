/** Linear algebra over GF(2), the two-element field where addition is XOR and
    multiplication is AND.  A bit vector is a sequence of bits and a bit matrix
    is a sequence of rows, as numpy stores the 0/1 matrices of the shares code. */
module Gf2 {

  type Bit = b: int | 0 <= b <= 1
  type Vec = seq<Bit>
  type Matrix = seq<Vec>

  /** Addition in GF(2): exclusive or. */
  function Add(a: Bit, b: Bit): Bit { if a == b then 0 else 1 }

  /** Multiplication in GF(2): and. */
  function Mul(a: Bit, b: Bit): Bit { if a == 1 then b else 0 }

  function Zeros(n: nat): Vec { seq(n, _ => 0) }

  function Ones(n: nat): Vec { seq(n, _ => 1) }

  /** The unit vector with a single 1 at position i. */
  function Unit(n: nat, i: int): Vec { seq(n, j => if j == i then 1 else 0) }

  /** Element-wise XOR of two vectors of the same length. */
  function VAdd(u: Vec, v: Vec): Vec
    requires |u| == |v|
  {
    seq(|u|, k requires 0 <= k < |u| => Add(u[k], v[k]))
  }

  /** A vector multiplied by a scalar bit. */
  function Scale(a: Bit, v: Vec): Vec { if a == 1 then v else Zeros(|v|) }

  predicate IsMatrix(A: Matrix, rows: nat, cols: nat)
  {
    |A| == rows && forall i :: 0 <= i < rows ==> |A[i]| == cols
  }

  /** Inner product over GF(2): the parity of the positions where both are 1. */
  function Dot(u: Vec, v: Vec): Bit
    requires |u| == |v|
    decreases |u|
  {
    if |u| == 0 then 0
    else Add(Dot(u[..|u| - 1], v[..|v| - 1]), Mul(u[|u| - 1], v[|v| - 1]))
  }

  /** Column j of a matrix whose rows are all longer than j. */
  function Column(R: Matrix, j: nat): Vec
    requires forall k :: 0 <= k < |R| ==> j < |R[k]|
  {
    seq(|R|, k requires 0 <= k < |R| => R[k][j])
  }

  /** The XOR of the rows of R selected by the 1-bits of c: the row vector c times R. */
  function LinComb(c: Vec, R: Matrix, w: nat): (v: Vec)
    requires |c| == |R| && IsMatrix(R, |R|, w)
    ensures |v| == w
    decreases |c|
  {
    if |c| == 0 then Zeros(w)
    else VAdd(LinComb(c[..|c| - 1], R[..|R| - 1], w), Scale(c[|c| - 1], R[|R| - 1]))
  }

  /** The matrix product A times B over GF(2); w is the number of columns of B. */
  function MatMul(A: Matrix, B: Matrix, w: nat): (C: Matrix)
    requires IsMatrix(A, |A|, |B|) && IsMatrix(B, |B|, w)
    ensures IsMatrix(C, |A|, w)
  {
    seq(|A|, i requires 0 <= i < |A| => LinComb(A[i], B, w))
  }

  /** The column vector B times y. */
  function MatVec(B: Matrix, y: Vec): Vec
    requires forall k :: 0 <= k < |B| ==> |B[k]| == |y|
  {
    seq(|B|, k requires 0 <= k < |B| => Dot(B[k], y))
  }

  function Identity(n: nat): Matrix { seq(n, i => Unit(n, i)) }

  function Zero(rows: nat, cols: nat): Matrix { seq(rows, _ => Zeros(cols)) }

  /** Rows of no entries make up the zero matrix of no columns. */
  lemma NoColumns(C: Matrix, n: nat)
    requires IsMatrix(C, n, 0)
    ensures C == Zero(n, 0)
  {
    forall i | 0 <= i < n ensures C[i] == Zero(n, 0)[i] {
      assert |C[i]| == 0;
    }
  }

  /** The rows of A at the given indices, in the order of the indices. */
  function Select(A: Matrix, idx: seq<nat>): Matrix
    requires forall r :: 0 <= r < |idx| ==> idx[r] < |A|
  {
    seq(|idx|, r requires 0 <= r < |idx| => A[idx[r]])
  }

  /** The first k entries of every row (numpy's A[:, :k]). */
  function Leading(A: Matrix, k: nat): (L: Matrix)
    requires forall i :: 0 <= i < |A| ==> k <= |A[i]|
    ensures IsMatrix(L, |A|, k)
    ensures forall i, j :: 0 <= i < |A| && 0 <= j < k ==> L[i][j] == A[i][j]
  {
    seq(|A|, i requires 0 <= i < |A| => A[i][..k])
  }

  /** Keeping all w columns of a matrix with w columns keeps the matrix. */
  lemma LeadingAll(A: Matrix, w: nat)
    requires IsMatrix(A, |A|, w)
    ensures Leading(A, w) == A
  {
    forall i | 0 <= i < |A| ensures Leading(A, w)[i] == A[i] {
      assert A[i][..w] == A[i];
    }
  }

  /** The transpose (numpy's A.T) of a matrix with w columns. */
  function Transpose(A: Matrix, w: nat): (T: Matrix)
    requires IsMatrix(A, |A|, w)
    ensures IsMatrix(T, w, |A|)
    ensures forall i, j :: 0 <= i < w && 0 <= j < |A| ==> T[i][j] == A[j][i]
  {
    seq(w, i requires 0 <= i < w => Column(A, i))
  }

  /** The XOR of all rows of R (numpy's bitwise_xor.reduce along axis 0). */
  function RowXor(R: Matrix, w: nat): (v: Vec)
    requires IsMatrix(R, |R|, w)
    ensures |v| == w
    decreases |R|
  {
    if |R| == 0 then Zeros(w) else VAdd(RowXor(R[..|R| - 1], w), R[|R| - 1])
  }

  /** A square matrix is nonsingular when its only kernel vector is zero. */
  ghost predicate Nonsingular(A: Matrix)
  {
    IsMatrix(A, |A|, |A|) &&
    forall X :: IsMatrix(X, |A|, 1) && MatMul(A, X, 1) == Zero(|A|, 1) ==> X == Zero(|A|, 1)
  }

  /** X is a nonzero column vector that A maps to zero. */
  ghost predicate KernelWitness(A: Matrix, X: Matrix)
    requires IsMatrix(A, |A|, |A|)
  {
    IsMatrix(X, |A|, 1) && MatMul(A, X, 1) == Zero(|A|, 1) && X != Zero(|A|, 1)
  }

  // ---------------------------------------------------------------------------
  // Inner products

  lemma {:induction false} DotZerosLeft(v: Vec)
    ensures Dot(Zeros(|v|), v) == 0
    decreases |v|
  {
    if |v| > 0 {
      assert Zeros(|v|)[..|v| - 1] == Zeros(|v| - 1);
      DotZerosLeft(v[..|v| - 1]);
    }
  }

  lemma {:induction false} DotZerosRight(u: Vec)
    ensures Dot(u, Zeros(|u|)) == 0
    decreases |u|
  {
    if |u| > 0 {
      assert Zeros(|u|)[..|u| - 1] == Zeros(|u| - 1);
      DotZerosRight(u[..|u| - 1]);
    }
  }

  /** The inner product is additive in its left argument. */
  lemma {:induction false} DotAddLeft(c: Vec, d: Vec, x: Vec)
    requires |c| == |d| == |x|
    ensures Dot(VAdd(c, d), x) == Add(Dot(c, x), Dot(d, x))
    decreases |c|
  {
    if |c| > 0 {
      var n := |c| - 1;
      assert VAdd(c, d)[..n] == VAdd(c[..n], d[..n]);
      DotAddLeft(c[..n], d[..n], x[..n]);
    }
  }

  /** The inner product is additive in its right argument. */
  lemma {:induction false} DotAddRight(u: Vec, x: Vec, y: Vec)
    requires |u| == |x| == |y|
    ensures Dot(u, VAdd(x, y)) == Add(Dot(u, x), Dot(u, y))
    decreases |u|
  {
    if |u| > 0 {
      var n := |u| - 1;
      assert VAdd(x, y)[..n] == VAdd(x[..n], y[..n]);
      DotAddRight(u[..n], x[..n], y[..n]);
    }
  }

  lemma DotScaleLeft(a: Bit, b: Vec, y: Vec)
    requires |b| == |y|
    ensures Dot(Scale(a, b), y) == Mul(a, Dot(b, y))
  {
    if a == 0 { DotZerosLeft(y); }
  }

  /** The inner product with a unit vector picks one entry. */
  lemma {:induction false} DotUnitLeft(n: nat, i: nat, y: Vec)
    requires i < n == |y|
    ensures Dot(Unit(n, i), y) == y[i]
    decreases n
  {
    var m := n - 1;
    assert Unit(n, i)[..m] == if i < m then Unit(m, i) else Zeros(m);
    if i < m {
      DotUnitLeft(m, i, y[..m]);
    } else {
      DotZerosLeft(y[..m]);
    }
  }

  /** Terms outside the set {p, q} contribute nothing to the inner product. */
  lemma {:induction false} DotTwoTerms(u: Vec, v: Vec, p: nat, q: nat)
    requires |u| == |v| && p < |u| && q < |u| && p != q
    requires forall k :: 0 <= k < |u| && k != p && k != q ==> Mul(u[k], v[k]) == 0
    ensures Dot(u, v) == Add(Mul(u[p], v[p]), Mul(u[q], v[q]))
  {
    DotSparse(u, v, |u|, p, q);
    assert u[..|u|] == u && v[..|v|] == v;
  }

  lemma {:induction false} DotSparse(u: Vec, v: Vec, m: nat, p: nat, q: nat)
    requires |u| == |v| && m <= |u| && p < |u| && q < |u| && p != q
    requires forall k :: 0 <= k < |u| && k != p && k != q ==> Mul(u[k], v[k]) == 0
    ensures Dot(u[..m], v[..m]) ==
            Add(if p < m then Mul(u[p], v[p]) else 0, if q < m then Mul(u[q], v[q]) else 0)
    decreases m
  {
    if m > 0 {
      assert u[..m][..m - 1] == u[..m - 1];
      assert v[..m][..m - 1] == v[..m - 1];
      DotSparse(u, v, m - 1, p, q);
    } else {
      assert u[..m] == [];
    }
    if m == |u| {
      assert u[..m] == u && v[..m] == v;
    }
  }

  /** An inner product all of whose terms vanish is zero. */
  lemma {:induction false} DotAllTermsZero(u: Vec, v: Vec)
    requires |u| == |v|
    requires forall k :: 0 <= k < |u| ==> Mul(u[k], v[k]) == 0
    ensures Dot(u, v) == 0
    decreases |u|
  {
    if |u| > 0 {
      DotAllTermsZero(u[..|u| - 1], v[..|v| - 1]);
    }
  }

  /** The inner product of the first k entries, summed by index. */
  function DotUpTo(u: Vec, v: Vec, k: nat): Bit
    requires k <= |u| == |v|
  {
    if k == 0 then 0 else Add(DotUpTo(u, v, k - 1), Mul(u[k - 1], v[k - 1]))
  }

  lemma {:induction false} DotUpToPrefix(u: Vec, v: Vec, k: nat)
    requires 0 < |u| == |v| && k < |u|
    ensures DotUpTo(u[..|u| - 1], v[..|v| - 1], k) == DotUpTo(u, v, k)
  {
    if k > 0 {
      DotUpToPrefix(u, v, k - 1);
    }
  }

  lemma {:induction false} DotIsDotUpTo(u: Vec, v: Vec)
    requires |u| == |v|
    ensures Dot(u, v) == DotUpTo(u, v, |u|)
    decreases |u|
  {
    if |u| > 0 {
      var n := |u| - 1;
      DotIsDotUpTo(u[..n], v[..n]);
      DotUpToPrefix(u, v, n);
    }
  }

  // ---------------------------------------------------------------------------
  // Linear combinations of rows

  /** Entry j of cR is the inner product of c with column j of R. */
  lemma {:induction false} LinCombAt(c: Vec, R: Matrix, w: nat, j: nat)
    requires |c| == |R| && IsMatrix(R, |R|, w) && j < w
    ensures LinComb(c, R, w)[j] == Dot(c, Column(R, j))
    decreases |c|
  {
    if |c| > 0 {
      var n := |c| - 1;
      assert Column(R, j)[..n] == Column(R[..n], j);
      LinCombAt(c[..n], R[..n], w, j);
    }
  }

  /** Row vector times matrix, then times a column, equals row times (matrix times column). */
  lemma {:induction false} LinCombDot(a: Vec, B: Matrix, w: nat, y: Vec)
    requires |a| == |B| && IsMatrix(B, |B|, w) && |y| == w
    ensures Dot(LinComb(a, B, w), y) == Dot(a, MatVec(B, y))
    decreases |a|
  {
    if |a| > 0 {
      var n := |a| - 1;
      var rest := LinComb(a[..n], B[..n], w);
      assert LinComb(a, B, w) == VAdd(rest, Scale(a[n], B[n]));
      DotAddLeft(rest, Scale(a[n], B[n]), y);
      DotScaleLeft(a[n], B[n], y);
      LinCombDot(a[..n], B[..n], w, y);
      var mv := MatVec(B, y);
      assert mv[..n] == MatVec(B[..n], y);
      assert mv[n] == Dot(B[n], y);
      assert Dot(a, mv) == Add(Dot(a[..n], mv[..n]), Mul(a[n], mv[n]));
    } else {
      DotZerosLeft(y);
    }
  }

  /** One more step of the accumulation share ^= c[i] * R[i]. */
  lemma LinCombPrefix(c: Vec, R: Matrix, w: nat, i: nat)
    requires |c| == |R| && IsMatrix(R, |R|, w) && i < |c|
    ensures LinComb(c[..i + 1], R[..i + 1], w) == VAdd(LinComb(c[..i], R[..i], w), Scale(c[i], R[i]))
  {
    assert c[..i + 1][..i] == c[..i];
    assert R[..i + 1][..i] == R[..i];
  }

  lemma LinCombEqual(c: Vec, R: Matrix, w: nat, v: Vec)
    requires |c| == |R| && IsMatrix(R, |R|, w) && |v| == w
    requires forall j :: 0 <= j < w ==> Dot(c, Column(R, j)) == v[j]
    ensures LinComb(c, R, w) == v
  {
    forall j | 0 <= j < w ensures LinComb(c, R, w)[j] == v[j] {
      LinCombAt(c, R, w, j);
    }
  }

  /** c R is additive in c. */
  lemma LinCombAdd(c: Vec, d: Vec, R: Matrix, w: nat)
    requires |c| == |d| == |R| && IsMatrix(R, |R|, w)
    ensures LinComb(VAdd(c, d), R, w) == VAdd(LinComb(c, R, w), LinComb(d, R, w))
  {
    forall j | 0 <= j < w
      ensures LinComb(VAdd(c, d), R, w)[j] == VAdd(LinComb(c, R, w), LinComb(d, R, w))[j]
    {
      LinCombAt(VAdd(c, d), R, w, j);
      LinCombAt(c, R, w, j);
      LinCombAt(d, R, w, j);
      DotAddLeft(c, d, Column(R, j));
    }
  }

  /** Selecting with a unit vector returns one row. */
  lemma LinCombUnit(i: nat, R: Matrix, w: nat)
    requires i < |R| && IsMatrix(R, |R|, w)
    ensures LinComb(Unit(|R|, i), R, w) == R[i]
  {
    forall j | 0 <= j < w ensures LinComb(Unit(|R|, i), R, w)[j] == R[i][j] {
      LinCombAt(Unit(|R|, i), R, w, j);
      DotUnitLeft(|R|, i, Column(R, j));
    }
  }

  /** Selecting with the all-ones vector returns the XOR of all rows. */
  lemma {:induction false} LinCombOnes(R: Matrix, w: nat)
    requires IsMatrix(R, |R|, w)
    ensures LinComb(Ones(|R|), R, w) == RowXor(R, w)
    decreases |R|
  {
    if |R| > 0 {
      assert Ones(|R|)[..|R| - 1] == Ones(|R| - 1);
      LinCombOnes(R[..|R| - 1], w);
    }
  }

  /** When every row but row i is zero, the XOR of the rows is row i. */
  lemma {:induction false} RowXorSingle(R: Matrix, w: nat, i: nat)
    requires IsMatrix(R, |R|, w) && i < |R|
    requires forall k :: 0 <= k < |R| && k != i ==> R[k] == Zeros(w)
    ensures RowXor(R, w) == R[i]
    decreases |R|
  {
    var n := |R| - 1;
    if i < n {
      RowXorSingle(R[..n], w, i);
    } else {
      RowXorZero(R[..n], w);
    }
  }

  lemma {:induction false} RowXorZero(R: Matrix, w: nat)
    requires IsMatrix(R, |R|, w)
    requires forall k :: 0 <= k < |R| ==> R[k] == Zeros(w)
    ensures RowXor(R, w) == Zeros(w)
    decreases |R|
  {
    if |R| > 0 {
      RowXorZero(R[..|R| - 1], w);
    }
  }

  // ---------------------------------------------------------------------------
  // Matrix products

  /** Matrix multiplication over GF(2) is associative. */
  lemma MatMulAssoc(A: Matrix, B: Matrix, C: Matrix, w1: nat, w2: nat)
    requires IsMatrix(A, |A|, |B|) && IsMatrix(B, |B|, w1) && IsMatrix(C, w1, w2)
    ensures MatMul(MatMul(A, B, w1), C, w2) == MatMul(A, MatMul(B, C, w2), w2)
  {
    var AB := MatMul(A, B, w1);
    var BC := MatMul(B, C, w2);
    forall i | 0 <= i < |A| ensures MatMul(AB, C, w2)[i] == MatMul(A, BC, w2)[i] {
      forall j | 0 <= j < w2 ensures LinComb(AB[i], C, w2)[j] == LinComb(A[i], BC, w2)[j] {
        AssocEntry(A[i], B, C, w1, w2, j);
      }
    }
  }

  lemma AssocEntry(a: Vec, B: Matrix, C: Matrix, w1: nat, w2: nat, j: nat)
    requires |a| == |B| && IsMatrix(B, |B|, w1) && IsMatrix(C, w1, w2) && j < w2
    ensures LinComb(LinComb(a, B, w1), C, w2)[j] == LinComb(a, MatMul(B, C, w2), w2)[j]
  {
    var BC := MatMul(B, C, w2);
    var y := Column(C, j);
    LinCombAt(LinComb(a, B, w1), C, w2, j);
    LinCombDot(a, B, w1, y);
    LinCombAt(a, BC, w2, j);
    forall k | 0 <= k < |B| ensures Column(BC, j)[k] == MatVec(B, y)[k] {
      LinCombAt(B[k], C, w2, j);
    }
    assert Column(BC, j) == MatVec(B, y);
  }

  lemma MatMulIdentityLeft(B: Matrix, w: nat)
    requires IsMatrix(B, |B|, w)
    ensures MatMul(Identity(|B|), B, w) == B
  {
    forall i | 0 <= i < |B| ensures MatMul(Identity(|B|), B, w)[i] == B[i] {
      LinCombUnit(i, B, w);
    }
  }

  lemma MatMulZeroRight(A: Matrix, n: nat, w: nat)
    requires IsMatrix(A, |A|, n)
    ensures MatMul(A, Zero(n, w), w) == Zero(|A|, w)
  {
    forall i | 0 <= i < |A| ensures MatMul(A, Zero(n, w), w)[i] == Zeros(w) {
      forall j | 0 <= j < w ensures LinComb(A[i], Zero(n, w), w)[j] == 0 {
        LinCombAt(A[i], Zero(n, w), w, j);
        assert Column(Zero(n, w), j) == Zeros(n);
        DotZerosRight(A[i]);
      }
    }
  }

  /** Choosing rows of a product is the product of the chosen rows. */
  lemma MatMulSelect(A: Matrix, idx: seq<nat>, X: Matrix, w: nat)
    requires IsMatrix(A, |A|, |X|) && IsMatrix(X, |X|, w)
    requires forall r :: 0 <= r < |idx| ==> idx[r] < |A|
    ensures MatMul(Select(A, idx), X, w) == Select(MatMul(A, X, w), idx)
  {
  }

  /** Entry (i, j) of a product, as a sum by index (for products of explicit matrices). */
  lemma MatMulEntry(A: Matrix, B: Matrix, w: nat, i: nat, j: nat)
    requires IsMatrix(A, |A|, |B|) && IsMatrix(B, |B|, w) && i < |A| && j < w
    ensures MatMul(A, B, w)[i][j] == DotUpTo(A[i], Column(B, j), |B|)
  {
    LinCombAt(A[i], B, w, j);
    DotIsDotUpTo(A[i], Column(B, j));
  }

  // ---------------------------------------------------------------------------
  // Invertibility

  /** A matrix with a left inverse is nonsingular. */
  lemma {:induction false} LeftInverseNonsingular(M: Matrix, A: Matrix)
    requires IsMatrix(A, |A|, |A|) && IsMatrix(M, |A|, |A|)
    requires MatMul(M, A, |A|) == Identity(|A|)
    ensures Nonsingular(A)
  {
    var n := |A|;
    forall X | IsMatrix(X, n, 1) && MatMul(A, X, 1) == Zero(n, 1) ensures X == Zero(n, 1) {
      MatMulAssoc(M, A, X, n, 1);
      MatMulIdentityLeft(X, 1);
      MatMulZeroRight(M, n, 1);
    }
  }

  /** A matrix with a nonzero kernel vector is singular. */
  lemma KernelSingular(A: Matrix, X: Matrix)
    requires IsMatrix(A, |A|, |A|) && KernelWitness(A, X)
    ensures !Nonsingular(A)
  {
  }

  /** A left inverse recovers X from A X. */
  lemma LeftInverseRecovers(M: Matrix, A: Matrix, X: Matrix, w: nat)
    requires IsMatrix(A, |A|, |A|) && IsMatrix(M, |A|, |A|) && IsMatrix(X, |A|, w)
    requires MatMul(M, A, |A|) == Identity(|A|)
    ensures MatMul(M, MatMul(A, X, w), w) == X
  {
    MatMulAssoc(M, A, X, |A|, w);
    MatMulIdentityLeft(X, w);
  }
}
