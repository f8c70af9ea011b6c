/** Gauss-Jordan inversion over GF(2).  The working copy A and the matrix I that
    starts as the identity receive the same row swaps and row additions; when A
    has become the identity, I is the inverse.  Each step of the elimination is
    logged (as ghost state) so that on failure the input can be shown singular. */
module GaussJordan {
  import opened Gf2
  import opened Results

  /** An elementary row operation: exchange two rows, or add row src into row dst. */
  datatype RowOp = Swap(i: nat, j: nat) | AddRow(dst: nat, src: nat)

  ghost predicate OpFits(op: RowOp, n: nat)
  {
    match op
    case Swap(i, j) => i < n && j < n
    case AddRow(d, s) => d < n && s < n && d != s
  }

  ghost predicate OpsFit(ops: seq<RowOp>, n: nat)
  {
    forall k :: 0 <= k < |ops| ==> OpFits(ops[k], n)
  }

  ghost function ApplyOp(op: RowOp, A: Matrix, w: nat): (B: Matrix)
    requires OpFits(op, |A|) && IsMatrix(A, |A|, w)
    ensures IsMatrix(B, |A|, w)
  {
    match op
    case Swap(i, j) => A[i := A[j]][j := A[i]]
    case AddRow(d, s) => A[d := VAdd(A[d], A[s])]
  }

  /** Undoes a log of row operations, the last one first. */
  ghost function Undo(ops: seq<RowOp>, A: Matrix, w: nat): (B: Matrix)
    requires OpsFit(ops, |A|) && IsMatrix(A, |A|, w)
    ensures IsMatrix(B, |A|, w)
    decreases |ops|
  {
    if ops == [] then A
    else Undo(ops[..|ops| - 1], ApplyOp(ops[|ops| - 1], A, w), w)
  }

  /** Columns 0 .. col-1 of a are columns of the identity. */
  ghost predicate UnitColumns(a: Matrix, col: nat)
    requires IsMatrix(a, |a|, |a|) && col <= |a|
  {
    forall r, c :: 0 <= r < |a| && 0 <= c < col ==> a[r][c] == if r == c then 1 else 0
  }

  /** The state of the elimination before column col: inv A == a, the log undoes a to A,
      and the first col columns of a are done. */
  ghost predicate Progress(a: Matrix, inv: Matrix, A: Matrix, ops: seq<RowOp>, col: nat)
  {
    var n := |A|;
    IsMatrix(A, n, n) && IsMatrix(a, n, n) && IsMatrix(inv, n, n) && col <= n &&
    MatMul(inv, A, n) == a &&
    OpsFit(ops, n) && Undo(ops, a, n) == A &&
    UnitColumns(a, col)
  }

  // ---------------------------------------------------------------------------
  // Row operations

  lemma ApplyOpTwice(op: RowOp, A: Matrix, w: nat)
    requires OpFits(op, |A|) && IsMatrix(A, |A|, w)
    ensures ApplyOp(op, ApplyOp(op, A, w), w) == A
  {
    match op
    case Swap(i, j) =>
    case AddRow(d, s) =>
      var B := ApplyOp(op, A, w);
      assert VAdd(B[d], B[s]) == A[d];
  }

  /** A row operation on A is the same row operation on every product A X. */
  lemma ApplyOpMatMul(op: RowOp, A: Matrix, X: Matrix, w: nat)
    requires OpFits(op, |A|) && IsMatrix(A, |A|, |X|) && IsMatrix(X, |X|, w)
    ensures MatMul(ApplyOp(op, A, |X|), X, w) == ApplyOp(op, MatMul(A, X, w), w)
  {
    match op
    case Swap(i, j) =>
    case AddRow(d, s) =>
      LinCombAdd(A[d], A[s], X, w);
  }

  lemma {:induction false} UndoMatMul(ops: seq<RowOp>, A: Matrix, X: Matrix, w: nat)
    requires OpsFit(ops, |A|) && IsMatrix(A, |A|, |X|) && IsMatrix(X, |X|, w)
    ensures MatMul(Undo(ops, A, |X|), X, w) == Undo(ops, MatMul(A, X, w), w)
    decreases |ops|
  {
    if ops != [] {
      var op := ops[|ops| - 1];
      ApplyOpMatMul(op, A, X, w);
      UndoMatMul(ops[..|ops| - 1], ApplyOp(op, A, |X|), X, w);
    }
  }

  lemma {:induction false} UndoZero(ops: seq<RowOp>, n: nat, w: nat)
    requires OpsFit(ops, n)
    ensures Undo(ops, Zero(n, w), w) == Zero(n, w)
    decreases |ops|
  {
    if ops != [] {
      var op := ops[|ops| - 1];
      assert ApplyOp(op, Zero(n, w), w) == Zero(n, w) by {
        if op.AddRow? {
          assert VAdd(Zeros(w), Zeros(w)) == Zeros(w);
        }
      }
      UndoZero(ops[..|ops| - 1], n, w);
    }
  }

  /** Logging one more operation on both matrices keeps the elimination state. */
  lemma ProgressStep(a: Matrix, inv: Matrix, A: Matrix, ops: seq<RowOp>, col: nat, op: RowOp)
    requires Progress(a, inv, A, ops, col) && OpFits(op, |A|)
    ensures MatMul(ApplyOp(op, inv, |A|), A, |A|) == ApplyOp(op, a, |A|)
    ensures OpsFit(ops + [op], |A|) && Undo(ops + [op], ApplyOp(op, a, |A|), |A|) == A
  {
    var n := |A|;
    ApplyOpMatMul(op, inv, A, n);
    ApplyOpTwice(op, a, n);
    assert (ops + [op])[..|ops|] == ops;
  }

  /** Swapping the pivot row p into place keeps the elimination state. */
  lemma SwapStep(a: Matrix, inv: Matrix, A: Matrix, ops: seq<RowOp>, col: nat, p: nat)
    requires Progress(a, inv, A, ops, col) && col <= p < |A| && a[p][col] == 1
    ensures var op := Swap(col, p);
            Progress(ApplyOp(op, a, |A|), ApplyOp(op, inv, |A|), A, ops + [op], col) &&
            ApplyOp(op, a, |A|)[col][col] == 1
  {
    ProgressStep(a, inv, A, ops, col, Swap(col, p));
    SwapKeepsColumns(a, col, p);
  }

  /** Exchanging two rows at or below the diagonal keeps the finished columns. */
  lemma SwapKeepsColumns(a: Matrix, col: nat, p: nat)
    requires IsMatrix(a, |a|, |a|) && col <= p < |a| && UnitColumns(a, col)
    ensures UnitColumns(ApplyOp(Swap(col, p), a, |a|), col)
  {
    var a' := ApplyOp(Swap(col, p), a, |a|);
    forall r, c | 0 <= r < |a| && 0 <= c < col ensures a'[r][c] == if r == c then 1 else 0 {
      if r == col || r == p {
        assert a[col][c] == 0 && a[p][c] == 0;
      }
    }
  }

  /** Rows 0 .. row-1 other than the pivot row have a 0 in column col. */
  ghost predicate Cleared(a: Matrix, col: nat, row: nat)
    requires col < |a| && forall k :: 0 <= k < |a| ==> col < |a[k]|
  {
    forall k :: 0 <= k < row && k < |a| && k != col ==> a[k][col] == 0
  }

  /** Adding the pivot row into row `row` keeps the elimination state and clears that row. */
  lemma AddStep(a: Matrix, inv: Matrix, A: Matrix, ops: seq<RowOp>, col: nat, row: nat)
    requires Progress(a, inv, A, ops, col) && col < |A| && a[col][col] == 1
    requires row < |A| && row != col && a[row][col] == 1 && Cleared(a, col, row)
    ensures var op := AddRow(row, col);
            var a' := ApplyOp(op, a, |A|);
            Progress(a', ApplyOp(op, inv, |A|), A, ops + [op], col) &&
            a'[col][col] == 1 && Cleared(a', col, row + 1)
  {
    ProgressStep(a, inv, A, ops, col, AddRow(row, col));
    AddKeepsColumns(a, col, row);
  }

  /** Adding the pivot row changes no finished column and clears column col of row `row`. */
  lemma AddKeepsColumns(a: Matrix, col: nat, row: nat)
    requires IsMatrix(a, |a|, |a|) && col < |a| && UnitColumns(a, col) && a[col][col] == 1
    requires row < |a| && row != col && a[row][col] == 1 && Cleared(a, col, row)
    ensures var a' := ApplyOp(AddRow(row, col), a, |a|);
            UnitColumns(a', col) && a'[col][col] == 1 && Cleared(a', col, row + 1)
  {
    var a' := ApplyOp(AddRow(row, col), a, |a|);
    assert forall c :: 0 <= c <= col ==> a'[row][c] == Add(a[row][c], a[col][c]);
    assert forall c :: 0 <= c < col ==> a[col][c] == 0;
  }

  /** A finished column: every row but the pivot row is clear. */
  lemma ColumnDone(a: Matrix, inv: Matrix, A: Matrix, ops: seq<RowOp>, col: nat)
    requires Progress(a, inv, A, ops, col) && col < |A| && a[col][col] == 1
    requires Cleared(a, col, |A|)
    ensures Progress(a, inv, A, ops, col + 1)
  {
  }

  // ---------------------------------------------------------------------------
  // The elimination steps shared by both variants

  /** Without a pivot at or below the diagonal in column col, A is singular. */
  lemma NoPivotSingular(a: Matrix, inv: Matrix, A: Matrix, ops: seq<RowOp>, col: nat)
    requires Progress(a, inv, A, ops, col) && col < |A|
    requires forall k :: col <= k < |A| ==> a[k][col] == 0
    ensures !Nonsingular(A)
  {
    var n := |A|;
    var X: Matrix := seq(n, k requires 0 <= k < n =>
                           if k < col then [a[k][col]] else if k == col then [1] else [0]);
    PivotlessKernel(a, col, X);
    UndoMatMul(ops, a, X, 1);
    UndoZero(ops, n, 1);
    assert X[col][0] == 1 && Zeros(1)[0] == 0;
    assert KernelWitness(A, X);
    KernelSingular(A, X);
  }

  /** The column vector (a[0][col], ..., a[col-1][col], 1, 0, ..., 0) is in the kernel of a
      when the first col columns of a are done and column col is zero from the diagonal down. */
  lemma PivotlessKernel(a: Matrix, col: nat, X: Matrix)
    requires IsMatrix(a, |a|, |a|) && col < |a| && UnitColumns(a, col)
    requires forall k :: col <= k < |a| ==> a[k][col] == 0
    requires |X| == |a| && forall k :: 0 <= k < |a| ==>
               X[k] == if k < col then [a[k][col]] else if k == col then [1] else [0]
    ensures MatMul(a, X, 1) == Zero(|a|, 1)
  {
    var n := |a|;
    var x := Column(X, 0);
    forall r | 0 <= r < n ensures LinComb(a[r], X, 1) == Zeros(1) {
      LinCombAt(a[r], X, 1, 0);
      if r < col {
        DotTwoTerms(a[r], x, r, col);
      } else {
        DotAllTermsZero(a[r], x);
      }
    }
  }

  /** When all columns are done, inv is a left inverse of A. */
  lemma FinishedInverse(a: Matrix, inv: Matrix, A: Matrix, ops: seq<RowOp>)
    requires Progress(a, inv, A, ops, |A|)
    ensures MatMul(inv, A, |A|) == Identity(|A|) && Nonsingular(A)
  {
    var n := |A|;
    forall r | 0 <= r < n ensures a[r] == Identity(n)[r] {
      assert forall c :: 0 <= c < n ==> a[r][c] == Unit(n, r)[c];
    }
    LeftInverseNonsingular(inv, A);
  }

  /** Exchanges rows col and p of both working matrices (numpy A[[col, p]] = A[[p, col]]). */
  method SwapRows(a: array<Vec>, inv: array<Vec>, col: nat, p: nat,
                  ghost A: Matrix, ghost ops: seq<RowOp>) returns (ghost ops': seq<RowOp>)
    requires a != inv && Progress(a[..], inv[..], A, ops, col)
    requires col <= p < |A| && a[p][col] == 1
    modifies a, inv
    ensures a[..] == ApplyOp(Swap(col, p), old(a[..]), |A|)
    ensures inv[..] == ApplyOp(Swap(col, p), old(inv[..]), |A|)
    ensures Progress(a[..], inv[..], A, ops', col) && a[col][col] == 1
  {
    SwapStep(a[..], inv[..], A, ops, col, p);
    ghost var a1 := ApplyOp(Swap(col, p), a[..], |A|);
    ghost var inv1 := ApplyOp(Swap(col, p), inv[..], |A|);
    a[col], a[p] := a[p], a[col];
    inv[col], inv[p] := inv[p], inv[col];
    assert a[..] == a1;
    assert inv[..] == inv1;
    ops' := ops + [Swap(col, p)];
  }

  /** Adds row src into row dst of both working matrices (A[dst] ^= A[src]). */
  method AddRows(a: array<Vec>, inv: array<Vec>, dst: nat, src: nat)
    requires a != inv && IsMatrix(a[..], a.Length, a.Length) && IsMatrix(inv[..], a.Length, a.Length)
    requires inv.Length == a.Length && dst < a.Length && src < a.Length && dst != src
    modifies a, inv
    ensures a[..] == ApplyOp(AddRow(dst, src), old(a[..]), a.Length)
    ensures inv[..] == ApplyOp(AddRow(dst, src), old(inv[..]), a.Length)
  {
    a[dst] := VAdd(a[dst], a[src]);
    inv[dst] := VAdd(inv[dst], inv[src]);
  }

  /** Clears column col of row `row` (when it is not the pivot row) by adding row col into it. */
  method ClearRow(a: array<Vec>, inv: array<Vec>, col: nat, row: nat,
                  ghost A: Matrix, ghost ops: seq<RowOp>) returns (ghost ops': seq<RowOp>)
    requires a != inv && Progress(a[..], inv[..], A, ops, col)
    requires col < |A| && row < |A| && a[col][col] == 1 && Cleared(a[..], col, row)
    modifies a, inv
    ensures Progress(a[..], inv[..], A, ops', col) && a[col][col] == 1
    ensures Cleared(a[..], col, row + 1)
  {
    ops' := ops;
    if row != col && a[row][col] == 1 {
      ghost var a0, inv0 := a[..], inv[..];
      AddStep(a0, inv0, A, ops, col, row);
      AddRows(a, inv, row, col);
      assert a[..] == ApplyOp(AddRow(row, col), a0, |A|);
      ops' := ops + [AddRow(row, col)];
    }
  }

  /** Clears column col in every row but row col by adding row col into it. */
  method EliminateColumn(a: array<Vec>, inv: array<Vec>, col: nat,
                         ghost A: Matrix, ghost ops: seq<RowOp>) returns (ghost ops': seq<RowOp>)
    requires a != inv && Progress(a[..], inv[..], A, ops, col)
    requires col < |A| && a[col][col] == 1
    modifies a, inv
    ensures Progress(a[..], inv[..], A, ops', col + 1)
  {
    var n := a.Length;
    ops' := ops;
    var row := 0;
    while row < n
      invariant 0 <= row <= n
      invariant Progress(a[..], inv[..], A, ops', col)
      invariant a[col][col] == 1 && Cleared(a[..], col, row)
    {
      ops' := ClearRow(a, inv, col, row, A, ops');
      row := row + 1;
    }
    ColumnDone(a[..], inv[..], A, ops', col);
  }

  // ---------------------------------------------------------------------------
  // The two published variants

  /** The elimination state at the start: the working copy is A, the other matrix is I. */
  lemma InitialProgress(A: Matrix)
    requires IsMatrix(A, |A|, |A|)
    ensures Progress(A, Identity(|A|), A, [], 0)
  {
    MatMulIdentityLeft(A, |A|);
  }

  /** The first row at or below the diagonal with a 1 in column col. */
  method FindPivot(a: array<Vec>, col: nat) returns (pivot: Option<nat>)
    requires col < a.Length && forall k :: 0 <= k < a.Length ==> col < |a[k]|
    ensures pivot == None <==> forall k :: col <= k < a.Length ==> a[k][col] == 0
    ensures pivot.Some? ==> col <= pivot.value < a.Length && a[pivot.value][col] == 1 &&
                            forall k :: col <= k < pivot.value ==> a[k][col] == 0
  {
    var row := col;
    while row < a.Length
      invariant col <= row <= a.Length
      invariant forall k :: col <= k < row ==> a[k][col] == 0
    {
      if a[row][col] == 1 {
        return Some(row);
      }
      row := row + 1;
    }
    return None;
  }

  /** gf2_inverse: for each column, the first row at or below the diagonal with a 1
      is the pivot; with none the matrix is singular. */
  method Invert(A: Matrix) returns (r: Result<Matrix>)
    requires IsMatrix(A, |A|, |A|)
    ensures r.Success? <==> Nonsingular(A)
    ensures r.Failure? ==> r.error == SingularMatrix
    ensures r.Success? ==> IsMatrix(r.value, |A|, |A|) && MatMul(r.value, A, |A|) == Identity(|A|)
  {
    var n := |A|;
    var a := new Vec[n](k requires 0 <= k < n => A[k]);
    var inv := new Vec[n](k requires 0 <= k < n => Unit(n, k));
    assert a[..] == A && inv[..] == Identity(n);
    InitialProgress(A);
    ghost var ops: seq<RowOp> := [];
    var col := 0;
    while col < n
      invariant 0 <= col <= n
      invariant Progress(a[..], inv[..], A, ops, col)
    {
      var pivot := FindPivot(a, col);
      if pivot == None {
        NoPivotSingular(a[..], inv[..], A, ops, col);
        return Failure(SingularMatrix);
      }
      var p := pivot.value;
      if p != col {
        ops := SwapRows(a, inv, col, p, A, ops);
      }
      ops := EliminateColumn(a, inv, col, A, ops);
      col := col + 1;
    }
    FinishedInverse(a[..], inv[..], A, ops);
    return Success(inv[..]);
  }

  /** The search of gf2_matrix_inverse when the diagonal entry is 0: the first row below
      with a 1 in column i is swapped up; without one nothing changes. */
  method SwapFromBelow(a: array<Vec>, inv: array<Vec>, i: nat, ghost A: Matrix, ghost ops: seq<RowOp>)
    returns (swapped: bool, ghost ops': seq<RowOp>)
    requires a != inv && Progress(a[..], inv[..], A, ops, i) && i < |A| && a[i][i] == 0
    modifies a, inv
    ensures Progress(a[..], inv[..], A, ops', i)
    ensures swapped ==> a[i][i] == 1
    ensures !swapped ==> a[..] == old(a[..]) && inv[..] == old(inv[..]) &&
                         forall k :: i <= k < |A| ==> a[k][i] == 0
  {
    var j := i + 1;
    while j < a.Length
      invariant i + 1 <= j <= a.Length
      invariant forall k :: i <= k < j ==> a[k][i] == 0
    {
      if a[j][i] == 1 {
        ops' := SwapRows(a, inv, i, j, A, ops);
        return true, ops';
      }
      j := j + 1;
    }
    return false, ops;
  }

  /** gf2_inverse and mod2_matrix_inverse applied to an n x w array, as the share
      reconstructions do with whatever rows they were handed.  The loop runs over columns
      0..n-1 and both its pivot search and its record in I only read those columns, so for
      n <= w the result is the inverse of the leading n x n block.  For n > w column n-1
      does not exist: the loop raises IndexError once it reaches column w, or ValueError
      before that, and this model reports IndexOutOfRange for both. */
  method InvertLeading(A: Matrix, w: nat) returns (r: Result<Matrix>)
    requires IsMatrix(A, |A|, w)
    ensures r.Success? <==> |A| <= w && Nonsingular(Leading(A, |A|))
    ensures r.Failure? ==> r.error == (if |A| > w then IndexOutOfRange else SingularMatrix)
    ensures r.Success? ==> IsMatrix(r.value, |A|, |A|) &&
                           MatMul(r.value, Leading(A, |A|), |A|) == Identity(|A|)
  {
    if |A| > w {
      return Failure(IndexOutOfRange);
    }
    r := Invert(Leading(A, |A|));
  }

  /** gf2_matrix_inverse: the diagonal entry is kept as pivot when it is 1; otherwise
      the first row below it with a 1 is swapped in, and with none the matrix is singular. */
  method InvertKeepingDiagonal(A: Matrix) returns (r: Result<Matrix>)
    requires IsMatrix(A, |A|, |A|)
    ensures r.Success? <==> Nonsingular(A)
    ensures r.Failure? ==> r.error == SingularMatrix
    ensures r.Success? ==> IsMatrix(r.value, |A|, |A|) && MatMul(r.value, A, |A|) == Identity(|A|)
  {
    var n := |A|;
    var a := new Vec[n](k requires 0 <= k < n => A[k]);
    var inv := new Vec[n](k requires 0 <= k < n => Unit(n, k));
    assert a[..] == A && inv[..] == Identity(n);
    InitialProgress(A);
    ghost var ops: seq<RowOp> := [];
    var i := 0;
    while i < n
      invariant 0 <= i <= n
      invariant Progress(a[..], inv[..], A, ops, i)
    {
      if a[i][i] == 0 {
        var swapped;
        swapped, ops := SwapFromBelow(a, inv, i, A, ops);
        if !swapped {
          NoPivotSingular(a[..], inv[..], A, ops, i);
          return Failure(SingularMatrix);
        }
      }
      ops := EliminateColumn(a, inv, i, A, ops);
      i := i + 1;
    }
    FinishedInverse(a[..], inv[..], A, ops);
    return Success(inv[..]);
  }
}
