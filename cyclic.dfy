/** The circulant generator matrix of the shares code.  For t >= 4 its first row
    has ones at positions 0, 2 and t-1 (the polynomial 1 + x^2 + x^(t-1)) and row i
    is that row rotated right by i places. */
module Cyclic {
  import opened Gf2

  /** The first row [1, 0, 1, 0, ..., 0, 1] of the generator for t >= 4. */
  function Generator(t: nat): (g: Vec)
    requires t >= 4
    ensures |g| == t
    ensures forall j :: 0 <= j < t ==> (g[j] == 1 <==> j == 0 || j == 2 || j == t - 1)
  {
    [1, 0, 1] + Zeros(t - 4) + [1]
  }

  /** The circulant matrix with first row g: entry (i, j) is g[(j - i) mod t]. */
  function Circulant(g: Vec): (B: Matrix)
    ensures IsMatrix(B, |g|, |g|)
  {
    seq(|g|, i requires 0 <= i < |g| =>
      seq(|g|, j requires 0 <= j < |g| => g[(j - i) % |g|]))
  }

  /** a mod t for a in [-t, t): the index arithmetic of a rotation. */
  lemma ModSmall(a: int, t: int)
    requires 0 < t && -t <= a < t
    ensures a % t == if a < 0 then a + t else a
  {
  }

  /** np.roll(v, 1): the last entry moves to the front. */
  function RollRight(v: Vec): (r: Vec)
    ensures |r| == |v|
  {
    if |v| == 0 then v else [v[|v| - 1]] + v[..|v| - 1]
  }

  /** Entry j of np.roll(v, 1) is entry j - 1 of v, cyclically. */
  lemma RollRightAt(v: Vec, j: nat)
    requires j < |v|
    ensures RollRight(v)[j] == v[(j - 1) % |v|]
  {
    ModSmall(j - 1, |v|);
  }

  /** np.roll(v, i) for 0 <= i <= |v|: the last i entries move to the front. */
  function Roll(v: Vec, i: nat): (r: Vec)
    requires i <= |v|
    ensures |r| == |v|
  {
    v[|v| - i..] + v[..|v| - i]
  }

  /** Entry j of np.roll(v, i) is entry j - i of v, cyclically. */
  lemma RollAt(v: Vec, i: nat, j: nat)
    requires i <= |v| && j < |v|
    ensures Roll(v, i)[j] == v[(j - i) % |v|]
  {
    ModSmall(j - i, |v|);
  }

  /** The number of ones in a bit vector. */
  function Ones(v: Vec): nat
    decreases |v|
  {
    if |v| == 0 then 0 else Ones(v[..|v| - 1]) + v[|v| - 1]
  }

  // ---------------------------------------------------------------------------
  // The rows of the generator

  /** Row i of the circulant is the first row rolled right by i. */
  lemma CirculantRow(g: Vec, i: nat)
    requires i < |g|
    ensures Circulant(g)[i] == Roll(g, i)
  {
    forall j | 0 <= j < |g| ensures Circulant(g)[i][j] == Roll(g, i)[j] {
      RollAt(g, i, j);
    }
  }

  /** Rolling by one more place is one more roll right. */
  lemma RollStep(g: Vec, i: nat)
    requires 0 < i <= |g|
    ensures Roll(g, i) == RollRight(Roll(g, i - 1))
  {
    var t := |g|;
    forall j | 0 <= j < t ensures Roll(g, i)[j] == RollRight(Roll(g, i - 1))[j] {
      var jm := (j - 1) % t;
      RollRightAt(Roll(g, i - 1), j);
      RollAt(g, i - 1, jm);
      RollAt(g, i, j);
      ModSmall(j - 1, t);
      ModSmall(jm - (i - 1), t);
    }
  }

  /** Each row is the previous one rolled right by one place. */
  lemma CirculantRowStep(g: Vec, i: nat)
    requires 0 < i < |g|
    ensures Circulant(g)[i] == RollRight(Circulant(g)[i - 1])
  {
    CirculantRow(g, i);
    CirculantRow(g, i - 1);
    RollStep(g, i);
  }

  /** Rolling by zero places changes nothing. */
  lemma RollZero(g: Vec)
    ensures Roll(g, 0) == g
  {
    assert g[|g|..] + g[..|g|] == g;
  }

  /** Rows that are the successive rolls of g make up its circulant. */
  lemma RollsAreCirculant(g: Vec, B: Matrix)
    requires |B| == |g| && forall k :: 0 <= k < |g| ==> B[k] == Roll(g, k)
    ensures B == Circulant(g)
  {
    forall k | 0 <= k < |g| ensures B[k] == Circulant(g)[k] {
      CirculantRow(g, k);
    }
  }

  /** The loop B[0] = gen; B[i] = np.roll(B[i-1], 1) filling a t x t matrix (the zeros it
      starts from are all overwritten, so the rows start unset here). */
  method FillByRolling(g: Vec) returns (B: Matrix)
    requires |g| >= 1
    ensures B == Circulant(g)
  {
    var t := |g|;
    var a := new Vec[t];
    a[0] := g;
    RollZero(g);
    for i := 1 to t
      invariant forall k :: 0 <= k < i ==> a[k] == Roll(g, k)
    {
      var prev := a[i - 1];
      RollStep(g, i);
      a[i] := RollRight(prev);
    }
    B := a[..];
    RollsAreCirculant(g, B);
  }

  lemma {:induction false} OnesAppend(a: Vec, b: Vec)
    ensures Ones(a + b) == Ones(a) + Ones(b)
    decreases |b|
  {
    if |b| == 0 {
      assert a + b == a;
    } else {
      var n := |b| - 1;
      assert (a + b)[..|a + b| - 1] == a + b[..n];
      OnesAppend(a, b[..n]);
    }
  }

  lemma {:induction false} OnesZeros(n: nat)
    ensures Ones(Zeros(n)) == 0
  {
    if n > 0 {
      assert Zeros(n)[..n - 1] == Zeros(n - 1);
      OnesZeros(n - 1);
    }
  }

  /** Rolling keeps the number of ones. */
  lemma RollOnes(v: Vec, i: nat)
    requires i <= |v|
    ensures Ones(Roll(v, i)) == Ones(v)
  {
    OnesAppend(v[|v| - i..], v[..|v| - i]);
    OnesAppend(v[..|v| - i], v[|v| - i..]);
    assert v[..|v| - i] + v[|v| - i..] == v;
  }

  lemma GeneratorOnes(t: nat)
    requires t >= 4
    ensures Ones(Generator(t)) == 3
  {
    OnesAppend([1, 0, 1] + Zeros(t - 4), [1]);
    OnesAppend([1, 0, 1], Zeros(t - 4));
    OnesZeros(t - 4);
    assert [1, 0, 1][..2] == [1, 0] && [1, 0][..1] == [1] && [1][..0] == [];
    assert ([1, 0, 1] + Zeros(t - 4) + [1])[..t - 1] == [1, 0, 1] + Zeros(t - 4);
  }

  /** Every row of the generator matrix holds exactly three ones. */
  lemma GeneratorRowsHaveThreeOnes(t: nat, i: nat)
    requires t >= 4 && i < t
    ensures Ones(Circulant(Generator(t))[i]) == 3
  {
    var g := Generator(t);
    CirculantRow(g, i);
    RollOnes(g, i);
    GeneratorOnes(t);
  }

  // ---------------------------------------------------------------------------
  // Small cases

  /** The fixed generator for t = 3. */
  function Fixed3(): Matrix
  {
    [[1, 1, 1], [1, 1, 0], [1, 0, 1]]
  }

  lemma Fixed3Nonsingular()
    ensures Nonsingular(Fixed3())
  {
    var A := Fixed3();
    var M: Matrix := [[1, 1, 1], [1, 0, 1], [1, 1, 0]];
    var I := Identity(3);
    forall i, j | 0 <= i < 3 && 0 <= j < 3 ensures MatMul(M, A, 3)[i][j] == I[i][j] {
      MatMulEntry(M, A, 3, i, j);
      var c := Column(A, j);
      assert DotUpTo(M[i], c, 1) == Add(0, Mul(M[i][0], c[0]));
      assert DotUpTo(M[i], c, 2) == Add(DotUpTo(M[i], c, 1), Mul(M[i][1], c[1]));
      assert DotUpTo(M[i], c, 3) == Add(DotUpTo(M[i], c, 2), Mul(M[i][2], c[2]));
    }
    forall i | 0 <= i < 3 ensures MatMul(M, A, 3)[i] == I[i] { }
    LeftInverseNonsingular(M, A);
  }

  /** For t = 7 the generator polynomial 1 + x^2 + x^6 shares the factor 1 + x + x^3 with
      x^7 - 1, so the circulant has a nonzero kernel vector over GF(2). */
  lemma Generator7Singular()
    ensures !Nonsingular(Circulant(Generator(7)))
  {
    GeneratorMatrix7();
    var B: Matrix := [[1, 0, 1, 0, 0, 0, 1], [1, 1, 0, 1, 0, 0, 0], [0, 1, 1, 0, 1, 0, 0], [0, 0, 1, 1, 0, 1, 0], [0, 0, 0, 1, 1, 0, 1], [1, 0, 0, 0, 1, 1, 0], [0, 1, 0, 0, 0, 1, 1]];
    var X: Matrix := [[0], [0], [1], [0], [1], [1], [1]];
    var Z := Zero(7, 1);
    forall i, j | 0 <= i < 7 && 0 <= j < 1 ensures MatMul(B, X, 1)[i][j] == Z[i][j] {
      MatMulEntry(B, X, 1, i, j);
      var c := Column(X, j);
      assert DotUpTo(B[i], c, 1) == Add(0, Mul(B[i][0], c[0]));
      assert DotUpTo(B[i], c, 2) == Add(DotUpTo(B[i], c, 1), Mul(B[i][1], c[1]));
      assert DotUpTo(B[i], c, 3) == Add(DotUpTo(B[i], c, 2), Mul(B[i][2], c[2]));
      assert DotUpTo(B[i], c, 4) == Add(DotUpTo(B[i], c, 3), Mul(B[i][3], c[3]));
      assert DotUpTo(B[i], c, 5) == Add(DotUpTo(B[i], c, 4), Mul(B[i][4], c[4]));
      assert DotUpTo(B[i], c, 6) == Add(DotUpTo(B[i], c, 5), Mul(B[i][5], c[5]));
      assert DotUpTo(B[i], c, 7) == Add(DotUpTo(B[i], c, 6), Mul(B[i][6], c[6]));
    }
    forall i | 0 <= i < 7 ensures MatMul(B, X, 1)[i] == Z[i] { }
    assert X[2] != Zeros(1);
    KernelSingular(B, X);
  }

  /** The generator matrix for t = 7, written out. */
  lemma GeneratorMatrix7()
    ensures Circulant(Generator(7)) == [[1, 0, 1, 0, 0, 0, 1], [1, 1, 0, 1, 0, 0, 0], [0, 1, 1, 0, 1, 0, 0], [0, 0, 1, 1, 0, 1, 0], [0, 0, 0, 1, 1, 0, 1], [1, 0, 0, 0, 1, 1, 0], [0, 1, 0, 0, 0, 1, 1]]
  {
    var B := Circulant(Generator(7));
    var L: Matrix := [[1, 0, 1, 0, 0, 0, 1], [1, 1, 0, 1, 0, 0, 0], [0, 1, 1, 0, 1, 0, 0], [0, 0, 1, 1, 0, 1, 0], [0, 0, 0, 1, 1, 0, 1], [1, 0, 0, 0, 1, 1, 0], [0, 1, 0, 0, 0, 1, 1]];
    assert Generator(7) == [1, 0, 1, 0, 0, 0, 1];
    forall i, j | 0 <= i < 7 && 0 <= j < 7 ensures B[i][j] == L[i][j] {
      ModSmall(j - i, 7);
    }
    forall i | 0 <= i < 7 ensures B[i] == L[i] { }
  }

  lemma Generator4Nonsingular()
    ensures Nonsingular(Circulant(Generator(4)))
  {
    GeneratorMatrix4();
    Literal4Nonsingular();
  }

  /** The t = 4 generator written out has a left inverse. */
  lemma Literal4Nonsingular()
    ensures Nonsingular([[1, 0, 1, 1], [1, 1, 0, 1], [1, 1, 1, 0], [0, 1, 1, 1]])
  {
    var B: Matrix := [[1, 0, 1, 1], [1, 1, 0, 1], [1, 1, 1, 0], [0, 1, 1, 1]];
    var M: Matrix := [[1, 1, 1, 0], [0, 1, 1, 1], [1, 0, 1, 1], [1, 1, 0, 1]];
    var I := Identity(4);
    forall i, j | 0 <= i < 4 && 0 <= j < 4 ensures MatMul(M, B, 4)[i][j] == I[i][j] {
      MatMulEntry(M, B, 4, i, j);
      var c := Column(B, j);
      assert DotUpTo(M[i], c, 1) == Add(0, Mul(M[i][0], c[0]));
      assert DotUpTo(M[i], c, 2) == Add(DotUpTo(M[i], c, 1), Mul(M[i][1], c[1]));
      assert DotUpTo(M[i], c, 3) == Add(DotUpTo(M[i], c, 2), Mul(M[i][2], c[2]));
      assert DotUpTo(M[i], c, 4) == Add(DotUpTo(M[i], c, 3), Mul(M[i][3], c[3]));
    }
    forall i | 0 <= i < 4 ensures MatMul(M, B, 4)[i] == I[i] { }
    LeftInverseNonsingular(M, B);
  }

  /** The generator matrix for t = 4, written out. */
  lemma GeneratorMatrix4()
    ensures Circulant(Generator(4)) == [[1, 0, 1, 1], [1, 1, 0, 1], [1, 1, 1, 0], [0, 1, 1, 1]]
  {
    var B := Circulant(Generator(4));
    var L: Matrix := [[1, 0, 1, 1], [1, 1, 0, 1], [1, 1, 1, 0], [0, 1, 1, 1]];
    assert Generator(4) == [1, 0, 1, 1];
    forall i, j | 0 <= i < 4 && 0 <= j < 4 ensures B[i][j] == L[i][j] {
      ModSmall(j - i, 4);
    }
    forall i | 0 <= i < 4 ensures B[i] == L[i] { }
  }

  lemma Generator5Nonsingular()
    ensures Nonsingular(Circulant(Generator(5)))
  {
    GeneratorMatrix5();
    Literal5Nonsingular();
  }

  /** The t = 5 generator written out has a left inverse. */
  lemma Literal5Nonsingular()
    ensures Nonsingular([[1, 0, 1, 0, 1], [1, 1, 0, 1, 0], [0, 1, 1, 0, 1], [1, 0, 1, 1, 0], [0, 1, 0, 1, 1]])
  {
    var B: Matrix := [[1, 0, 1, 0, 1], [1, 1, 0, 1, 0], [0, 1, 1, 0, 1], [1, 0, 1, 1, 0], [0, 1, 0, 1, 1]];
    var M: Matrix := [[0, 0, 1, 1, 1], [1, 0, 0, 1, 1], [1, 1, 0, 0, 1], [1, 1, 1, 0, 0], [0, 1, 1, 1, 0]];
    var I := Identity(5);
    forall i, j | 0 <= i < 5 && 0 <= j < 5 ensures MatMul(M, B, 5)[i][j] == I[i][j] {
      MatMulEntry(M, B, 5, i, j);
      var c := Column(B, j);
      assert DotUpTo(M[i], c, 1) == Add(0, Mul(M[i][0], c[0]));
      assert DotUpTo(M[i], c, 2) == Add(DotUpTo(M[i], c, 1), Mul(M[i][1], c[1]));
      assert DotUpTo(M[i], c, 3) == Add(DotUpTo(M[i], c, 2), Mul(M[i][2], c[2]));
      assert DotUpTo(M[i], c, 4) == Add(DotUpTo(M[i], c, 3), Mul(M[i][3], c[3]));
      assert DotUpTo(M[i], c, 5) == Add(DotUpTo(M[i], c, 4), Mul(M[i][4], c[4]));
    }
    forall i | 0 <= i < 5 ensures MatMul(M, B, 5)[i] == I[i] { }
    LeftInverseNonsingular(M, B);
  }

  /** The generator matrix for t = 5, written out. */
  lemma GeneratorMatrix5()
    ensures Circulant(Generator(5)) == [[1, 0, 1, 0, 1], [1, 1, 0, 1, 0], [0, 1, 1, 0, 1], [1, 0, 1, 1, 0], [0, 1, 0, 1, 1]]
  {
    var B := Circulant(Generator(5));
    var L: Matrix := [[1, 0, 1, 0, 1], [1, 1, 0, 1, 0], [0, 1, 1, 0, 1], [1, 0, 1, 1, 0], [0, 1, 0, 1, 1]];
    assert Generator(5) == [1, 0, 1, 0, 1];
    forall i, j | 0 <= i < 5 && 0 <= j < 5 ensures B[i][j] == L[i][j] {
      ModSmall(j - i, 5);
    }
    forall i | 0 <= i < 5 ensures B[i] == L[i] { }
  }

  /** The t = 2 generator of Shares_Gen and share_generation. */
  lemma TwoByTwoTriangularNonsingular()
    ensures Nonsingular([[0, 1], [1, 1]])
  {
    var B: Matrix := [[0, 1], [1, 1]];
    var M: Matrix := [[1, 1], [1, 0]];
    var I := Identity(2);
    forall i, j | 0 <= i < 2 && 0 <= j < 2 ensures MatMul(M, B, 2)[i][j] == I[i][j] {
      MatMulEntry(M, B, 2, i, j);
      var c := Column(B, j);
      assert DotUpTo(M[i], c, 1) == Add(0, Mul(M[i][0], c[0]));
      assert DotUpTo(M[i], c, 2) == Add(DotUpTo(M[i], c, 1), Mul(M[i][1], c[1]));
    }
    forall i | 0 <= i < 2 ensures MatMul(M, B, 2)[i] == I[i] { }
    LeftInverseNonsingular(M, B);
  }

  /** The t = 2 generator of Enc_and_Dec and invertible_matrix. */
  lemma TwoByTwoSwapNonsingular()
    ensures Nonsingular([[0, 1], [1, 0]])
  {
    var B: Matrix := [[0, 1], [1, 0]];
    var I := Identity(2);
    forall i, j | 0 <= i < 2 && 0 <= j < 2 ensures MatMul(B, B, 2)[i][j] == I[i][j] {
      MatMulEntry(B, B, 2, i, j);
      var c := Column(B, j);
      assert DotUpTo(B[i], c, 1) == Add(0, Mul(B[i][0], c[0]));
      assert DotUpTo(B[i], c, 2) == Add(DotUpTo(B[i], c, 1), Mul(B[i][1], c[1]));
    }
    forall i | 0 <= i < 2 ensures MatMul(B, B, 2)[i] == I[i] { }
    LeftInverseNonsingular(B, B);
  }
}
