/** Message_encryption/invertible_matrix.py: the generator of Enc_and_Dec.py built row by
    row as rotations of a list, and a guard meant to refuse generators that are not
    invertible over GF(2). */
module InvertibleMatrix {
  import opened Gf2
  import opened Results
  import opened Cyclic
  import EncAndDec
  import GaussJordan

  // ---------------------------------------------------------------------------
  // generate_cyclic_matrix

  /** gen[-i:] + gen[:-i].  For i = 0 Python reads -0 as 0, so the row is gen + []. */
  function PyRotation(gen: Vec, i: nat): (row: Vec)
    requires i <= |gen|
    ensures row == Roll(gen, i)
  {
    if i == 0 then gen[0..] + gen[..0]
    else gen[|gen| - i..] + gen[..|gen| - i]
  }

  /** t = 2 and t = 3 are fixed; for t >= 4, gen gets ones at 0, 2 and -1 and row i is
      gen rotated right by i.  A smaller t raises ValueError. */
  method GenerateCyclicMatrix(t: int) returns (r: Result<Matrix>)
    ensures t < 2 ==> r == Failure(InvalidDimension)
    ensures t >= 2 ==> r == Success(EncAndDec.GeneratorMatrix(t))
  {
    if t == 2 {
      return Success([[0, 1], [1, 0]]);
    } else if t == 3 {
      return Success([[1, 1, 1], [1, 1, 0], [1, 0, 1]]);
    } else if t < 2 {
      return Failure(InvalidDimension);
    }
    var gen := Zeros(t);
    gen := gen[0 := 1];
    if t > 2 {
      gen := gen[2 := 1];
    }
    gen := gen[t - 1 := 1];
    assert gen == Generator(t);
    var B: Matrix := [];
    for i := 0 to t
      invariant B == Circulant(gen)[..i]
    {
      var row := PyRotation(gen, i);
      CirculantRow(gen, i);
      B := B + [row];
    }
    assert B == Circulant(gen);
    return Success(B);
  }

  // ---------------------------------------------------------------------------
  // Invertibility over the rationals, which np.linalg.inv tests

  /** Row m of an integer matrix times column j of B, summed over the first k terms. */
  function IntDot(m: seq<int>, B: Matrix, j: nat, k: nat): int
    requires k <= |m| && k <= |B| && forall r :: 0 <= r < |B| ==> j < |B[r]|
  {
    if k == 0 then 0 else IntDot(m, B, j, k - 1) + m[k - 1] * B[k - 1][j]
  }

  /** N B = d I in integer arithmetic: N / d is a rational inverse of B. */
  ghost predicate ScaledLeftInverse(N: seq<seq<int>>, d: int, B: Matrix)
  {
    var n := |B|;
    IsMatrix(B, n, n) && |N| == n && (forall i :: 0 <= i < n ==> |N[i]| == n) &&
    forall i, j :: 0 <= i < n && 0 <= j < n ==> IntDot(N[i], B, j, n) == if i == j then d else 0
  }

  /** B read as a real matrix is invertible, which is when np.linalg.inv returns without
      LinAlgError: an integer matrix has a real inverse exactly when it has one of the
      form N / d with N integer and d != 0 (the adjugate over the determinant). */
  ghost predicate RealNonsingular(B: Matrix)
  {
    exists N, d :: d != 0 && ScaledLeftInverse(N, d, B)
  }

  /** generate_invertible_cyclic_matrix as written: the guard is real invertibility. */
  ghost function GenerateInvertibleAsWritten(t: int): (r: Result<Matrix>)
    ensures r.Success? ==> t >= 2 && r.value == EncAndDec.GeneratorMatrix(t)
  {
    if t < 2 then Failure(InvalidDimension)
    else if RealNonsingular(EncAndDec.GeneratorMatrix(t)) then Success(EncAndDec.GeneratorMatrix(t))
    else Failure(SingularMatrix)
  }

  /** The generator for t = 7, written out. */
  function GeneratorMatrix7Literal(): Matrix
  {
    [[1, 0, 1, 0, 0, 0, 1], [1, 1, 0, 1, 0, 0, 0], [0, 1, 1, 0, 1, 0, 0], [0, 0, 1, 1, 0, 1, 0], [0, 0, 0, 1, 1, 0, 1], [1, 0, 0, 0, 1, 1, 0], [0, 1, 0, 0, 0, 1, 1]]
  }

  /** Six times the real inverse of the t = 7 generator: row 0 is [2, 2, -1, -1, -1, 2, -1]
      and every later row is the one before rotated right by one. */
  function ScaledInverse7(): seq<seq<int>>
  {
    [[2, 2, -1, -1, -1, 2, -1],
     [-1, 2, 2, -1, -1, -1, 2],
     [2, -1, 2, 2, -1, -1, -1],
     [-1, 2, -1, 2, 2, -1, -1],
     [-1, -1, 2, -1, 2, 2, -1],
     [-1, -1, -1, 2, -1, 2, 2],
     [2, -1, -1, -1, 2, -1, 2]]
  }

  lemma ScaledInverse7Row0()
    ensures forall j :: 0 <= j < 7 ==>
              IntDot(ScaledInverse7()[0], GeneratorMatrix7Literal(), j, 7) == if j == 0 then 6 else 0
  {
    ScaledInverse7Row0Left();
    ScaledInverse7Row0Right();
  }

  lemma ScaledInverse7Row0Left()
    ensures forall j :: 0 <= j < 4 ==>
              IntDot(ScaledInverse7()[0], GeneratorMatrix7Literal(), j, 7) == if j == 0 then 6 else 0
  {
    var m, B := ScaledInverse7()[0], GeneratorMatrix7Literal();
    assert m == [2, 2, -1, -1, -1, 2, -1];
    assert IntDot(m, B, 0, 1) == 2 && IntDot(m, B, 0, 2) == 4 && IntDot(m, B, 0, 3) == 4 && IntDot(m, B, 0, 4) == 4 &&
           IntDot(m, B, 0, 5) == 4 && IntDot(m, B, 0, 6) == 6 && IntDot(m, B, 0, 7) == 6;
    assert IntDot(m, B, 1, 1) == 0 && IntDot(m, B, 1, 2) == 2 && IntDot(m, B, 1, 3) == 1 && IntDot(m, B, 1, 4) == 1 &&
           IntDot(m, B, 1, 5) == 1 && IntDot(m, B, 1, 6) == 1 && IntDot(m, B, 1, 7) == 0;
    assert IntDot(m, B, 2, 1) == 2 && IntDot(m, B, 2, 2) == 2 && IntDot(m, B, 2, 3) == 1 && IntDot(m, B, 2, 4) == 0 &&
           IntDot(m, B, 2, 5) == 0 && IntDot(m, B, 2, 6) == 0 && IntDot(m, B, 2, 7) == 0;
    assert IntDot(m, B, 3, 1) == 0 && IntDot(m, B, 3, 2) == 2 && IntDot(m, B, 3, 3) == 2 && IntDot(m, B, 3, 4) == 1 &&
           IntDot(m, B, 3, 5) == 0 && IntDot(m, B, 3, 6) == 0 && IntDot(m, B, 3, 7) == 0;
  }

  lemma ScaledInverse7Row0Right()
    ensures forall j :: 4 <= j < 7 ==> IntDot(ScaledInverse7()[0], GeneratorMatrix7Literal(), j, 7) == 0
  {
    var m, B := ScaledInverse7()[0], GeneratorMatrix7Literal();
    assert m == [2, 2, -1, -1, -1, 2, -1];
    assert IntDot(m, B, 4, 1) == 0 && IntDot(m, B, 4, 2) == 0 && IntDot(m, B, 4, 3) == -1 && IntDot(m, B, 4, 4) == -1 &&
           IntDot(m, B, 4, 5) == -2 && IntDot(m, B, 4, 6) == 0 && IntDot(m, B, 4, 7) == 0;
    assert IntDot(m, B, 5, 1) == 0 && IntDot(m, B, 5, 2) == 0 && IntDot(m, B, 5, 3) == 0 && IntDot(m, B, 5, 4) == -1 &&
           IntDot(m, B, 5, 5) == -1 && IntDot(m, B, 5, 6) == 1 && IntDot(m, B, 5, 7) == 0;
    assert IntDot(m, B, 6, 1) == 2 && IntDot(m, B, 6, 2) == 2 && IntDot(m, B, 6, 3) == 2 && IntDot(m, B, 6, 4) == 2 &&
           IntDot(m, B, 6, 5) == 1 && IntDot(m, B, 6, 6) == 1 && IntDot(m, B, 6, 7) == 0;
  }

  lemma ScaledInverse7Row1()
    ensures forall j :: 0 <= j < 7 ==>
              IntDot(ScaledInverse7()[1], GeneratorMatrix7Literal(), j, 7) == if j == 1 then 6 else 0
  {
    ScaledInverse7Row1Left();
    ScaledInverse7Row1Right();
  }

  lemma ScaledInverse7Row1Left()
    ensures forall j :: 0 <= j < 4 ==>
              IntDot(ScaledInverse7()[1], GeneratorMatrix7Literal(), j, 7) == if j == 1 then 6 else 0
  {
    var m, B := ScaledInverse7()[1], GeneratorMatrix7Literal();
    assert m == [-1, 2, 2, -1, -1, -1, 2];
    assert IntDot(m, B, 0, 1) == -1 && IntDot(m, B, 0, 2) == 1 && IntDot(m, B, 0, 3) == 1 && IntDot(m, B, 0, 4) == 1 &&
           IntDot(m, B, 0, 5) == 1 && IntDot(m, B, 0, 6) == 0 && IntDot(m, B, 0, 7) == 0;
    assert IntDot(m, B, 1, 1) == 0 && IntDot(m, B, 1, 2) == 2 && IntDot(m, B, 1, 3) == 4 && IntDot(m, B, 1, 4) == 4 &&
           IntDot(m, B, 1, 5) == 4 && IntDot(m, B, 1, 6) == 4 && IntDot(m, B, 1, 7) == 6;
    assert IntDot(m, B, 2, 1) == -1 && IntDot(m, B, 2, 2) == -1 && IntDot(m, B, 2, 3) == 1 && IntDot(m, B, 2, 4) == 0 &&
           IntDot(m, B, 2, 5) == 0 && IntDot(m, B, 2, 6) == 0 && IntDot(m, B, 2, 7) == 0;
    assert IntDot(m, B, 3, 1) == 0 && IntDot(m, B, 3, 2) == 2 && IntDot(m, B, 3, 3) == 2 && IntDot(m, B, 3, 4) == 1 &&
           IntDot(m, B, 3, 5) == 0 && IntDot(m, B, 3, 6) == 0 && IntDot(m, B, 3, 7) == 0;
  }

  lemma ScaledInverse7Row1Right()
    ensures forall j :: 4 <= j < 7 ==> IntDot(ScaledInverse7()[1], GeneratorMatrix7Literal(), j, 7) == 0
  {
    var m, B := ScaledInverse7()[1], GeneratorMatrix7Literal();
    assert m == [-1, 2, 2, -1, -1, -1, 2];
    assert IntDot(m, B, 4, 1) == 0 && IntDot(m, B, 4, 2) == 0 && IntDot(m, B, 4, 3) == 2 && IntDot(m, B, 4, 4) == 2 &&
           IntDot(m, B, 4, 5) == 1 && IntDot(m, B, 4, 6) == 0 && IntDot(m, B, 4, 7) == 0;
    assert IntDot(m, B, 5, 1) == 0 && IntDot(m, B, 5, 2) == 0 && IntDot(m, B, 5, 3) == 0 && IntDot(m, B, 5, 4) == -1 &&
           IntDot(m, B, 5, 5) == -1 && IntDot(m, B, 5, 6) == -2 && IntDot(m, B, 5, 7) == 0;
    assert IntDot(m, B, 6, 1) == -1 && IntDot(m, B, 6, 2) == -1 && IntDot(m, B, 6, 3) == -1 && IntDot(m, B, 6, 4) == -1 &&
           IntDot(m, B, 6, 5) == -2 && IntDot(m, B, 6, 6) == -2 && IntDot(m, B, 6, 7) == 0;
  }

  lemma ScaledInverse7Row2()
    ensures forall j :: 0 <= j < 7 ==>
              IntDot(ScaledInverse7()[2], GeneratorMatrix7Literal(), j, 7) == if j == 2 then 6 else 0
  {
    ScaledInverse7Row2Left();
    ScaledInverse7Row2Right();
  }

  lemma ScaledInverse7Row2Left()
    ensures forall j :: 0 <= j < 4 ==>
              IntDot(ScaledInverse7()[2], GeneratorMatrix7Literal(), j, 7) == if j == 2 then 6 else 0
  {
    var m, B := ScaledInverse7()[2], GeneratorMatrix7Literal();
    assert m == [2, -1, 2, 2, -1, -1, -1];
    assert IntDot(m, B, 0, 1) == 2 && IntDot(m, B, 0, 2) == 1 && IntDot(m, B, 0, 3) == 1 && IntDot(m, B, 0, 4) == 1 &&
           IntDot(m, B, 0, 5) == 1 && IntDot(m, B, 0, 6) == 0 && IntDot(m, B, 0, 7) == 0;
    assert IntDot(m, B, 1, 1) == 0 && IntDot(m, B, 1, 2) == -1 && IntDot(m, B, 1, 3) == 1 && IntDot(m, B, 1, 4) == 1 &&
           IntDot(m, B, 1, 5) == 1 && IntDot(m, B, 1, 6) == 1 && IntDot(m, B, 1, 7) == 0;
    assert IntDot(m, B, 2, 1) == 2 && IntDot(m, B, 2, 2) == 2 && IntDot(m, B, 2, 3) == 4 && IntDot(m, B, 2, 4) == 6 &&
           IntDot(m, B, 2, 5) == 6 && IntDot(m, B, 2, 6) == 6 && IntDot(m, B, 2, 7) == 6;
    assert IntDot(m, B, 3, 1) == 0 && IntDot(m, B, 3, 2) == -1 && IntDot(m, B, 3, 3) == -1 && IntDot(m, B, 3, 4) == 1 &&
           IntDot(m, B, 3, 5) == 0 && IntDot(m, B, 3, 6) == 0 && IntDot(m, B, 3, 7) == 0;
  }

  lemma ScaledInverse7Row2Right()
    ensures forall j :: 4 <= j < 7 ==> IntDot(ScaledInverse7()[2], GeneratorMatrix7Literal(), j, 7) == 0
  {
    var m, B := ScaledInverse7()[2], GeneratorMatrix7Literal();
    assert m == [2, -1, 2, 2, -1, -1, -1];
    assert IntDot(m, B, 4, 1) == 0 && IntDot(m, B, 4, 2) == 0 && IntDot(m, B, 4, 3) == 2 && IntDot(m, B, 4, 4) == 2 &&
           IntDot(m, B, 4, 5) == 1 && IntDot(m, B, 4, 6) == 0 && IntDot(m, B, 4, 7) == 0;
    assert IntDot(m, B, 5, 1) == 0 && IntDot(m, B, 5, 2) == 0 && IntDot(m, B, 5, 3) == 0 && IntDot(m, B, 5, 4) == 2 &&
           IntDot(m, B, 5, 5) == 2 && IntDot(m, B, 5, 6) == 1 && IntDot(m, B, 5, 7) == 0;
    assert IntDot(m, B, 6, 1) == 2 && IntDot(m, B, 6, 2) == 2 && IntDot(m, B, 6, 3) == 2 && IntDot(m, B, 6, 4) == 2 &&
           IntDot(m, B, 6, 5) == 1 && IntDot(m, B, 6, 6) == 1 && IntDot(m, B, 6, 7) == 0;
  }

  lemma ScaledInverse7Row3()
    ensures forall j :: 0 <= j < 7 ==>
              IntDot(ScaledInverse7()[3], GeneratorMatrix7Literal(), j, 7) == if j == 3 then 6 else 0
  {
    ScaledInverse7Row3Left();
    ScaledInverse7Row3Right();
  }

  lemma ScaledInverse7Row3Left()
    ensures forall j :: 0 <= j < 4 ==>
              IntDot(ScaledInverse7()[3], GeneratorMatrix7Literal(), j, 7) == if j == 3 then 6 else 0
  {
    var m, B := ScaledInverse7()[3], GeneratorMatrix7Literal();
    assert m == [-1, 2, -1, 2, 2, -1, -1];
    assert IntDot(m, B, 0, 1) == -1 && IntDot(m, B, 0, 2) == 1 && IntDot(m, B, 0, 3) == 1 && IntDot(m, B, 0, 4) == 1 &&
           IntDot(m, B, 0, 5) == 1 && IntDot(m, B, 0, 6) == 0 && IntDot(m, B, 0, 7) == 0;
    assert IntDot(m, B, 1, 1) == 0 && IntDot(m, B, 1, 2) == 2 && IntDot(m, B, 1, 3) == 1 && IntDot(m, B, 1, 4) == 1 &&
           IntDot(m, B, 1, 5) == 1 && IntDot(m, B, 1, 6) == 1 && IntDot(m, B, 1, 7) == 0;
    assert IntDot(m, B, 2, 1) == -1 && IntDot(m, B, 2, 2) == -1 && IntDot(m, B, 2, 3) == -2 && IntDot(m, B, 2, 4) == 0 &&
           IntDot(m, B, 2, 5) == 0 && IntDot(m, B, 2, 6) == 0 && IntDot(m, B, 2, 7) == 0;
    assert IntDot(m, B, 3, 1) == 0 && IntDot(m, B, 3, 2) == 2 && IntDot(m, B, 3, 3) == 2 && IntDot(m, B, 3, 4) == 4 &&
           IntDot(m, B, 3, 5) == 6 && IntDot(m, B, 3, 6) == 6 && IntDot(m, B, 3, 7) == 6;
  }

  lemma ScaledInverse7Row3Right()
    ensures forall j :: 4 <= j < 7 ==> IntDot(ScaledInverse7()[3], GeneratorMatrix7Literal(), j, 7) == 0
  {
    var m, B := ScaledInverse7()[3], GeneratorMatrix7Literal();
    assert m == [-1, 2, -1, 2, 2, -1, -1];
    assert IntDot(m, B, 4, 1) == 0 && IntDot(m, B, 4, 2) == 0 && IntDot(m, B, 4, 3) == -1 && IntDot(m, B, 4, 4) == -1 &&
           IntDot(m, B, 4, 5) == 1 && IntDot(m, B, 4, 6) == 0 && IntDot(m, B, 4, 7) == 0;
    assert IntDot(m, B, 5, 1) == 0 && IntDot(m, B, 5, 2) == 0 && IntDot(m, B, 5, 3) == 0 && IntDot(m, B, 5, 4) == 2 &&
           IntDot(m, B, 5, 5) == 2 && IntDot(m, B, 5, 6) == 1 && IntDot(m, B, 5, 7) == 0;
    assert IntDot(m, B, 6, 1) == -1 && IntDot(m, B, 6, 2) == -1 && IntDot(m, B, 6, 3) == -1 && IntDot(m, B, 6, 4) == -1 &&
           IntDot(m, B, 6, 5) == 1 && IntDot(m, B, 6, 6) == 1 && IntDot(m, B, 6, 7) == 0;
  }

  lemma ScaledInverse7Row4()
    ensures forall j :: 0 <= j < 7 ==>
              IntDot(ScaledInverse7()[4], GeneratorMatrix7Literal(), j, 7) == if j == 4 then 6 else 0
  {
    ScaledInverse7Row4Left();
    ScaledInverse7Row4Right();
  }

  lemma ScaledInverse7Row4Left()
    ensures forall j :: 0 <= j < 4 ==> IntDot(ScaledInverse7()[4], GeneratorMatrix7Literal(), j, 7) == 0
  {
    var m, B := ScaledInverse7()[4], GeneratorMatrix7Literal();
    assert m == [-1, -1, 2, -1, 2, 2, -1];
    assert IntDot(m, B, 0, 1) == -1 && IntDot(m, B, 0, 2) == -2 && IntDot(m, B, 0, 3) == -2 && IntDot(m, B, 0, 4) == -2 &&
           IntDot(m, B, 0, 5) == -2 && IntDot(m, B, 0, 6) == 0 && IntDot(m, B, 0, 7) == 0;
    assert IntDot(m, B, 1, 1) == 0 && IntDot(m, B, 1, 2) == -1 && IntDot(m, B, 1, 3) == 1 && IntDot(m, B, 1, 4) == 1 &&
           IntDot(m, B, 1, 5) == 1 && IntDot(m, B, 1, 6) == 1 && IntDot(m, B, 1, 7) == 0;
    assert IntDot(m, B, 2, 1) == -1 && IntDot(m, B, 2, 2) == -1 && IntDot(m, B, 2, 3) == 1 && IntDot(m, B, 2, 4) == 0 &&
           IntDot(m, B, 2, 5) == 0 && IntDot(m, B, 2, 6) == 0 && IntDot(m, B, 2, 7) == 0;
    assert IntDot(m, B, 3, 1) == 0 && IntDot(m, B, 3, 2) == -1 && IntDot(m, B, 3, 3) == -1 && IntDot(m, B, 3, 4) == -2 &&
           IntDot(m, B, 3, 5) == 0 && IntDot(m, B, 3, 6) == 0 && IntDot(m, B, 3, 7) == 0;
  }

  lemma ScaledInverse7Row4Right()
    ensures forall j :: 4 <= j < 7 ==>
              IntDot(ScaledInverse7()[4], GeneratorMatrix7Literal(), j, 7) == if j == 4 then 6 else 0
  {
    var m, B := ScaledInverse7()[4], GeneratorMatrix7Literal();
    assert m == [-1, -1, 2, -1, 2, 2, -1];
    assert IntDot(m, B, 4, 1) == 0 && IntDot(m, B, 4, 2) == 0 && IntDot(m, B, 4, 3) == 2 && IntDot(m, B, 4, 4) == 2 &&
           IntDot(m, B, 4, 5) == 4 && IntDot(m, B, 4, 6) == 6 && IntDot(m, B, 4, 7) == 6;
    assert IntDot(m, B, 5, 1) == 0 && IntDot(m, B, 5, 2) == 0 && IntDot(m, B, 5, 3) == 0 && IntDot(m, B, 5, 4) == -1 &&
           IntDot(m, B, 5, 5) == -1 && IntDot(m, B, 5, 6) == 1 && IntDot(m, B, 5, 7) == 0;
    assert IntDot(m, B, 6, 1) == -1 && IntDot(m, B, 6, 2) == -1 && IntDot(m, B, 6, 3) == -1 && IntDot(m, B, 6, 4) == -1 &&
           IntDot(m, B, 6, 5) == 1 && IntDot(m, B, 6, 6) == 1 && IntDot(m, B, 6, 7) == 0;
  }

  lemma ScaledInverse7Row5()
    ensures forall j :: 0 <= j < 7 ==>
              IntDot(ScaledInverse7()[5], GeneratorMatrix7Literal(), j, 7) == if j == 5 then 6 else 0
  {
    ScaledInverse7Row5Left();
    ScaledInverse7Row5Right();
  }

  lemma ScaledInverse7Row5Left()
    ensures forall j :: 0 <= j < 4 ==> IntDot(ScaledInverse7()[5], GeneratorMatrix7Literal(), j, 7) == 0
  {
    var m, B := ScaledInverse7()[5], GeneratorMatrix7Literal();
    assert m == [-1, -1, -1, 2, -1, 2, 2];
    assert IntDot(m, B, 0, 1) == -1 && IntDot(m, B, 0, 2) == -2 && IntDot(m, B, 0, 3) == -2 && IntDot(m, B, 0, 4) == -2 &&
           IntDot(m, B, 0, 5) == -2 && IntDot(m, B, 0, 6) == 0 && IntDot(m, B, 0, 7) == 0;
    assert IntDot(m, B, 1, 1) == 0 && IntDot(m, B, 1, 2) == -1 && IntDot(m, B, 1, 3) == -2 && IntDot(m, B, 1, 4) == -2 &&
           IntDot(m, B, 1, 5) == -2 && IntDot(m, B, 1, 6) == -2 && IntDot(m, B, 1, 7) == 0;
    assert IntDot(m, B, 2, 1) == -1 && IntDot(m, B, 2, 2) == -1 && IntDot(m, B, 2, 3) == -2 && IntDot(m, B, 2, 4) == 0 &&
           IntDot(m, B, 2, 5) == 0 && IntDot(m, B, 2, 6) == 0 && IntDot(m, B, 2, 7) == 0;
    assert IntDot(m, B, 3, 1) == 0 && IntDot(m, B, 3, 2) == -1 && IntDot(m, B, 3, 3) == -1 && IntDot(m, B, 3, 4) == 1 &&
           IntDot(m, B, 3, 5) == 0 && IntDot(m, B, 3, 6) == 0 && IntDot(m, B, 3, 7) == 0;
  }

  lemma ScaledInverse7Row5Right()
    ensures forall j :: 4 <= j < 7 ==>
              IntDot(ScaledInverse7()[5], GeneratorMatrix7Literal(), j, 7) == if j == 5 then 6 else 0
  {
    var m, B := ScaledInverse7()[5], GeneratorMatrix7Literal();
    assert m == [-1, -1, -1, 2, -1, 2, 2];
    assert IntDot(m, B, 4, 1) == 0 && IntDot(m, B, 4, 2) == 0 && IntDot(m, B, 4, 3) == -1 && IntDot(m, B, 4, 4) == -1 &&
           IntDot(m, B, 4, 5) == -2 && IntDot(m, B, 4, 6) == 0 && IntDot(m, B, 4, 7) == 0;
    assert IntDot(m, B, 5, 1) == 0 && IntDot(m, B, 5, 2) == 0 && IntDot(m, B, 5, 3) == 0 && IntDot(m, B, 5, 4) == 2 &&
           IntDot(m, B, 5, 5) == 2 && IntDot(m, B, 5, 6) == 4 && IntDot(m, B, 5, 7) == 6;
    assert IntDot(m, B, 6, 1) == -1 && IntDot(m, B, 6, 2) == -1 && IntDot(m, B, 6, 3) == -1 && IntDot(m, B, 6, 4) == -1 &&
           IntDot(m, B, 6, 5) == -2 && IntDot(m, B, 6, 6) == -2 && IntDot(m, B, 6, 7) == 0;
  }

  lemma ScaledInverse7Row6()
    ensures forall j :: 0 <= j < 7 ==>
              IntDot(ScaledInverse7()[6], GeneratorMatrix7Literal(), j, 7) == if j == 6 then 6 else 0
  {
    ScaledInverse7Row6Left();
    ScaledInverse7Row6Right();
  }

  lemma ScaledInverse7Row6Left()
    ensures forall j :: 0 <= j < 4 ==> IntDot(ScaledInverse7()[6], GeneratorMatrix7Literal(), j, 7) == 0
  {
    var m, B := ScaledInverse7()[6], GeneratorMatrix7Literal();
    assert m == [2, -1, -1, -1, 2, -1, 2];
    assert IntDot(m, B, 0, 1) == 2 && IntDot(m, B, 0, 2) == 1 && IntDot(m, B, 0, 3) == 1 && IntDot(m, B, 0, 4) == 1 &&
           IntDot(m, B, 0, 5) == 1 && IntDot(m, B, 0, 6) == 0 && IntDot(m, B, 0, 7) == 0;
    assert IntDot(m, B, 1, 1) == 0 && IntDot(m, B, 1, 2) == -1 && IntDot(m, B, 1, 3) == -2 && IntDot(m, B, 1, 4) == -2 &&
           IntDot(m, B, 1, 5) == -2 && IntDot(m, B, 1, 6) == -2 && IntDot(m, B, 1, 7) == 0;
    assert IntDot(m, B, 2, 1) == 2 && IntDot(m, B, 2, 2) == 2 && IntDot(m, B, 2, 3) == 1 && IntDot(m, B, 2, 4) == 0 &&
           IntDot(m, B, 2, 5) == 0 && IntDot(m, B, 2, 6) == 0 && IntDot(m, B, 2, 7) == 0;
    assert IntDot(m, B, 3, 1) == 0 && IntDot(m, B, 3, 2) == -1 && IntDot(m, B, 3, 3) == -1 && IntDot(m, B, 3, 4) == -2 &&
           IntDot(m, B, 3, 5) == 0 && IntDot(m, B, 3, 6) == 0 && IntDot(m, B, 3, 7) == 0;
  }

  lemma ScaledInverse7Row6Right()
    ensures forall j :: 4 <= j < 7 ==>
              IntDot(ScaledInverse7()[6], GeneratorMatrix7Literal(), j, 7) == if j == 6 then 6 else 0
  {
    var m, B := ScaledInverse7()[6], GeneratorMatrix7Literal();
    assert m == [2, -1, -1, -1, 2, -1, 2];
    assert IntDot(m, B, 4, 1) == 0 && IntDot(m, B, 4, 2) == 0 && IntDot(m, B, 4, 3) == -1 && IntDot(m, B, 4, 4) == -1 &&
           IntDot(m, B, 4, 5) == 1 && IntDot(m, B, 4, 6) == 0 && IntDot(m, B, 4, 7) == 0;
    assert IntDot(m, B, 5, 1) == 0 && IntDot(m, B, 5, 2) == 0 && IntDot(m, B, 5, 3) == 0 && IntDot(m, B, 5, 4) == -1 &&
           IntDot(m, B, 5, 5) == -1 && IntDot(m, B, 5, 6) == -2 && IntDot(m, B, 5, 7) == 0;
    assert IntDot(m, B, 6, 1) == 2 && IntDot(m, B, 6, 2) == 2 && IntDot(m, B, 6, 3) == 2 && IntDot(m, B, 6, 4) == 2 &&
           IntDot(m, B, 6, 5) == 4 && IntDot(m, B, 6, 6) == 4 && IntDot(m, B, 6, 7) == 6;
  }

  /** The t = 7 generator has a real inverse: a circulant with entries 1/3 and -1/6. */
  lemma Generator7RealNonsingular()
    ensures RealNonsingular(GeneratorMatrix7Literal())
  {
    ScaledInverse7Row0();
    ScaledInverse7Row1();
    ScaledInverse7Row2();
    ScaledInverse7Row3();
    ScaledInverse7Row4();
    ScaledInverse7Row5();
    ScaledInverse7Row6();
    var N, B := ScaledInverse7(), GeneratorMatrix7Literal();
    assert IsMatrix(B, 7, 7);
    forall i, j | 0 <= i < 7 && 0 <= j < 7 ensures IntDot(N[i], B, j, 7) == if i == j then 6 else 0 {
      if i == 0 { } else if i == 1 { } else if i == 2 { } else if i == 3 { }
      else if i == 4 { } else if i == 5 { } else { }
    }
    assert ScaledLeftInverse(N, 6, B);
  }

  /** The guard as written passes the t = 7 generator, which is singular over GF(2). */
  lemma AsWrittenAcceptsSingularGenerator()
    ensures GenerateInvertibleAsWritten(7) == Success(EncAndDec.GeneratorMatrix(7))
    ensures !Nonsingular(EncAndDec.GeneratorMatrix(7))
  {
    EncAndDec.GeneratorMatrixSmallCases();
    GeneratorMatrix7();
    assert EncAndDec.GeneratorMatrix(7) == Circulant(Generator(7)) == GeneratorMatrix7Literal();
    Generator7RealNonsingular();
  }

  // ---------------------------------------------------------------------------
  // generate_invertible_cyclic_matrix, with the GF(2) guard

  /** The generator is returned unchanged when it is invertible over GF(2), and refused
      otherwise. */
  method GenerateInvertibleCyclicMatrix(t: int) returns (r: Result<Matrix>)
    ensures t < 2 ==> r == Failure(InvalidDimension)
    ensures t >= 2 ==> (r.Success? <==> Nonsingular(EncAndDec.GeneratorMatrix(t)))
    ensures t >= 2 && r.Failure? ==> r.error == SingularMatrix
    ensures r.Success? ==> t >= 2 && r.value == EncAndDec.GeneratorMatrix(t)
  {
    var generated := GenerateCyclicMatrix(t);
    if generated.Failure? {
      return generated;
    }
    var B := generated.value;
    var check := GaussJordan.Invert(B);
    if check.Failure? {
      return Failure(SingularMatrix);
    }
    return Success(B);
  }
}
