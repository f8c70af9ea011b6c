/** Essentials/Shares_Gen.py: a bit message is cut into t blocks, t+1 shares are
    formed with the extended circulant generator, and any t shares give the blocks
    back through GF(2) inversion of the chosen generator rows. */
module SharesGen {
  import opened Gf2
  import opened Results
  import opened Cyclic
  import opened Threshold
  import opened Slices
  import opened Arith
  import GaussJordan

  /** The generator this file builds for t >= 2. */
  function GeneratorMatrix(t: nat): (B: Matrix)
    requires t >= 2
    ensures IsMatrix(B, t, t)
  {
    if t == 2 then [[0, 1], [1, 1]]
    else if t == 3 then Fixed3()
    else Circulant(Generator(t))
  }

  /** math.ceil(L / t) for t > 0. */
  function BlockLen(L: nat, t: nat): (bl: nat)
    requires t > 0
    ensures bl * t >= L && (bl == 0 || (bl - 1) * t < L)
  {
    (L + t - 1) / t
  }

  /** msg[start:start+bl], padded with zeros to bl bits. */
  function PaddedBlock(msg: seq<Bit>, start: nat, bl: nat): (blk: Vec)
    ensures |blk| == bl
    ensures forall k :: 0 <= k < bl ==> blk[k] == if start + k < |msg| then msg[start + k] else 0
  {
    var s := PySlice(msg, start, start + bl);
    if |s| < bl then s + Zeros(bl - |s|) else s
  }

  /** blocks cuts msg into t rows of width BlockLen(|msg|, t), zero-padded at the tail. */
  ghost predicate SplitInto(msg: seq<Bit>, t: nat, blocks: Matrix)
    requires t > 0
  {
    var bl := BlockLen(|msg|, t);
    |blocks| == t && forall i :: 0 <= i < t ==> blocks[i] == PaddedBlock(msg, i * bl, bl)
  }

  // ---------------------------------------------------------------------------
  // generate_cyclic_matrix

  /** t = 2 and t = 3 are fixed; t >= 4 rolls the generator row.  t = 1 fails when the
      four-entry row is assigned into a 1 x 1 matrix, t = 0 when row 0 of an empty matrix is
      assigned, a negative t when numpy is asked for negative dimensions. */
  method GenerateCyclicMatrix(t: int) returns (r: Result<Matrix>)
    ensures t < 2 ==> r.Failure? && r.error == (if t == 0 then IndexOutOfRange else ShapeMismatch)
    ensures t >= 2 ==> r == Success(GeneratorMatrix(t))
  {
    if t == 2 {
      return Success([[0, 1], [1, 1]]);
    } else if t == 3 {
      return Success([[1, 1, 1], [1, 1, 0], [1, 0, 1]]);
    } else if t == 0 {
      return Failure(IndexOutOfRange);
    } else if t < 2 {
      return Failure(ShapeMismatch);
    }
    var gen := [1, 0, 1] + Zeros(t - 4) + [1];
    var B := FillByRolling(gen);
    return Success(B);
  }

  /** The first matrices of this file are nonsingular; for t = 7 the generator is not. */
  lemma GeneratorMatrixSmallCases()
    ensures forall t :: 2 <= t <= 5 ==> Nonsingular(GeneratorMatrix(t))
    ensures !Nonsingular(GeneratorMatrix(7))
  {
    TwoByTwoTriangularNonsingular();
    Fixed3Nonsingular();
    Generator4Nonsingular();
    Generator5Nonsingular();
    Generator7Singular();
  }

  // ---------------------------------------------------------------------------
  // split_message

  /** Cuts msg into t blocks of BlockLen(|msg|, t) bits, padding the last ones with zeros.
      t = 0 divides by zero; a negative t makes range(t) empty. */
  method SplitMessage(msg: seq<Bit>, t: int) returns (r: Result<Matrix>)
    ensures t == 0 <==> r.Failure?
    ensures r.Failure? ==> r.error == ZeroDivision
    ensures t < 0 ==> r == Success([])
    ensures t > 0 ==> r.Success? && SplitInto(msg, t, r.value)
  {
    if t == 0 {
      return Failure(ZeroDivision);
    } else if t < 0 {
      return Success([]);
    }
    var L := |msg|;
    var bl := BlockLen(L, t);
    var blocks: Matrix := [];
    for i := 0 to t
      invariant |blocks| == i
      invariant forall i' :: 0 <= i' < i ==> blocks[i'] == PaddedBlock(msg, i' * bl, bl)
    {
      var blk := CutBlock(msg, i * bl, bl);
      blocks := blocks + [blk];
    }
    return Success(blocks);
  }

  /** One block: msg[start:start+bl], zero-filled to bl bits when the message runs out. */
  method CutBlock(msg: seq<Bit>, start: nat, bl: nat) returns (blk: Vec)
    ensures blk == PaddedBlock(msg, start, bl)
  {
    blk := PySlice(msg, start, start + bl);
    if |blk| < bl {
      blk := blk + Zeros(bl - |blk|);
    }
  }

  /** Joining the blocks and cutting at |msg| gives the message back; the rest is padding. */
  lemma SplitJoin(msg: seq<Bit>, t: nat, blocks: Matrix)
    requires t > 0 && SplitInto(msg, t, blocks)
    ensures |Flatten(blocks)| >= |msg| && Flatten(blocks)[..|msg|] == msg
    ensures forall p :: |msg| <= p < |Flatten(blocks)| ==> Flatten(blocks)[p] == 0
  {
    var bl := BlockLen(|msg|, t);
    FlattenLength(blocks, bl);
    forall p | 0 <= p < |Flatten(blocks)|
      ensures Flatten(blocks)[p] == if p < |msg| then msg[p] else 0
    {
      SplitJoinAt(msg, t, blocks, p);
    }
  }

  lemma SplitJoinAt(msg: seq<Bit>, t: nat, blocks: Matrix, p: nat)
    requires t > 0 && SplitInto(msg, t, blocks)
    requires p < t * BlockLen(|msg|, t)
    ensures p < |Flatten(blocks)|
    ensures Flatten(blocks)[p] == if p < |msg| then msg[p] else 0
  {
    var bl := BlockLen(|msg|, t);
    DivModBelow(p, bl, t);
    var i, k := p / bl, p % bl;
    FlattenAt(blocks, bl, i, k);
  }

  // ---------------------------------------------------------------------------
  // generate_shares

  /** Share r is the XOR of the blocks selected by row r of B extended with the XOR of
      its rows; the extension is returned with the shares. */
  method GenerateShares(blocks: Matrix, B: Matrix) returns (shares: Matrix, Bext: Matrix)
    requires |B| >= 1 && IsMatrix(B, |B|, |B|)
    requires |blocks| == |B| && IsMatrix(blocks, |B|, |blocks[0]|)
    ensures Bext == Extend(B, |B|)
    ensures shares == MatMul(Bext, blocks, |blocks[0]|)
  {
    var t := |B|;
    var w := |blocks[0]|;
    Bext := B + [RowXor(B, t)];
    shares := [];
    for r := 0 to t + 1
      invariant shares == MatMul(Bext[..r], blocks, w)
    {
      var row := Bext[r];
      var share := Zeros(w);
      for i := 0 to t
        invariant share == LinComb(row[..i], blocks[..i], w)
      {
        LinCombPrefix(row, blocks, w, i);
        share := VAdd(share, Scale(row[i], blocks[i]));
      }
      assert row[..t] == row && blocks[..t] == blocks;
      shares := shares + [share];
      assert Bext[..r + 1] == Bext[..r] + [row];
    }
    assert Bext[..t + 1] == Bext;
  }

  /** The last share is the XOR of the other t, which are the shares B alone gives. */
  lemma LastShareIsXorOfShares(blocks: Matrix, B: Matrix, w: nat)
    requires IsMatrix(B, |B|, |B|) && |blocks| == |B| && IsMatrix(blocks, |B|, w)
    ensures MatMul(Extend(B, |B|), blocks, w)[..|B|] == MatMul(B, blocks, w)
    ensures MatMul(Extend(B, |B|), blocks, w)[|B|] == RowXor(MatMul(B, blocks, w), w)
  {
    ExtendMatMul(B, blocks, w);
  }

  // ---------------------------------------------------------------------------
  // reconstruct_blocks

  /** Inverts the chosen rows of the extended generator and solves for the blocks one bit
      column at a time.  The indices are Python indices into the rows of B_extended, and
      neither their number nor that of the shares is checked: with k indices the k x t
      rows are handed to gf2_inverse, np.dot fails when the share count is not k, and the
      final loop reads past a column of k entries when k < t, except that shares of no
      bits skip both loops and give t empty blocks. */
  method ReconstructBlocks(selected: Matrix, idx: seq<int>, Bext: Matrix, t: nat)
    returns (r: Result<Matrix>)
    requires t >= 1 && IsMatrix(Bext, |Bext|, t)
    requires |selected| > 0 ==> IsMatrix(selected, |selected|, |selected[0]|)
    ensures r.Failure? ==> r.error == IndexOutOfRange || r.error == SingularMatrix || r.error == ShapeMismatch
    ensures !InPyRange(idx, |Bext|) ==> r == Failure(IndexOutOfRange)
    ensures r.Success? <==>
              InPyRange(idx, |Bext|) && |idx| <= t &&
              Nonsingular(Leading(Select(Bext, PyIndices(idx, |Bext|)), |idx|)) &&
              |selected| > 0 && (|selected[0]| == 0 || |idx| == |selected| == t)
    ensures r.Success? ==> IsMatrix(r.value, t, |selected[0]|)
    ensures r.Success? && |idx| == t ==>
              forall C :: IsMatrix(C, t, |selected[0]|) &&
                          MatMul(Select(Bext, PyIndices(idx, |Bext|)), C, |selected[0]|) == selected
                          ==> r.value == C
  {
    if !InPyRange(idx, |Bext|) {
      return Failure(IndexOutOfRange);
    }
    var Bsub := Select(Bext, PyIndices(idx, |Bext|));
    LeadingAll(Bsub, t);
    var inverse := GaussJordan.InvertLeading(Bsub, t);
    if inverse.Failure? {
      return Failure(inverse.error);
    }
    if |selected| == 0 {
      return Failure(IndexOutOfRange);
    }
    var w := |selected[0]|;
    if w == 0 {
      forall C | IsMatrix(C, t, 0) ensures Zero(t, 0) == C {
        NoColumns(C, t);
      }
      return Success(Zero(t, 0));
    }
    if |selected| != |idx| {
      return Failure(ShapeMismatch);
    }
    if |idx| < t {
      return Failure(IndexOutOfRange);
    }
    var Binv := inverse.value;
    var columns: Matrix := [];
    for bit := 0 to w
      invariant |columns| == bit
      invariant forall j :: 0 <= j < bit ==> columns[j] == MatVec(Binv, Column(selected, j))
    {
      var sCol := Column(selected, bit);
      var blkCol := MatVec(Binv, sCol);
      columns := columns + [blkCol];
    }
    var blocks: Matrix := [];
    for i := 0 to t
      invariant |blocks| == i
      invariant forall i' :: 0 <= i' < i ==> blocks[i'] == MatMul(Binv, selected, w)[i']
    {
      var row := seq(w, j requires 0 <= j < w => columns[j][i]);
      forall j | 0 <= j < w ensures row[j] == MatMul(Binv, selected, w)[i][j] {
        LinCombAt(Binv[i], selected, w, j);
      }
      blocks := blocks + [row];
    }
    forall C | IsMatrix(C, t, w) && MatMul(Bsub, C, w) == selected ensures blocks == C {
      LeftInverseRecovers(Binv, Bsub, C, w);
    }
    return Success(blocks);
  }

  // ---------------------------------------------------------------------------
  // The demonstration: split, share, choose t shares, reconstruct, cut to length

  /** With t distinct rows of B_extended chosen, the leading t x t block is the whole
      selection, and it is nonsingular exactly when B is. */
  lemma ChosenRowsIff(B: Matrix, ix: seq<nat>)
    requires IsMatrix(B, |B|, |B|) && |ix| == |B| && Distinct(ix) && Below(ix, |B| + 1)
    ensures Nonsingular(Leading(Select(Extend(B, |B|), ix), |B|)) <==> Nonsingular(B)
  {
    SubsetNonsingularIff(B, ix);
    LeadingAll(Select(Extend(B, |B|), ix), |B|);
  }

  /** Recovered blocks that are the sent blocks, or empty blocks of an empty message,
      join and cut back to the message. */
  lemma RecoveredJoin(msg: seq<Bit>, t: nat, blocks: Matrix, V: Matrix)
    requires t > 0 && SplitInto(msg, t, blocks)
    requires IsMatrix(V, t, BlockLen(|msg|, t))
    requires V == blocks || BlockLen(|msg|, t) == 0
    ensures |Flatten(V)| >= |msg| && Flatten(V)[..|msg|] == msg
  {
    FlattenLength(V, BlockLen(|msg|, t));
    if V == blocks {
      SplitJoin(msg, t, blocks);
    }
  }

  /** The demonstration reads the indices as typed: any t of them that name distinct
      shares (negative ones count from the end) recover the message exactly when the
      generator is nonsingular, and any other number of indices fails unless the message
      is empty. */
  method ShareAndRecover(msg: seq<Bit>, t: int, idx: seq<int>) returns (r: Result<seq<Bit>>)
    ensures t < 2 ==> r == Failure(if t == 0 then ZeroDivision else ShapeMismatch)
    ensures r.Success? ==> r.value == msg
    ensures t >= 2 && |idx| == t && InPyRange(idx, t + 1) && Distinct(PyIndices(idx, t + 1)) ==>
              (r.Success? <==> Nonsingular(GeneratorMatrix(t)))
    ensures |idx| != t && |msg| > 0 ==> r.Failure?
  {
    var split := SplitMessage(msg, t);
    if split.Failure? {
      return Failure(split.error);
    }
    var generated := GenerateCyclicMatrix(t);
    if generated.Failure? {
      return Failure(generated.error);
    }
    var blocks, B := split.value, generated.value;
    var shares, Bext := GenerateShares(blocks, B);
    if !InPyRange(idx, t + 1) {
      return Failure(IndexOutOfRange);
    }
    r := RecoverFromShares(msg, t, blocks, B, shares, idx);
  }

  /** The second half of the demonstration: the shares named by the indices are handed
      to reconstruct_blocks and the joined blocks are cut to the message length. */
  method RecoverFromShares(msg: seq<Bit>, t: nat, blocks: Matrix, B: Matrix, shares: Matrix,
                           idx: seq<int>)
    returns (r: Result<seq<Bit>>)
    requires t >= 2 && SplitInto(msg, t, blocks) && IsMatrix(blocks, t, BlockLen(|msg|, t))
    requires IsMatrix(B, t, t) && shares == MatMul(Extend(B, t), blocks, BlockLen(|msg|, t))
    requires InPyRange(idx, t + 1)
    ensures r.Success? ==> r.value == msg
    ensures |idx| == t && Distinct(PyIndices(idx, t + 1)) ==> (r.Success? <==> Nonsingular(B))
    ensures |idx| != t && |msg| > 0 ==> r.Failure?
  {
    var w := BlockLen(|msg|, t);
    var Bext := Extend(B, t);
    var ix := PyIndices(idx, t + 1);
    var selected := Select(shares, ix);
    MatMulSelect(Bext, ix, blocks, w);
    var rec := ReconstructBlocks(selected, idx, Bext, t);
    if |idx| == t && Distinct(ix) {
      ChosenRowsIff(B, ix);
    }
    if rec.Failure? {
      return Failure(rec.error);
    }
    RecoveredJoin(msg, t, blocks, rec.value);
    return Success(Flatten(rec.value)[..|msg|]);
  }
}
