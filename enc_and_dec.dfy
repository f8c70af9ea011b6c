/** Essentials/Enc_and_Dec.py: the same (t, t+1) bit sharing as Shares_Gen.py with a
    different 2 x 2 generator, applied to a byte payload that is packed into bits most
    significant first, shared, recovered, packed back into bytes and cut into its fields. */
module EncAndDec {
  import opened Gf2
  import opened Results
  import opened Cyclic
  import opened Threshold
  import opened Slices
  import opened Arith
  import opened BitStrings
  import SharesGen
  import GaussJordan

  type Byte = b: int | 0 <= b < 256

  /** The generator this file builds for t >= 2. */
  function GeneratorMatrix(t: nat): (B: Matrix)
    requires t >= 2
    ensures IsMatrix(B, t, t)
  {
    if t == 2 then [[0, 1], [1, 0]]
    else if t == 3 then Fixed3()
    else Circulant(Generator(t))
  }

  // ---------------------------------------------------------------------------
  // generate_cyclic_matrix

  /** t = 2 and t = 3 are fixed; otherwise the generator row is rolled right once per
      row.  For t < 4 the row is [1, 0, 1, 1], which fits no smaller matrix: t = 1 fails
      to broadcast, t = 0 indexes row 0 of an empty matrix, a negative t is a negative
      numpy dimension. */
  method GenerateCyclicMatrix(t: int) returns (r: Result<Matrix>)
    ensures t < 2 ==> r.Failure? && r.error == (if t == 0 then IndexOutOfRange else ShapeMismatch)
    ensures t >= 2 ==> r == Success(GeneratorMatrix(t))
  {
    if t == 2 {
      return Success([[0, 1], [1, 0]]);
    } else if t == 3 {
      return Success([[1, 1, 1], [1, 1, 0], [1, 0, 1]]);
    } else if t < 0 {
      return Failure(ShapeMismatch);
    } else if t == 0 {
      return Failure(IndexOutOfRange);
    } else if t == 1 {
      return Failure(ShapeMismatch);
    }
    var gen := [1, 0, 1] + Zeros(t - 4) + [1];
    var B := FillByRolling(gen);
    return Success(B);
  }

  /** This file's generators for t = 2 .. 5 are nonsingular, the one for t = 7 is not. */
  lemma GeneratorMatrixSmallCases()
    ensures forall t :: 2 <= t <= 5 ==> Nonsingular(GeneratorMatrix(t))
    ensures !Nonsingular(GeneratorMatrix(7))
  {
    TwoByTwoSwapNonsingular();
    Fixed3Nonsingular();
    Generator4Nonsingular();
    Generator5Nonsingular();
    Generator7Singular();
    assert GeneratorMatrix(2) == [[0, 1], [1, 0]];
    assert GeneratorMatrix(3) == Fixed3();
    assert GeneratorMatrix(4) == Circulant(Generator(4));
    assert GeneratorMatrix(5) == Circulant(Generator(5));
    assert GeneratorMatrix(7) == Circulant(Generator(7));
  }

  // ---------------------------------------------------------------------------
  // split_message

  /** The blocks of Shares_Gen.py together with block_len = ceil(L / t).  For a negative t
      there are no blocks and the ceiling of the negative quotient is still returned. */
  method SplitMessage(msg: seq<Bit>, t: int) returns (r: Result<(Matrix, int)>)
    ensures t == 0 <==> r.Failure?
    ensures r.Failure? ==> r.error == ZeroDivision
    ensures t < 0 ==> r == Success(([], -(|msg| / -t)))
    ensures t > 0 ==> r.Success? && r.value.1 == SharesGen.BlockLen(|msg|, t) &&
                      SharesGen.SplitInto(msg, t, r.value.0)
  {
    var split := SharesGen.SplitMessage(msg, t);
    if split.Failure? {
      return Failure(split.error);
    }
    var blockLen := if t > 0 then SharesGen.BlockLen(|msg|, t) else -(|msg| / -t);
    return Success((split.value, blockLen));
  }

  // ---------------------------------------------------------------------------
  // generate_shares

  /** Each share XORs in the blocks whose generator bit is 1; the generator is extended by
      the XOR of its rows first. */
  method GenerateShares(blocks: Matrix, B: Matrix) returns (shares: Matrix, Bext: Matrix)
    requires |B| >= 1 && IsMatrix(B, |B|, |B|)
    requires |blocks| == |B| && IsMatrix(blocks, |B|, |blocks[0]|)
    ensures Bext == Extend(B, |B|)
    ensures shares == MatMul(Bext, blocks, |blocks[0]|)
  {
    var t := |B|;
    var w := |blocks[0]|;
    Bext := B + [RowXor(B, t)];
    shares := [];
    for r := 0 to t + 1
      invariant shares == MatMul(Bext[..r], blocks, w)
    {
      var row := Bext[r];
      var s := Zeros(w);
      for i := 0 to t
        invariant s == LinComb(row[..i], blocks[..i], w)
      {
        LinCombPrefix(row, blocks, w, i);
        if row[i] == 1 {
          s := VAdd(s, blocks[i]);
        } else {
          assert VAdd(s, Scale(row[i], blocks[i])) == s;
        }
      }
      assert row[..t] == row && blocks[..t] == blocks;
      shares := shares + [s];
      assert Bext[..r + 1] == Bext[..r] + [row];
    }
    assert Bext[..t + 1] == Bext;
  }

  // ---------------------------------------------------------------------------
  // reconstruct_blocks

  /** (B_inv S_sub) mod 2 for the chosen rows of the extended generator; the result is the
      only matrix of blocks those shares can come from.  The indices are Python indices
      into the rows of B_extended and their number is not checked: no shares fail when
      the block length is read, k indices hand k x t rows to gf2_inverse, the product
      fails unless there are k shares, and reading t block rows fails when k < t; so
      exactly t shares with t distinct, invertible rows succeed. */
  method ReconstructBlocks(selected: Matrix, idx: seq<int>, Bext: Matrix, t: nat)
    returns (r: Result<Matrix>)
    requires t >= 1 && IsMatrix(Bext, |Bext|, t)
    requires |selected| > 0 ==> IsMatrix(selected, |selected|, |selected[0]|)
    ensures r.Failure? ==> r.error == IndexOutOfRange || r.error == SingularMatrix || r.error == ShapeMismatch
    ensures |selected| == 0 || !InPyRange(idx, |Bext|) ==> r == Failure(IndexOutOfRange)
    ensures r.Success? <==>
              |selected| > 0 && InPyRange(idx, |Bext|) && |idx| == t && |selected| == t &&
              Nonsingular(Select(Bext, PyIndices(idx, |Bext|)))
    ensures r.Success? ==> IsMatrix(r.value, t, |selected[0]|)
    ensures r.Success? ==> forall C :: IsMatrix(C, t, |selected[0]|) &&
                                       MatMul(Select(Bext, PyIndices(idx, |Bext|)), C, |selected[0]|) == selected
                                       ==> r.value == C
  {
    if |selected| == 0 || !InPyRange(idx, |Bext|) {
      return Failure(IndexOutOfRange);
    }
    var w := |selected[0]|;
    var Bsub := Select(Bext, PyIndices(idx, |Bext|));
    LeadingAll(Bsub, t);
    var inverse := GaussJordan.InvertLeading(Bsub, t);
    if inverse.Failure? {
      return Failure(inverse.error);
    }
    if |selected| != |idx| {
      return Failure(ShapeMismatch);
    }
    if |idx| < t {
      return Failure(IndexOutOfRange);
    }
    var blocksMatrix := MatMul(inverse.value, selected, w);
    forall C | IsMatrix(C, t, w) && MatMul(Bsub, C, w) == selected ensures blocksMatrix == C {
      LeftInverseRecovers(inverse.value, Bsub, C, w);
    }
    return Success(blocksMatrix);
  }

  // ---------------------------------------------------------------------------
  // bits_to_bytes and bytes_to_bits

  /** Eight bits, most significant first, read as a byte. */
  function ByteOf(bits: seq<Bit>): (b: Byte)
    requires |bits| == 8
  {
    assert Pow2(8) == 256;
    BitValue(bits)
  }

  /** The eight bits of a byte, most significant first: (b >> i) & 1 for i = 7 down to 0. */
  function ByteBits(b: Byte): (bits: seq<Bit>)
    ensures |bits| == 8
  {
    seq(8, j requires 0 <= j < 8 => (b / Pow2(7 - j)) % 2)
  }

  /** bits_to_bytes as a value: one byte per started group of eight bits, a short last
      group padded with zero low bits. */
  function PackBits(bits: seq<Bit>): (out: seq<Byte>)
    ensures |out| == (|bits| + 7) / 8
  {
    seq((|bits| + 7) / 8, k requires 0 <= k < (|bits| + 7) / 8 =>
      ByteOf(SharesGen.PaddedBlock(bits, k * 8, 8)))
  }

  /** bytes_to_bits as a value: the eight bits of each byte, one byte after another. */
  function UnpackBytes(bts: seq<Byte>): (bits: seq<Bit>)
  {
    Flatten(seq(|bts|, k requires 0 <= k < |bts| => ByteBits(bts[k])))
  }

  lemma ByteBitsOf(b: Byte)
    ensures ByteBits(b) == BitsOf(b, 8)
  {
    forall j | 0 <= j < 8 ensures ByteBits(b)[j] == BitsOf(b, 8)[j] {
      BitsOfAt(b, 8, j);
    }
  }

  /** Splitting a byte into bits and reading them back gives the byte. */
  lemma ByteRoundTrip(b: Byte)
    ensures ByteOf(ByteBits(b)) == b
  {
    ByteBitsOf(b);
    assert Pow2(8) == 256;
    BitsOfValue(b, 8);
  }

  /** Reading eight bits as a byte and splitting it gives the bits. */
  lemma BitsRoundTrip(bits: seq<Bit>)
    requires |bits| == 8
    ensures ByteBits(ByteOf(bits)) == bits
  {
    ByteBitsOf(ByteOf(bits));
    ValueBitsOf(bits);
  }

  /** Every byte gives eight bits; bit 8 k + j of the output is bit j of byte k. */
  lemma UnpackAt(bts: seq<Byte>, k: nat, j: nat)
    requires k < |bts| && j < 8
    ensures |UnpackBytes(bts)| == 8 * |bts|
    ensures UnpackBytes(bts)[k * 8 + j] == ByteBits(bts[k])[j] == (bts[k] / Pow2(7 - j)) % 2
  {
    var rows := seq(|bts|, k requires 0 <= k < |bts| => ByteBits(bts[k]));
    FlattenLength(rows, 8);
    FlattenAt(rows, 8, k, j);
  }

  /** bits_to_bytes(bytes_to_bits(b)) == b. */
  lemma PackUnpack(bts: seq<Byte>)
    ensures PackBits(UnpackBytes(bts)) == bts
  {
    UnpackLength(bts);
    forall k | 0 <= k < |bts| ensures PackBits(UnpackBytes(bts))[k] == bts[k] {
      PackUnpackAt(bts, k);
    }
  }

  lemma UnpackLength(bts: seq<Byte>)
    ensures |UnpackBytes(bts)| == 8 * |bts| && |PackBits(UnpackBytes(bts))| == |bts|
  {
    var rows := seq(|bts|, k requires 0 <= k < |bts| => ByteBits(bts[k]));
    FlattenLength(rows, 8);
  }

  lemma PackUnpackAt(bts: seq<Byte>, k: nat)
    requires k < |bts|
    ensures k < |PackBits(UnpackBytes(bts))| && PackBits(UnpackBytes(bts))[k] == bts[k]
  {
    var bits := UnpackBytes(bts);
    UnpackLength(bts);
    var group := SharesGen.PaddedBlock(bits, k * 8, 8);
    forall j | 0 <= j < 8 ensures group[j] == ByteBits(bts[k])[j] {
      UnpackAt(bts, k, j);
    }
    assert group == ByteBits(bts[k]);
    assert PackBits(bits)[k] == ByteOf(group);
    ByteRoundTrip(bts[k]);
  }

  /** bytes_to_bits(bits_to_bytes(bits)) is bits followed by the zero padding of the last byte. */
  lemma UnpackPack(bits: seq<Bit>)
    ensures |UnpackBytes(PackBits(bits))| == 8 * ((|bits| + 7) / 8) >= |bits|
    ensures UnpackBytes(PackBits(bits))[..|bits|] == bits
    ensures forall p :: |bits| <= p < |UnpackBytes(PackBits(bits))| ==>
                        UnpackBytes(PackBits(bits))[p] == 0
  {
    var out := PackBits(bits);
    var rows := seq(|out|, k requires 0 <= k < |out| => ByteBits(out[k]));
    FlattenLength(rows, 8);
    forall p | 0 <= p < 8 * |out|
      ensures UnpackBytes(out)[p] == if p < |bits| then bits[p] else 0
    {
      UnpackPackAt(bits, p);
    }
  }

  lemma UnpackPackAt(bits: seq<Bit>, p: nat)
    requires p < 8 * ((|bits| + 7) / 8)
    ensures p < |UnpackBytes(PackBits(bits))|
    ensures UnpackBytes(PackBits(bits))[p] == if p < |bits| then bits[p] else 0
  {
    var k, j := p / 8, p % 8;
    assert p == k * 8 + j;
    UnpackAt(PackBits(bits), k, j);
    PackedBit(bits, k, j);
  }

  /** Bit j of packed byte k is the bit at 8 k + j, or 0 past the end. */
  lemma PackedBit(bits: seq<Bit>, k: nat, j: nat)
    requires k < (|bits| + 7) / 8 && j < 8
    ensures ByteBits(PackBits(bits)[k])[j] == if k * 8 + j < |bits| then bits[k * 8 + j] else 0
  {
    var group := SharesGen.PaddedBlock(bits, k * 8, 8);
    assert PackBits(bits)[k] == ByteOf(group);
    BitsRoundTrip(group);
  }

  /** bits_to_bytes: one accumulator per group of eight, shifted left and or-ed with each bit
      that exists (or-ing a bit into a value just shifted left adds it). */
  method BitsToBytes(bits: seq<Bit>) returns (out: seq<Byte>)
    ensures out == PackBits(bits)
  {
    out := [];
    var i := 0;
    while i < |bits|
      invariant i == 8 * |out| && i <= |bits| + 7
      invariant out == PackBits(bits)[..|out|]
      decreases |bits| - i
    {
      ghost var group := SharesGen.PaddedBlock(bits, i, 8);
      var b: nat := 0;
      for j := 0 to 8
        invariant b == BitValue(group[..j])
      {
        BitValuePrefix(group, j);
        b := b * 2;
        if i + j < |bits| {
          b := b + bits[i + j];
        }
      }
      PackBitsNext(bits, out, b);
      out := out + [b];
      i := i + 8;
    }
  }

  /** The next group of eight bits, read as a number, is the next packed byte. */
  lemma PackBitsNext(bits: seq<Bit>, out: seq<Byte>, b: nat)
    requires 8 * |out| < |bits| && out == PackBits(bits)[..|out|]
    requires b == BitValue(SharesGen.PaddedBlock(bits, 8 * |out|, 8)[..8])
    ensures b < 256 && out + [b] == PackBits(bits)[..|out| + 1]
  {
    var group := SharesGen.PaddedBlock(bits, 8 * |out|, 8);
    assert group[..8] == group;
    assert b == ByteOf(group);
  }

  /** bytes_to_bits: the bits of each byte appended from bit 7 down to bit 0. */
  method BytesToBits(bts: seq<Byte>) returns (bits: seq<Bit>)
    ensures bits == UnpackBytes(bts)
  {
    bits := [];
    for k := 0 to |bts|
      invariant bits == UnpackBytes(bts[..k])
    {
      ghost var before := bits;
      var b := bts[k];
      for j := 0 to 8
        invariant bits == before + ByteBits(b)[..j]
      {
        assert ByteBits(b)[..j + 1] == ByteBits(b)[..j] + [ByteBits(b)[j]];
        bits := bits + [(b / Pow2(7 - j)) % 2];
      }
      assert ByteBits(b)[..8] == ByteBits(b);
      var rows := seq(k + 1, i requires 0 <= i < k + 1 => ByteBits(bts[..k + 1][i]));
      assert rows[..k] == seq(k, i requires 0 <= i < k => ByteBits(bts[..k][i]));
    }
    assert bts[..|bts|] == bts;
  }

  // ---------------------------------------------------------------------------
  // Field framing: the fields joined end to end, then cut at cumulative offsets

  function Lengths(fields: seq<seq<Byte>>): (lens: seq<nat>)
    ensures |lens| == |fields| && forall i :: 0 <= i < |fields| ==> lens[i] == |fields[i]|
  {
    seq(|fields|, i requires 0 <= i < |fields| => |fields[i]|)
  }

  /** The sum of the first i lengths. */
  function Offset(lens: seq<nat>, i: nat): nat
    requires i <= |lens|
  {
    if i == 0 then 0 else Offset(lens, i - 1) + lens[i - 1]
  }

  /** The payload: all fields concatenated in order. */
  function Combine(fields: seq<seq<Byte>>): (data: seq<Byte>)
  {
    Flatten(fields)
  }

  /** Field i of data: the slice from the sum of the earlier lengths, lens[i] bytes long
      (shorter or empty past the end of data). */
  function FieldAt(data: seq<Byte>, lens: seq<nat>, i: nat): (field: seq<Byte>)
    requires i < |lens|
  {
    PySlice(data, Offset(lens, i), Offset(lens, i) + lens[i])
  }

  /** Cuts data into fields of the given lengths, each slice starting where the previous
      one ended. */
  method SplitFields(data: seq<Byte>, lens: seq<nat>) returns (fields: seq<seq<Byte>>)
    ensures |fields| == |lens|
    ensures forall i :: 0 <= i < |lens| ==> fields[i] == FieldAt(data, lens, i)
  {
    fields := [];
    var off := 0;
    for i := 0 to |lens|
      invariant |fields| == i && off == Offset(lens, i)
      invariant forall i' :: 0 <= i' < i ==> fields[i'] == FieldAt(data, lens, i')
    {
      var field := PySlice(data, off, off + lens[i]);
      assert field == FieldAt(data, lens, i);
      fields := fields + [field];
      off := off + lens[i];
    }
  }

  lemma {:induction false} OffsetPrefix(lens: seq<nat>, lens': seq<nat>, i: nat)
    requires i <= |lens| && i <= |lens'| && lens[..i] == lens'[..i]
    ensures Offset(lens, i) == Offset(lens', i)
  {
    if i > 0 {
      assert lens[..i - 1] == lens'[..i - 1] by {
        assert lens[..i - 1] == lens[..i][..i - 1];
        assert lens'[..i - 1] == lens'[..i][..i - 1];
      }
      assert lens[i - 1] == lens[..i][i - 1];
      OffsetPrefix(lens, lens', i - 1);
    }
  }

  /** Byte k of field i sits at the field's offset plus k in the payload, and the payload is
      exactly as long as all fields together. */
  lemma {:induction false} CombineAt(fields: seq<seq<Byte>>, i: nat, k: nat)
    requires i < |fields| && k < |fields[i]|
    ensures |Combine(fields)| == Offset(Lengths(fields), |fields|)
    ensures Offset(Lengths(fields), i) + k < |Combine(fields)|
    ensures Combine(fields)[Offset(Lengths(fields), i) + k] == fields[i][k]
    decreases |fields|
  {
    var n := |fields| - 1;
    assert Lengths(fields)[..n] == Lengths(fields[..n]);
    CombineLength(fields[..n]);
    OffsetPrefix(Lengths(fields), Lengths(fields[..n]), n);
    if i < n {
      CombineAt(fields[..n], i, k);
      OffsetPrefix(Lengths(fields), Lengths(fields[..n]), i);
    }
  }

  lemma {:induction false} CombineLength(fields: seq<seq<Byte>>)
    ensures |Combine(fields)| == Offset(Lengths(fields), |fields|)
    decreases |fields|
  {
    if |fields| > 0 {
      var n := |fields| - 1;
      CombineLength(fields[..n]);
      assert Lengths(fields)[..n] == Lengths(fields[..n]);
      OffsetPrefix(Lengths(fields), Lengths(fields[..n]), n);
    }
  }

  /** Cutting the payload at the cumulative field lengths gives every field back. */
  lemma FramingRoundTrip(fields: seq<seq<Byte>>)
    ensures forall i :: 0 <= i < |fields| ==> FieldAt(Combine(fields), Lengths(fields), i) == fields[i]
  {
    forall i | 0 <= i < |fields| ensures FieldAt(Combine(fields), Lengths(fields), i) == fields[i] {
      var off := Offset(Lengths(fields), i);
      OffsetMono(Lengths(fields), i + 1, |fields|);
      CombineLength(fields);
      forall k | 0 <= k < |fields[i]| ensures Combine(fields)[off + k] == fields[i][k] {
        CombineAt(fields, i, k);
      }
    }
  }

  lemma {:induction false} OffsetMono(lens: seq<nat>, i: nat, j: nat)
    requires i <= j <= |lens|
    ensures Offset(lens, i) <= Offset(lens, j)
    decreases j
  {
    if i < j {
      OffsetMono(lens, i, j - 1);
    }
  }

  // ---------------------------------------------------------------------------
  // The demonstration: payload -> bits -> shares -> t shares -> bits -> bytes -> fields

  /** The encrypted fields come back unchanged from any t distinct shares exactly when
      the generator is nonsingular (negative indices count from the end); t < 2 fails,
      as does a number of indices other than t. */
  method ShareCombinedPayload(fields: seq<seq<Byte>>, t: int, idx: seq<int>)
    returns (r: Result<seq<seq<Byte>>>)
    ensures t < 2 ==> r.Failure?
    ensures t >= 2 && |idx| != t ==> r == Failure(WrongShareCount)
    ensures r.Success? ==> r.value == fields
    ensures t >= 2 && |idx| == t && InPyRange(idx, t + 1) && Distinct(PyIndices(idx, t + 1)) ==>
              (r.Success? <==> Nonsingular(GeneratorMatrix(t)))
  {
    var combined := Combine(fields);
    var combinedBits := BytesToBits(combined);
    var split := SplitMessage(combinedBits, t);
    if split.Failure? {
      return Failure(split.error);
    }
    var generated := GenerateCyclicMatrix(t);
    if generated.Failure? {
      return Failure(generated.error);
    }
    var blocks, w := split.value.0, split.value.1;
    var B := generated.value;
    var shares, Bext := GenerateShares(blocks, B);
    if |idx| != t {
      return Failure(WrongShareCount);
    }
    if !InPyRange(idx, t + 1) {
      return Failure(IndexOutOfRange);
    }
    var rec := RecoverBits(combinedBits, t, blocks, B, shares, idx);
    if rec.Failure? {
      return Failure(rec.error);
    }
    var recBytes := BitsToBytes(rec.value);
    PackUnpack(combined);
    var recFields := SplitFields(recBytes, Lengths(fields));
    FramingRoundTrip(fields);
    return Success(recFields);
  }

  /** The t shares named by the indices are handed to reconstruct_blocks and the joined
      blocks are cut back to the length of the bit string that was shared. */
  method RecoverBits(msg: seq<Bit>, t: nat, blocks: Matrix, B: Matrix, shares: Matrix, idx: seq<int>)
    returns (r: Result<seq<Bit>>)
    requires t >= 2 && SharesGen.SplitInto(msg, t, blocks)
    requires IsMatrix(blocks, t, SharesGen.BlockLen(|msg|, t))
    requires IsMatrix(B, t, t) && shares == MatMul(Extend(B, t), blocks, SharesGen.BlockLen(|msg|, t))
    requires |idx| == t && InPyRange(idx, t + 1)
    ensures r.Success? ==> r.value == msg
    ensures Distinct(PyIndices(idx, t + 1)) ==> (r.Success? <==> Nonsingular(B))
  {
    var w := SharesGen.BlockLen(|msg|, t);
    var Bext := Extend(B, t);
    var ix := PyIndices(idx, t + 1);
    var selected := Select(shares, ix);
    MatMulSelect(Bext, ix, blocks, w);
    if Distinct(ix) {
      SubsetNonsingularIff(B, ix);
    }
    var rec := ReconstructBlocks(selected, idx, Bext, t);
    if rec.Failure? {
      return Failure(rec.error);
    }
    SharesGen.RecoveredJoin(msg, t, blocks, rec.value);
    return Success(Flatten(rec.value)[..|msg|]);
  }
}
