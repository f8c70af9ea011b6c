/** Message_encryption/share_generation.py: an integer is cut into t fixed-width parts,
    the parts become the rows of a bit matrix, shares are formed with the extended
    generator, and t shares give the bit rows back one bit column at a time. */
module ShareGeneration {
  import opened Gf2
  import opened Results
  import opened Cyclic
  import opened Threshold
  import opened Slices
  import opened Arith
  import opened BitStrings
  import SharesGen
  import EncAndDec
  import GaussJordan

  // ---------------------------------------------------------------------------
  // generate_B_matrix

  /** t = 2 and t = 3 are fixed; otherwise gen gets ones at 0, 2 and -1 and row i is
      np.roll(gen, i).  gen[0] fails for t = 0, gen[2] for t = 1, and numpy refuses the
      negative length of a negative t. */
  method GenerateBMatrix(t: int) returns (r: Result<Matrix>)
    ensures t < 2 ==> r.Failure? && r.error == (if t < 0 then ShapeMismatch else IndexOutOfRange)
    ensures t >= 2 ==> r == Success(SharesGen.GeneratorMatrix(t))
  {
    if t == 2 {
      return Success([[0, 1], [1, 1]]);
    } else if t == 3 {
      return Success([[1, 1, 1], [1, 1, 0], [1, 0, 1]]);
    } else if t < 0 {
      return Failure(ShapeMismatch);
    } else if t < 2 {
      return Failure(IndexOutOfRange);
    }
    var gen := Zeros(t);
    gen := gen[0 := 1];
    gen := gen[2 := 1];
    gen := gen[t - 1 := 1];
    assert gen == Generator(t);
    var B := new Vec[t](_ => Zeros(t));
    for i := 0 to t
      invariant forall k :: 0 <= k < i ==> B[k] == Circulant(gen)[k]
    {
      CirculantRow(gen, i);
      B[i] := Roll(gen, i);
    }
    assert B[..] == Circulant(gen);
    return Success(B[..]);
  }

  // ---------------------------------------------------------------------------
  // intlist_to_bitmatrix

  /** c.bit_length(): the number of binary digits of c, 0 for c = 0. */
  function BitLength(c: nat): (n: nat)
    ensures c < Pow2(n)
    ensures c > 0 ==> Pow2(n - 1) <= c
  {
    if c == 0 then 0 else 1 + BitLength(c / 2)
  }

  /** The largest bit length in C (0 for no integers). */
  function MaxBits(C: seq<nat>): (m: nat)
    ensures forall i :: 0 <= i < |C| ==> BitLength(C[i]) <= m
    ensures |C| > 0 ==> exists i :: 0 <= i < |C| && BitLength(C[i]) == m
  {
    if |C| == 0 then 0
    else
      var m := MaxBits(C[..|C| - 1]);
      var last := BitLength(C[|C| - 1]);
      assert forall i :: 0 <= i < |C| - 1 ==> C[i] == C[..|C| - 1][i];
      if last > m then last else m
  }

  /** Row i holds C[i] in big-endian binary, zero-padded on the left to MaxBits(C). */
  function BitMatrix(C: seq<nat>): (rows: Matrix)
    ensures IsMatrix(rows, |C|, MaxBits(C))
  {
    seq(|C|, i requires 0 <= i < |C| => BitsOf(C[i], MaxBits(C)))
  }

  lemma {:induction false} Pow2Mono(i: nat, j: nat)
    requires i <= j
    ensures Pow2(i) <= Pow2(j)
    decreases j
  {
    if i < j {
      Pow2Mono(i, j - 1);
    }
  }

  /** Every row of the bit matrix reads back as its integer. */
  lemma BitMatrixRows(C: seq<nat>)
    ensures forall i :: 0 <= i < |C| ==> BitValue(BitMatrix(C)[i]) == C[i]
  {
    forall i | 0 <= i < |C| ensures BitValue(BitMatrix(C)[i]) == C[i] {
      Pow2Mono(BitLength(C[i]), MaxBits(C));
      BitsOfValue(C[i], MaxBits(C));
    }
  }

  /** max() of an empty list fails; otherwise each row is written into a zero matrix of
      width max_bits.  bin(0) is "0", which zfill pads to max_bits zeros, or which numpy
      broadcasts into an empty row when every integer is 0. */
  method IntListToBitMatrix(C: seq<nat>) returns (r: Result<Matrix>)
    ensures |C| == 0 <==> r.Failure?
    ensures r.Failure? ==> r.error == EmptySequence
    ensures r.Success? ==> r.value == BitMatrix(C)
  {
    if |C| == 0 {
      return Failure(EmptySequence);
    }
    var maxBits := MaxBits(C);
    var bitMatrix := new Vec[|C|](_ => Zeros(maxBits));
    for i := 0 to |C|
      invariant forall k :: 0 <= k < i ==> bitMatrix[k] == BitMatrix(C)[k]
    {
      bitMatrix[i] := BitsOf(C[i], maxBits);
    }
    assert bitMatrix[..] == BitMatrix(C);
    return Success(bitMatrix[..]);
  }

  // ---------------------------------------------------------------------------
  // reconstruct_C_bitwise

  /** The rows of a two-dimensional array. */
  function Rows(a: array2<Bit>): (rows: Matrix)
    reads a
    ensures IsMatrix(rows, a.Length0, a.Length1)
  {
    seq(a.Length0, i requires 0 <= i < a.Length0 reads a =>
      seq(a.Length1, j requires 0 <= j < a.Length1 reads a => a[i, j]))
  }

  /** Inverts T over GF(2) and writes T_inv times each bit column of the shares into the
      matching column of a zero matrix.  Neither the number of rows of T nor that of the
      shares is checked: k rows of T are inverted through their leading k x k block, no
      shares fail when max_bits is read, shares of no bits give the k x 0 zero matrix, and
      otherwise the product fails unless there are k shares.  The result is the only bit
      matrix the shares can come from through that block. */
  method ReconstructCBitwise(T: Matrix, shares: Matrix) returns (r: Result<Matrix>)
    requires |T| > 0 ==> IsMatrix(T, |T|, |T[0]|)
    requires |shares| > 0 ==> IsMatrix(shares, |shares|, |shares[0]|)
    ensures r.Failure? ==> r.error == IndexOutOfRange || r.error == SingularMatrix || r.error == ShapeMismatch
    ensures r.Success? <==>
              (|T| == 0 || |T| <= |T[0]|) && Nonsingular(Leading(T, |T|)) &&
              |shares| > 0 && (|shares[0]| == 0 || |shares| == |T|)
    ensures r.Success? ==> IsMatrix(r.value, |T|, |shares[0]|)
    ensures r.Success? ==> forall C :: IsMatrix(C, |T|, |shares[0]|) &&
                                       MatMul(Leading(T, |T|), C, |shares[0]|) == shares
                                       ==> r.value == C
  {
    var width := if |T| == 0 then 0 else |T[0]|;
    var inverse := GaussJordan.InvertLeading(T, width);
    if inverse.Failure? {
      return Failure(inverse.error);
    }
    if |shares| == 0 {
      return Failure(IndexOutOfRange);
    }
    var Tinv := inverse.value;
    var n := |T|;
    var maxBits := |shares[0]|;
    if maxBits == 0 {
      forall X | IsMatrix(X, n, 0) ensures Zero(n, 0) == X {
        NoColumns(X, n);
      }
      return Success(Zero(n, 0));
    }
    if |shares| != n {
      return Failure(ShapeMismatch);
    }
    var L := Leading(T, n);
    var cRec := new Bit[n, maxBits]((_, _) => 0);
    for bit := 0 to maxBits
      invariant forall i, j :: 0 <= i < n && 0 <= j < bit ==>
                  cRec[i, j] == MatVec(Tinv, Column(shares, j))[i]
    {
      var sVec := Column(shares, bit);
      var column := MatVec(Tinv, sVec);
      for i := 0 to n
        invariant forall i', j :: 0 <= i' < n && 0 <= j < bit ==>
                    cRec[i', j] == MatVec(Tinv, Column(shares, j))[i']
        invariant forall i' :: 0 <= i' < i ==> cRec[i', bit] == column[i']
      {
        cRec[i, bit] := column[i];
      }
    }
    var C := Rows(cRec);
    var product := MatMul(Tinv, shares, maxBits);
    forall i | 0 <= i < n ensures C[i] == product[i] {
      forall j | 0 <= j < maxBits ensures C[i][j] == product[i][j] {
        LinCombAt(Tinv[i], shares, maxBits, j);
      }
    }
    forall X | IsMatrix(X, n, maxBits) && MatMul(L, X, maxBits) == shares ensures C == X {
      LeftInverseRecovers(Tinv, L, X, maxBits);
    }
    return Success(C);
  }

  // ---------------------------------------------------------------------------
  // split_message_to_parts

  /** len(bin(m)[2:]): at least one digit, since bin(0) is "0". */
  function DigitCount(m: nat): (n: nat)
    ensures n >= 1 && m < Pow2(n)
  {
    if m == 0 then 1 else BitLength(m)
  }

  /** part_len = ceil(DigitCount(m) / t) for t > 0. */
  function PartLen(m: nat, t: nat): (len: nat)
    requires t > 0
    ensures len >= 1 && len * t >= DigitCount(m)
  {
    SharesGen.BlockLen(DigitCount(m), t)
  }

  /** Field i of part_len bits, s[i * len:(i + 1) * len]. */
  function Field(s: seq<Bit>, t: nat, len: nat, i: nat): (f: Vec)
    requires |s| == t * len && i < t
    ensures |f| == len
  {
    RowBounds(i, t, len);
    s[i * len..(i + 1) * len]
  }

  /** Bit k of field i is bit i * len + k of the string. */
  lemma FieldAt(s: seq<Bit>, t: nat, len: nat, i: nat, k: nat)
    requires |s| == t * len && i < t && k < len
    ensures i * len + k < |s| && Field(s, t, len, i)[k] == s[i * len + k]
  {
    RowBounds(i, t, len);
  }

  /** The t consecutive fields of part_len bits of a bit string of length part_len * t. */
  function Fields(s: seq<Bit>, t: nat, len: nat): (rows: Matrix)
    requires |s| == t * len
    ensures IsMatrix(rows, t, len)
  {
    seq(t, i requires 0 <= i < t => Field(s, t, len, i))
  }

  /** m in binary, zero-filled on the left to part_len * t digits, read as t integers of
      part_len bits each.  t = 0 divides by zero; a negative t gives no parts. */
  function SplitMessageToParts(m: nat, t: int): (r: Result<seq<nat>>)
    ensures t == 0 <==> r.Failure?
    ensures r.Failure? ==> r.error == ZeroDivision
    ensures t < 0 ==> r == Success([])
    ensures t > 0 ==> r.Success? && |r.value| == t &&
                      forall i :: 0 <= i < t ==> r.value[i] < Pow2(PartLen(m, t))
  {
    if t == 0 then Failure(ZeroDivision)
    else if t < 0 then Success([])
    else
      var len := PartLen(m, t);
      var fields := Fields(BitsOf(m, len * t), t, len);
      Success(seq(t, i requires 0 <= i < t => BitValue(fields[i])))
  }

  // ---------------------------------------------------------------------------
  // Reassembly of the integer (lines 447 and 455)

  /** int(''.join(str(b) for row in C_bits for b in row), 2): the rows joined and read as
      one binary number.  With no bits at all the string is empty, and int raises
      ValueError. */
  function JoinRows(rows: Matrix): (r: Result<nat>)
    ensures r.Failure? <==> |Flatten(rows)| == 0
    ensures r.Failure? ==> r.error == InvalidLiteral
    ensures r.Success? ==> r.value < Pow2(|Flatten(rows)|)
  {
    var s := Flatten(rows);
    if |s| == 0 then Failure(InvalidLiteral) else Success(BitValue(s))
  }

  /** The parts written at a fixed width, joined and read as one binary number. */
  function JoinParts(parts: seq<nat>, width: nat): (r: Result<nat>)
  {
    JoinRows(seq(|parts|, i requires 0 <= i < |parts| => BitsOf(parts[i], width)))
  }

  /** The fields of a string joined back are the string. */
  lemma FieldsJoin(s: seq<Bit>, t: nat, len: nat)
    requires |s| == t * len
    ensures Flatten(Fields(s, t, len)) == s
  {
    var rows := Fields(s, t, len);
    FlattenLength(rows, len);
    forall p | 0 <= p < |s| ensures Flatten(rows)[p] == s[p] {
      DivModBelow(p, len, t);
      var i, k := p / len, p % len;
      FlattenAt(rows, len, i, k);
      FieldAt(s, t, len, i, k);
    }
  }

  /** The corrected reassembly: reading the parts back as part_len-bit fields gives m. */
  lemma PartsRoundTrip(m: nat, t: nat)
    requires t > 0
    ensures JoinParts(SplitMessageToParts(m, t).value, PartLen(m, t)) == Success(m)
  {
    var len := PartLen(m, t);
    var s := BitsOf(m, len * t);
    var fields := Fields(s, t, len);
    var parts := SplitMessageToParts(m, t).value;
    var rows := seq(t, i requires 0 <= i < t => BitsOf(parts[i], len));
    forall i | 0 <= i < t ensures rows[i] == fields[i] {
      ValueBitsOf(fields[i]);
    }
    assert rows == fields;
    FieldsJoin(s, t, len);
    Pow2Mono(DigitCount(m), len * t);
    BitsOfValue(m, len * t);
  }

  /** Reading a bit matrix with the width of its widest row is the fixed-width join. */
  lemma JoinBitMatrix(C: seq<nat>)
    ensures JoinRows(BitMatrix(C)) == JoinParts(C, MaxBits(C))
  {
    assert BitMatrix(C) == seq(|C|, i requires 0 <= i < |C| => BitsOf(C[i], MaxBits(C)));
  }

  /** As written the parts are re-read at max_bits, the width of the widest part; that
      gives m back whenever max_bits equals part_len. */
  lemma ReassemblyWhenWidthsAgree(m: nat, t: nat)
    requires t > 0
    requires MaxBits(SplitMessageToParts(m, t).value) == PartLen(m, t)
    ensures JoinRows(BitMatrix(SplitMessageToParts(m, t).value)) == Success(m)
  {
    JoinBitMatrix(SplitMessageToParts(m, t).value);
    PartsRoundTrip(m, t);
  }

  /** m = 5, t = 2: the parts are [1, 1] (fields 01 and 01), max_bits is 1, and the rows
      read back as 11 = 3. */
  lemma ReassemblyAsWrittenLosesBits()
    ensures SplitMessageToParts(5, 2) == Success([1, 1])
    ensures PartLen(5, 2) == 2 && MaxBits([1, 1]) == 1
    ensures JoinRows(BitMatrix([1, 1])) == Success(3)
  {
    SplitFiveIntoTwo();
    JoinOnes();
  }

  lemma SplitFiveIntoTwo()
    ensures PartLen(5, 2) == 2
    ensures SplitMessageToParts(5, 2) == Success([1, 1])
  {
    assert BitLength(5) == 3 by {
      assert BitLength(1) == 1;
      assert BitLength(2) == 2;
    }
    var s := BitsOf(5, 4);
    assert s == [0, 1, 0, 1] by {
      assert BitsOf(1, 2) == [0, 1];
      assert BitsOf(2, 3) == [0, 1, 0];
    }
    var fields := Fields(s, 2, 2);
    assert fields[0] == [0, 1] && fields[1] == [0, 1];
    var field: seq<Bit> := [0, 1];
    assert BitValue(field) == 1 by {
      assert field[..1] == [0];
    }
    var parts := SplitMessageToParts(5, 2).value;
    assert parts[0] == BitValue(fields[0]) == 1;
    assert parts[1] == BitValue(fields[1]) == 1;
    assert parts == [1, 1];
  }

  lemma JoinOnes()
    ensures MaxBits([1, 1]) == 1
    ensures JoinRows(BitMatrix([1, 1])) == Success(3)
  {
    MaxBitsOnes();
    BitMatrixOnes();
    FlattenOnes();
    var joined: seq<Bit> := [1, 1];
    assert BitValue(joined) == 3 by {
      assert joined[..1] == [1];
    }
  }

  lemma MaxBitsOnes()
    ensures MaxBits([1, 1]) == 1
  {
    var parts: seq<nat> := [1, 1];
    assert BitLength(1) == 1;
    assert parts[..1] == [1];
  }

  lemma BitMatrixOnes()
    requires MaxBits([1, 1]) == 1
    ensures BitMatrix([1, 1]) == OnesRows()
  {
    assert BitsOf(1, 1) == [1];
  }

  /** The rows [1] and [1]. */
  function OnesRows(): (rows: Matrix)
    ensures |rows| == 2
  {
    [[1], [1]]
  }

  lemma FlattenOnes()
    ensures Flatten(OnesRows()) == [1, 1]
  {
    var none: Matrix := [];
    var one: Vec := [1];
    FlattenAppend(none, one);
    FlattenAppend([one], one);
    assert none + [one] == [one];
    assert [one] + [one] == OnesRows();
  }

  /** The corrected receiver: each reconstructed row is read as an integer and the
      integers are joined at part_len bits. */
  function ReassembleParts(rows: Matrix, partLen: nat): (r: Result<nat>)
  {
    JoinParts(seq(|rows|, i requires 0 <= i < |rows| => BitValue(rows[i])), partLen)
  }

  /** The corrected receiver inverts the bit matrix of any parts, at any row width. */
  lemma ReassemblePartsOfBitMatrix(m: nat, t: nat)
    requires t > 0
    ensures ReassembleParts(BitMatrix(SplitMessageToParts(m, t).value), PartLen(m, t)) == Success(m)
  {
    var parts := SplitMessageToParts(m, t).value;
    BitMatrixRows(parts);
    var values := seq(|parts|, i requires 0 <= i < |parts| => BitValue(BitMatrix(parts)[i]));
    assert values == parts;
    PartsRoundTrip(m, t);
  }

  /** m = 0, t = 2: both parts are 0, so max_bits is 0 and every bit row is empty.  Read as
      written, the receiver joins them into the empty string and int raises ValueError;
      read at part_len = 1 bit, they give 0. */
  lemma ZeroMessageAsWrittenRaises()
    ensures SplitMessageToParts(0, 2) == Success([0, 0]) && PartLen(0, 2) == 1 && MaxBits([0, 0]) == 0
    ensures JoinRows(BitMatrix([0, 0])) == Failure(InvalidLiteral)
    ensures ReassembleParts(BitMatrix([0, 0]), PartLen(0, 2)) == Success(0)
  {
    SplitZeroIntoTwo();
    var parts: seq<nat> := [0, 0];
    assert parts[..1] == [0];
    assert MaxBits(parts) == 0;
    var none: Matrix := [[], []];
    assert BitMatrix(parts) == none;
    assert Flatten(none[..1]) == [];
    ReassemblePartsOfBitMatrix(0, 2);
  }

  lemma SplitZeroIntoTwo()
    ensures PartLen(0, 2) == 1
    ensures SplitMessageToParts(0, 2) == Success([0, 0])
  {
    assert DigitCount(0) == 1;
    assert SharesGen.BlockLen(1, 2) == 1;
    var s := BitsOf(0, 2);
    assert s == [0, 0] by {
      assert BitsOf(0, 1) == [0];
    }
    var fields := Fields(s, 2, 1);
    assert fields[0] == [0] && fields[1] == [0];
    var field: seq<Bit> := [0];
    assert BitValue(field) == 0 by {
      assert field[..0] == [];
    }
    var parts := SplitMessageToParts(0, 2).value;
    assert parts[0] == BitValue(fields[0]) == 0;
    assert parts[1] == BitValue(fields[1]) == 0;
    assert parts == [0, 0];
  }

  // ---------------------------------------------------------------------------
  // generate_shares_bitwise

  /** The bit matrix of C, the generator for t = |C| extended by the XOR of its rows, and
      one share per extended row.  An empty C fails in max(), |C| = 1 in generate_B_matrix. */
  method GenerateSharesBitwise(C: seq<nat>) returns (r: Result<(Matrix, Matrix)>)
    ensures |C| < 2 <==> r.Failure?
    ensures r.Failure? ==> r.error == (if |C| == 0 then EmptySequence else IndexOutOfRange)
    ensures r.Success? ==>
              r.value.0 == Extend(SharesGen.GeneratorMatrix(|C|), |C|) &&
              r.value.1 == MatMul(r.value.0, BitMatrix(C), MaxBits(C))
  {
    var t := |C|;
    var bits := IntListToBitMatrix(C);
    if bits.Failure? {
      return Failure(bits.error);
    }
    var generated := GenerateBMatrix(t);
    if generated.Failure? {
      return Failure(generated.error);
    }
    var cBits := bits.value;
    var shares, Bext := EncAndDec.GenerateShares(cBits, generated.value);
    return Success((Bext, shares));
  }

  // ---------------------------------------------------------------------------
  // The integer sharing round: parts, shares, t chosen shares, bit rows, integer

  /** The corrected receiver: it refuses a number of shares other than t, as the Essentials
      demonstration does, and reads the parts back at part_len bits.  Any t share indices
      naming distinct shares (negative ones count from the end) then recover m exactly
      when the generator is nonsingular. */
  method ShareAndRecoverInt(m: nat, t: int, idx: seq<int>) returns (r: Result<nat>)
    ensures t < 2 ==> r.Failure?
    ensures t >= 2 && |idx| != t ==> r == Failure(WrongShareCount)
    ensures r.Success? ==> r.value == m
    ensures t >= 2 && |idx| == t && InPyRange(idx, t + 1) && Distinct(PyIndices(idx, t + 1)) ==>
              (r.Success? <==> Nonsingular(SharesGen.GeneratorMatrix(t)))
  {
    var split := SplitMessageToParts(m, t);
    if split.Failure? {
      return Failure(split.error);
    }
    var parts := split.value;
    var generated := GenerateSharesBitwise(parts);
    if generated.Failure? {
      return Failure(generated.error);
    }
    var Bext, shares := generated.value.0, generated.value.1;
    if |idx| != t {
      return Failure(WrongShareCount);
    }
    if !InPyRange(idx, t + 1) {
      return Failure(IndexOutOfRange);
    }
    r := RecoverInt(m, t, Bext, shares, idx);
  }

  /** The rows of B_extended and the shares named by the indices go to reconstruct_C_bitwise,
      and the recovered bit rows are read back as parts of part_len bits. */
  method RecoverInt(m: nat, t: nat, Bext: Matrix, shares: Matrix, idx: seq<int>) returns (r: Result<nat>)
    requires t >= 2 && |idx| == t && InPyRange(idx, t + 1)
    requires Bext == Extend(SharesGen.GeneratorMatrix(t), t)
    requires shares == MatMul(Bext, BitMatrix(SplitMessageToParts(m, t).value),
                              MaxBits(SplitMessageToParts(m, t).value))
    ensures r.Success? ==> r.value == m
    ensures Distinct(PyIndices(idx, t + 1)) ==>
              (r.Success? <==> Nonsingular(SharesGen.GeneratorMatrix(t)))
  {
    var parts := SplitMessageToParts(m, t).value;
    var B := SharesGen.GeneratorMatrix(t);
    var cBits := BitMatrix(parts);
    var w := MaxBits(parts);
    var ix := PyIndices(idx, t + 1);
    var T := Select(Bext, ix);
    var received := Select(shares, ix);
    MatMulSelect(Bext, ix, cBits, w);
    LeadingAll(T, t);
    if Distinct(ix) {
      SubsetNonsingularIff(B, ix);
    }
    var rec := ReconstructCBitwise(T, received);
    if rec.Failure? {
      return Failure(rec.error);
    }
    ReassemblePartsOfBitMatrix(m, t);
    r := ReassembleParts(rec.value, PartLen(m, t));
  }

  // ---------------------------------------------------------------------------
  // reconstruct_and_decrypt as written: one share too few

  /** Row 1 of the extended generator for t = 2. */
  function SecondGeneratorRow(): (rows: Matrix)
    ensures IsMatrix(rows, 1, 2)
  {
    [[1, 1]]
  }

  /** A single share of a single zero bit. */
  function ZeroShare(): (rows: Matrix)
    ensures IsMatrix(rows, 1, 1)
  {
    [[0]]
  }

  /** The 1 x 1 matrix [1]. */
  function OneByOne(): (rows: Matrix)
    ensures IsMatrix(rows, 1, 1)
  {
    [[1]]
  }

  /** reconstruct_and_decrypt never counts the received indices.  For m = 5 and t = 2 the
      parts are [1, 1]; with the single index 1 the receiver hands the row [1, 1] and the
      share [0] to reconstruct_C_bitwise, whose leading 1 x 1 block is invertible, so it
      succeeds with the only solution [[0]], and the receiver reads 0 instead of 5. */
  lemma OneShareRecoversWrongValue()
    ensures SplitMessageToParts(5, 2) == Success([1, 1]) && PartLen(5, 2) == 2 && MaxBits([1, 1]) == 1
    ensures Select(Extend(SharesGen.GeneratorMatrix(2), 2), [1]) == SecondGeneratorRow()
    ensures Select(MatMul(Extend(SharesGen.GeneratorMatrix(2), 2), BitMatrix([1, 1]), 1), [1]) == ZeroShare()
    ensures Nonsingular(Leading(SecondGeneratorRow(), 1))
    ensures MatMul(Leading(SecondGeneratorRow(), 1), ZeroShare(), 1) == ZeroShare()
    ensures JoinRows(ZeroShare()) == Success(0) && ReassembleParts(ZeroShare(), PartLen(5, 2)) == Success(0)
  {
    SplitFiveIntoTwo();
    MaxBitsOnes();
    BitMatrixOnes();
    SecondRowOfExtended();
    SecondShareIsZero();
    LeadingOfSecondRow();
    OneByOneSolves();
    ZeroShareReadsZero();
  }

  lemma SecondRowOfExtended()
    ensures Select(Extend(SharesGen.GeneratorMatrix(2), 2), [1]) == SecondGeneratorRow()
  {
    var G := SharesGen.GeneratorMatrix(2);
    assert Extend(G, 2)[1] == G[1];
  }

  lemma SecondShareIsZero()
    ensures Select(MatMul(Extend(SharesGen.GeneratorMatrix(2), 2), OnesRows(), 1), [1]) == ZeroShare()
  {
    var E := Extend(SharesGen.GeneratorMatrix(2), 2);
    SecondRowOfExtended();
    MatMulSelect(E, [1], OnesRows(), 1);
    var c: seq<Bit> := [1, 1];
    assert c[..1] == [1];
    assert LinComb(c[..1], OnesRows()[..1], 1) == [1];
    assert LinComb(c, OnesRows(), 1) == [0];
  }

  lemma LeadingOfSecondRow()
    ensures Leading(SecondGeneratorRow(), 1) == OneByOne()
  {
    var row: seq<Bit> := [1, 1];
    assert row[..1] == [1];
  }

  lemma OneByOneSolves()
    ensures Nonsingular(OneByOne())
    ensures MatMul(OneByOne(), ZeroShare(), 1) == ZeroShare()
  {
    var c: seq<Bit> := [1];
    assert c[..0] == [];
    assert LinComb(c, OneByOne(), 1) == [1];
    assert LinComb(c, ZeroShare(), 1) == [0];
    assert Unit(1, 0) == c;
    assert Identity(1) == OneByOne();
    LeftInverseNonsingular(OneByOne(), OneByOne());
  }

  lemma ZeroShareReadsZero()
    ensures JoinRows(ZeroShare()) == Success(0) && ReassembleParts(ZeroShare(), 2) == Success(0)
  {
    var zero: seq<Bit> := [0];
    assert zero[..0] == [];
    assert Flatten(ZeroShare()) == zero;
    var twoZeros: seq<Bit> := [0, 0];
    assert twoZeros[..1] == zero;
    assert BitsOf(0, 2) == twoZeros;
    assert Flatten([twoZeros]) == twoZeros;
  }
}
