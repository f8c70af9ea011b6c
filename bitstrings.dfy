/** Unsigned integers as big-endian bit strings: the value of a bit string, and the
    fixed-width string of a value (bin(c)[2:].zfill(m), or m shifts and masks). */
module BitStrings {
  import opened Gf2
  import opened Arith

  /** The value of a big-endian bit string, as int(bits, 2) reads it. */
  function BitValue(bits: seq<Bit>): (v: nat)
    ensures v < Pow2(|bits|)
    decreases |bits|
  {
    if |bits| == 0 then 0 else 2 * BitValue(bits[..|bits| - 1]) + bits[|bits| - 1]
  }

  /** The m low bits of b, most significant first. */
  function BitsOf(b: nat, m: nat): (bits: seq<Bit>)
    ensures |bits| == m
  {
    if m == 0 then [] else BitsOf(b / 2, m - 1) + [b % 2]
  }

  /** Shifting a value left by one and or-ing a bit appends the bit to its string. */
  lemma BitValueAppend(bits: seq<Bit>, b: Bit)
    ensures BitValue(bits + [b]) == 2 * BitValue(bits) + b
  {
    assert (bits + [b])[..|bits|] == bits;
  }

  /** Reading one more bit of a prefix doubles the value and adds the bit. */
  lemma BitValuePrefix(bits: seq<Bit>, j: nat)
    requires j < |bits|
    ensures BitValue(bits[..j + 1]) == 2 * BitValue(bits[..j]) + bits[j]
  {
    assert bits[..j + 1] == bits[..j] + [bits[j]];
    BitValueAppend(bits[..j], bits[j]);
  }

  /** Bit j of the m-bit string of b is (b >> (m - 1 - j)) & 1. */
  lemma {:induction false} BitsOfAt(b: nat, m: nat, j: nat)
    requires j < m
    ensures BitsOf(b, m)[j] == (b / Pow2(m - 1 - j)) % 2
    decreases m
  {
    if j < m - 1 {
      BitsOfAt(b / 2, m - 1, j);
      DivHalf(b, Pow2(m - 2 - j));
    }
  }

  /** Reading the m-bit string of b < 2^m gives b back. */
  lemma {:induction false} BitsOfValue(b: nat, m: nat)
    requires b < Pow2(m)
    ensures BitValue(BitsOf(b, m)) == b
    decreases m
  {
    if m > 0 {
      BitsOfValue(b / 2, m - 1);
      assert BitsOf(b, m)[..m - 1] == BitsOf(b / 2, m - 1);
    }
  }

  /** Writing the value of a bit string at its own width gives the string back. */
  lemma {:induction false} ValueBitsOf(bits: seq<Bit>)
    ensures BitsOf(BitValue(bits), |bits|) == bits
    decreases |bits|
  {
    if |bits| > 0 {
      var n := |bits| - 1;
      var v := BitValue(bits[..n]);
      ValueBitsOf(bits[..n]);
      DivModUnique(2 * v + bits[n], 2, v, bits[n]);
      assert bits == bits[..n] + [bits[n]];
    }
  }
}
