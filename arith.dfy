/** Facts about integer multiplication and division used for index arithmetic. */
module Arith {

  function Pow2(i: nat): (p: nat)
    ensures p > 0
  {
    if i == 0 then 1 else 2 * Pow2(i - 1)
  }

  lemma MulMono(a: nat, b: nat, w: nat)
    requires a <= b
    ensures a * w <= b * w
  {
  }

  lemma {:induction false} MulAtLeast(d: nat, w: nat)
    requires d >= 1
    ensures d * w >= w
  {
    if d > 1 {
      MulAtLeast(d - 1, w);
      assert d * w == (d - 1) * w + w;
    }
  }

  lemma MulGap(a: int, b: int, w: int)
    requires w > 0
    ensures a > b ==> a * w >= b * w + w
  {
    if a > b {
      assert a * w == b * w + (a - b) * w;
      MulAtLeast(a - b, w);
    }
  }

  /** p = q w + r with 0 <= r < w determines the quotient and the remainder. */
  lemma DivModUnique(p: int, w: int, q: int, r: int)
    requires 0 < w && 0 <= r < w && p == q * w + r
    ensures p / w == q && p % w == r
  {
    MulGap(p / w, q, w);
    MulGap(q, p / w, w);
  }

  /** Shifting right by one and then dividing by p is dividing by 2 p. */
  lemma DivHalf(b: nat, p: nat)
    requires p > 0
    ensures (b / 2) / p == b / (2 * p)
  {
    var q, r := b / (2 * p), b % (2 * p);
    assert b == (2 * p) * q + r;
    assert b / 2 == p * q + r / 2;
    DivModUnique(b / 2, p, q, r / 2);
  }

  /** An index below t w splits into a row below t and a column below w. */
  lemma DivModBelow(p: nat, w: nat, t: nat)
    requires p < t * w
    ensures w > 0 && p / w < t && p % w < w && p == (p / w) * w + p % w
  {
    if p / w >= t {
      MulMono(t, p / w, w);
    }
  }

  /** Row i < t of width w occupies [i w, i w + w), which lies inside [0, t w). */
  lemma RowBounds(i: nat, t: nat, w: nat)
    requires i < t
    ensures 0 <= i * w && (i + 1) * w == i * w + w && (i + 1) * w <= t * w
  {
    MulMono(i + 1, t, w);
  }
}
