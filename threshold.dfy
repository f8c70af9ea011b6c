/** The (t, t+1) threshold property of the shares.  The generator B (t x t) is
    extended with one more row, the XOR of all its rows; any t distinct rows of
    the extension are then nonsingular exactly when B is, so any t of the t+1
    shares determine the blocks. */
module Threshold {
  import opened Gf2

  /** B with the XOR of its rows appended (numpy vstack of B and bitwise_xor.reduce(B, axis=0)). */
  function Extend(B: Matrix, w: nat): (E: Matrix)
    requires IsMatrix(B, |B|, w)
    ensures IsMatrix(E, |B| + 1, w) && E[..|B|] == B
  {
    B + [RowXor(B, w)]
  }

  predicate Distinct(idx: seq<nat>)
  {
    forall p, q :: 0 <= p < q < |idx| ==> idx[p] != idx[q]
  }

  predicate Below(idx: seq<nat>, bound: nat)
  {
    forall p :: 0 <= p < |idx| ==> idx[p] < bound
  }

  // ---------------------------------------------------------------------------
  // The extra row is linear

  /** The extended generator times X is the product B X, extended. */
  lemma {:induction false} ExtendMatMul(B: Matrix, X: Matrix, w: nat)
    requires IsMatrix(B, |B|, |X|) && IsMatrix(X, |X|, w)
    ensures MatMul(Extend(B, |X|), X, w) == Extend(MatMul(B, X, w), w)
  {
    RowXorLinComb(B, X, w);
  }

  /** Combining X with the XOR of B's rows is the XOR of the rows of B X. */
  lemma {:induction false} RowXorLinComb(B: Matrix, X: Matrix, w: nat)
    requires IsMatrix(B, |B|, |X|) && IsMatrix(X, |X|, w)
    ensures LinComb(RowXor(B, |X|), X, w) == RowXor(MatMul(B, X, w), w)
    decreases |B|
  {
    if |B| == 0 {
      MatMulZeroRight(Zero(1, |X|)[..0], |X|, w);
      assert LinComb(Zeros(|X|), X, w) == Zeros(w) by {
        forall j | 0 <= j < w ensures LinComb(Zeros(|X|), X, w)[j] == 0 {
          LinCombAt(Zeros(|X|), X, w, j);
          DotZerosLeft(Column(X, j));
        }
      }
    } else {
      var n := |B| - 1;
      RowXorLinComb(B[..n], X, w);
      LinCombAdd(RowXor(B[..n], |X|), B[n], X, w);
      assert MatMul(B, X, w)[..n] == MatMul(B[..n], X, w);
    }
  }

  // ---------------------------------------------------------------------------
  // Counting indices

  function Range(m: nat): set<nat>
  {
    if m == 0 then {} else Range(m - 1) + {m - 1}
  }

  lemma {:induction false} RangeFacts(m: nat)
    ensures forall k: nat :: k in Range(m) <==> k < m
    ensures |Range(m)| == m
  {
    if m > 0 {
      RangeFacts(m - 1);
      assert Range(m) == Range(m - 1) + {m - 1};
      assert m - 1 !in Range(m - 1);
      assert |Range(m - 1) + {m - 1}| == |Range(m - 1)| + 1;
    }
  }

  function Elements(idx: seq<nat>): set<nat>
  {
    set k | k in idx
  }

  lemma {:induction false} SubsetCard<T>(a: set<T>, b: set<T>)
    requires a <= b
    ensures |a| <= |b|
    decreases |b|
  {
    if b != {} {
      var x :| x in b;
      SubsetCard(a - {x}, b - {x});
    }
  }

  lemma {:induction false} DistinctCard(idx: seq<nat>)
    requires Distinct(idx)
    ensures |Elements(idx)| == |idx|
    decreases |idx|
  {
    if |idx| > 0 {
      var n := |idx| - 1;
      DistinctCard(idx[..n]);
      assert idx == idx[..n] + [idx[n]];
      assert Elements(idx) == Elements(idx[..n]) + {idx[n]};
      assert idx[n] !in Elements(idx[..n]);
    }
  }

  /** t distinct indices below t+1 miss at most one value. */
  lemma AtMostOneMissing(idx: seq<nat>, t: nat)
    requires |idx| == t && Distinct(idx) && Below(idx, t + 1)
    ensures forall a, b :: 0 <= a < b <= t ==> a in idx || b in idx
  {
    forall a, b | 0 <= a < b <= t ensures a in idx || b in idx {
      if a !in idx && b !in idx {
        var s := Elements(idx);
        var rest := Range(t + 1) - {a, b};
        RangeFacts(t + 1);
        assert |rest| == t - 1 by {
          assert rest + {a, b} == Range(t + 1);
        }
        assert s <= rest by {
          forall k | k in s ensures k in rest {
            var p :| 0 <= p < |idx| && idx[p] == k;
          }
        }
        DistinctCard(idx);
        SubsetCard(s, rest);
      }
    }
  }

  // ---------------------------------------------------------------------------
  // Any t rows of the extension

  /** If the chosen rows of Extend(Y) are all zero, so is Y. */
  lemma ChosenRowsZero(Y: Matrix, idx: seq<nat>, w: nat)
    requires IsMatrix(Y, |Y|, w) && |idx| == |Y| && Distinct(idx) && Below(idx, |Y| + 1)
    requires Select(Extend(Y, w), idx) == Zero(|Y|, w)
    ensures Y == Zero(|Y|, w)
  {
    var t := |Y|;
    var E := Extend(Y, w);
    AtMostOneMissing(idx, t);
    forall k | 0 <= k <= t && k in idx ensures E[k] == Zeros(w) {
      var p :| 0 <= p < |idx| && idx[p] == k;
      assert Select(E, idx)[p] == E[k];
    }
    if m :| 0 <= m < t && m !in idx {
      assert forall k :: 0 <= k < t && k != m ==> Y[k] == E[k] == Zeros(w);
      RowXorSingle(Y, w, m);
      assert Y[m] == E[t];
    }
    assert forall k :: 0 <= k < t ==> Y[k] == E[k];
  }

  /** When B is nonsingular, any t distinct rows of Extend(B) form a nonsingular matrix. */
  lemma SubsetNonsingular(B: Matrix, idx: seq<nat>)
    requires Nonsingular(B) && |idx| == |B| && Distinct(idx) && Below(idx, |B| + 1)
    ensures Nonsingular(Select(Extend(B, |B|), idx))
  {
    var t := |B|;
    var T := Select(Extend(B, t), idx);
    forall X | IsMatrix(X, t, 1) && MatMul(T, X, 1) == Zero(t, 1) ensures X == Zero(t, 1) {
      var Y := MatMul(B, X, 1);
      MatMulSelect(Extend(B, t), idx, X, 1);
      ExtendMatMul(B, X, 1);
      ChosenRowsZero(Y, idx, 1);
    }
  }

  /** When B is singular, so is every choice of t rows of Extend(B). */
  lemma SubsetSingular(B: Matrix, idx: seq<nat>)
    requires IsMatrix(B, |B|, |B|) && !Nonsingular(B) && |idx| == |B| && Below(idx, |B| + 1)
    ensures !Nonsingular(Select(Extend(B, |B|), idx))
  {
    var t := |B|;
    var X :| IsMatrix(X, t, 1) && MatMul(B, X, 1) == Zero(t, 1) && X != Zero(t, 1);
    MatMulSelect(Extend(B, t), idx, X, 1);
    ExtendMatMul(B, X, 1);
    RowXorZero(Zero(t, 1), 1);
    assert Extend(Zero(t, 1), 1) == Zero(t + 1, 1);
    assert KernelWitness(Select(Extend(B, t), idx), X);
  }

  /** The threshold property: t chosen rows of the extension are nonsingular iff B is. */
  lemma SubsetNonsingularIff(B: Matrix, idx: seq<nat>)
    requires IsMatrix(B, |B|, |B|) && |idx| == |B| && Distinct(idx) && Below(idx, |B| + 1)
    ensures Nonsingular(Select(Extend(B, |B|), idx)) <==> Nonsingular(B)
  {
    if Nonsingular(B) {
      SubsetNonsingular(B, idx);
    } else {
      SubsetSingular(B, idx);
    }
  }
}
