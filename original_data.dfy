/** Original_data_recovery/original_data.py: the sink's handling of the received share
    list before decryption.  The generator inverse it uses is
    GaussJordan.InvertKeepingDiagonal. */
module OriginalData {
  import opened Gf2
  import opened Results
  import opened Slices
  import InvertibleMatrix
  import EncAndDec
  import GaussJordan

  /** A received share: the index of the generator row it was made with, and its bits. */
  datatype Packet = Packet(index: int, share: Vec)

  /** The caller's list of received items, which the recovery shortens in place. */
  class ShareList {
    var items: seq<Packet>

    constructor(items: seq<Packet>)
      ensures this.items == items
    {
      this.items := items;
    }
  }

  // ---------------------------------------------------------------------------
  // sorted(..., key=lambda x: x["index"])

  predicate SortedByIndex(s: seq<Packet>)
  {
    forall p, q :: 0 <= p < q < |s| ==> s[p].index <= s[q].index
  }

  /** x placed after every element whose index is not greater: the stable insertion step. */
  function Insert(x: Packet, s: seq<Packet>): (r: seq<Packet>)
    ensures multiset(r) == multiset(s) + multiset{x}
    decreases |s|
  {
    if |s| == 0 then [x]
    else if x.index < s[0].index then [x] + s
    else
      assert s == [s[0]] + s[1..];
      [s[0]] + Insert(x, s[1..])
  }

  /** Inserting into a sorted list keeps it sorted. */
  lemma {:induction false} InsertSorted(x: Packet, s: seq<Packet>)
    requires SortedByIndex(s)
    ensures SortedByIndex(Insert(x, s))
    decreases |s|
  {
    if |s| > 0 && x.index >= s[0].index {
      var rest := Insert(x, s[1..]);
      InsertSorted(x, s[1..]);
      forall k | 0 <= k < |rest| ensures s[0].index <= rest[k].index {
        assert rest[k] in multiset(rest);
        assert rest[k] in multiset(s[1..]) + multiset{x};
        if rest[k] != x {
          assert rest[k] in s[1..];
        }
      }
    }
  }

  /** The packets sorted by index, by insertion (Python's sorted with key index). */
  function SortByIndex(s: seq<Packet>): (r: seq<Packet>)
    ensures multiset(r) == multiset(s)
    decreases |s|
  {
    if |s| == 0 then []
    else
      var n := |s| - 1;
      assert s == s[..n] + [s[n]];
      Insert(s[n], SortByIndex(s[..n]))
  }

  /** The sort puts the packets in ascending index order. */
  lemma {:induction false} SortByIndexSorted(s: seq<Packet>)
    ensures SortedByIndex(SortByIndex(s))
    decreases |s|
  {
    if |s| > 0 {
      var n := |s| - 1;
      SortByIndexSorted(s[..n]);
      InsertSorted(s[n], SortByIndex(s[..n]));
    }
  }

  // ---------------------------------------------------------------------------
  // recover_original_data, up to the call into decryption

  /** t is one less than the number of routes of the source.  Once the generator for t is
      accepted, a list longer than t+1 loses its last item, which is what the call returns
      (nothing when the list was not longer); the first t shares are sorted and solved
      against the transposed generator, and that solution is not used. */
  method RecoverOriginalData(shares: ShareList, sourceId: int, routingTable: map<int, seq<seq<int>>>)
    returns (r: Result<Option<Packet>>)
    modifies shares
    ensures sourceId !in routingTable ==> r == Failure(NotFound) && shares.items == old(shares.items)
    ensures sourceId in routingTable ==>
              var t := |routingTable[sourceId]| - 1;
              var n := |old(shares.items)|;
              (t < 2 || !Nonsingular(EncAndDec.GeneratorMatrix(t)) ==>
                 r.Failure? && shares.items == old(shares.items)) &&
              (t >= 2 && Nonsingular(EncAndDec.GeneratorMatrix(t)) ==>
                 shares.items == (if n > t + 1 then old(shares.items)[..n - 1] else old(shares.items))) &&
              (r.Success? ==>
                 t >= 2 && n >= t &&
                 r.value == if n > t + 1 then Some(old(shares.items)[n - 1]) else None)
    ensures sourceId in routingTable ==>
              var t := |routingTable[sourceId]| - 1;
              var n := |old(shares.items)|;
              t >= 2 && Nonsingular(EncAndDec.GeneratorMatrix(t)) ==>
                var B := EncAndDec.GeneratorMatrix(t);
                (r.Success? <==>
                   RowsAgree(FirstShares(shares.items, t)) && Nonsingular(Transpose(B, t)) && n >= t) &&
                (!RowsAgree(FirstShares(shares.items, t)) ==> r == Failure(ShapeMismatch))
  {
    if sourceId !in routingTable {
      return Failure(NotFound);
    }
    var maxNodes := |routingTable[sourceId]|;
    r := RecoverForThreshold(shares, maxNodes - 1);
  }

  /** The recovery once t is known: the generator for t, the pop of the extra item, and the
      solve of the first t shares against the transposed generator. */
  method RecoverForThreshold(shares: ShareList, t: int) returns (r: Result<Option<Packet>>)
    modifies shares
    ensures t < 2 || !Nonsingular(EncAndDec.GeneratorMatrix(t)) ==>
              r.Failure? && shares.items == old(shares.items)
    ensures t >= 2 && Nonsingular(EncAndDec.GeneratorMatrix(t)) ==>
              var n := |old(shares.items)|;
              shares.items == (if n > t + 1 then old(shares.items)[..n - 1] else old(shares.items))
    ensures r.Success? ==>
              var n := |old(shares.items)|;
              t >= 2 && n >= t &&
              r.value == if n > t + 1 then Some(old(shares.items)[n - 1]) else None
    ensures t >= 2 && Nonsingular(EncAndDec.GeneratorMatrix(t)) ==>
              (r.Success? <==>
                 RowsAgree(FirstShares(shares.items, t)) &&
                 Nonsingular(Transpose(EncAndDec.GeneratorMatrix(t), t)) &&
                 |old(shares.items)| >= t)
    ensures t >= 2 && Nonsingular(EncAndDec.GeneratorMatrix(t)) && !RowsAgree(FirstShares(shares.items, t)) ==>
              r == Failure(ShapeMismatch)
  {
    var generated := InvertibleMatrix.GenerateInvertibleCyclicMatrix(t);
    if generated.Failure? {
      return Failure(generated.error);
    }
    var B := generated.value;
    var BT := Transpose(B, t);
    assert |BT| == t;
    var temp := PopExtra(shares, t);
    assert |shares.items| >= t <==> |old(shares.items)| >= t;
    var solved := SolveFirstShares(shares.items, BT);
    if solved.Failure? {
      return Failure(solved.error);
    }
    assert |old(shares.items)| >= t;
    return Success(temp);
  }

  /** A list longer than t+1 loses its last item, which is returned. */
  method PopExtra(shares: ShareList, t: nat) returns (temp: Option<Packet>)
    modifies shares
    ensures var n := |old(shares.items)|;
            shares.items == (if n > t + 1 then old(shares.items)[..n - 1] else old(shares.items)) &&
            temp == if n > t + 1 then Some(old(shares.items)[n - 1]) else None
  {
    temp := None;
    if |shares.items| > t + 1 {
      temp := Some(shares.items[|shares.items| - 1]);
      shares.items := shares.items[..|shares.items| - 1];
    }
  }

  /** The bits of the first t packets, sorted by index: the rows of S. */
  function FirstShares(items: seq<Packet>, t: nat): (S: seq<Vec>)
    ensures |S| == if |items| < t then |items| else t
  {
    var sorted := SortByIndex(PySlice(items, 0, t));
    assert |sorted| == |multiset(sorted)| == |PySlice(items, 0, t)|;
    seq(|sorted|, i requires 0 <= i < |sorted| => sorted[i].share)
  }

  /** numpy builds an array from the rows only when they all have one width. */
  predicate RowsAgree(S: seq<Vec>)
  {
    |S| == 0 || Uniform(S, |S[0]|)
  }

  /** The first t = |BT| shares, sorted by index, solved against BT.  Rows of different
      widths fail first (building the array), then a singular BT (the inverse), then fewer
      than t rows (the product).  A success is the one C with BT C = S. */
  method SolveFirstShares(items: seq<Packet>, BT: Matrix) returns (r: Result<Matrix>)
    requires |BT| >= 1 && IsMatrix(BT, |BT|, |BT|)
    ensures var S := FirstShares(items, |BT|);
            r.Success? <==> RowsAgree(S) && Nonsingular(BT) && |items| >= |BT|
    ensures !RowsAgree(FirstShares(items, |BT|)) ==> r == Failure(ShapeMismatch)
    ensures RowsAgree(FirstShares(items, |BT|)) && !Nonsingular(BT) ==> r == Failure(SingularMatrix)
    ensures r.Failure? ==> r.error == ShapeMismatch || r.error == SingularMatrix
    ensures r.Success? ==>
              var S := FirstShares(items, |BT|);
              var w := |S[0]|;
              IsMatrix(r.value, |BT|, w) &&
              forall C :: IsMatrix(C, |BT|, w) && MatMul(BT, C, w) == S ==> r.value == C
  {
    var t := |BT|;
    var S := FirstShares(items, t);
    if |S| > 0 && !Uniform(S, |S[0]|) {
      return Failure(ShapeMismatch);
    }
    var inverse := GaussJordan.InvertKeepingDiagonal(BT);
    if inverse.Failure? {
      return Failure(inverse.error);
    }
    if |S| != t {
      return Failure(ShapeMismatch);
    }
    var w := |S[0]|;
    var cMatrix := MatMul(inverse.value, S, w);
    forall C | IsMatrix(C, t, w) && MatMul(BT, C, w) == S
      ensures cMatrix == C
    {
      LeftInverseRecovers(inverse.value, BT, C, w);
    }
    return Success(cMatrix);
  }
}
