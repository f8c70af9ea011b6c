/** Python list slicing and concatenation of equal-length rows. */
module Slices {
  import opened Arith

  /** The Python slice s[i:j] for non-negative bounds: both are clamped to the length. */
  function PySlice<T>(s: seq<T>, i: nat, j: nat): (r: seq<T>)
    ensures |r| == if j <= i || |s| <= i then 0 else (if j < |s| then j else |s|) - i
    ensures forall k :: 0 <= k < |r| ==> r[k] == s[i + k]
  {
    var hi := if j < |s| then j else |s|;
    if hi <= i then [] else s[i..hi]
  }

  /** Every index is one Python accepts for a list of length n: -n <= i < n. */
  predicate InPyRange(idx: seq<int>, n: nat)
  {
    forall k :: 0 <= k < |idx| ==> -(n as int) <= idx[k] < n
  }

  /** The positions that Python indices of a list of length n refer to: a negative index
      counts from the end. */
  function PyIndices(idx: seq<int>, n: nat): (r: seq<nat>)
    requires InPyRange(idx, n)
    ensures |r| == |idx|
    ensures forall k :: 0 <= k < |r| ==> r[k] < n && r[k] == if idx[k] < 0 then idx[k] + n else idx[k]
  {
    seq(|idx|, k requires 0 <= k < |idx| => if idx[k] < 0 then idx[k] + n else idx[k])
  }

  /** The rows joined end to end (np.concatenate of a list of 1-d arrays). */
  function Flatten<T>(rows: seq<seq<T>>): seq<T>
    decreases |rows|
  {
    if |rows| == 0 then [] else Flatten(rows[..|rows| - 1]) + rows[|rows| - 1]
  }

  predicate Uniform<T>(rows: seq<seq<T>>, w: nat)
  {
    forall i :: 0 <= i < |rows| ==> |rows[i]| == w
  }

  lemma {:induction false} FlattenLength<T>(rows: seq<seq<T>>, w: nat)
    requires Uniform(rows, w)
    ensures |Flatten(rows)| == |rows| * w
    decreases |rows|
  {
    if |rows| > 0 {
      var n := |rows| - 1;
      FlattenLength(rows[..n], w);
      assert |rows| * w == n * w + w;
    }
  }

  /** Entry k of row i sits at position i w + k of the joined rows. */
  lemma {:induction false} FlattenAt<T>(rows: seq<seq<T>>, w: nat, i: nat, k: nat)
    requires Uniform(rows, w) && i < |rows| && k < w
    ensures i * w + k < |Flatten(rows)| && Flatten(rows)[i * w + k] == rows[i][k]
    decreases |rows|
  {
    var n := |rows| - 1;
    FlattenLength(rows[..n], w);
    FlattenLength(rows, w);
    if i < n {
      MulMono(i + 1, n, w);
      FlattenAt(rows[..n], w, i, k);
    }
  }

  /** Appending a row appends its entries. */
  lemma {:induction false} FlattenAppend<T>(rows: seq<seq<T>>, row: seq<T>)
    ensures Flatten(rows + [row]) == Flatten(rows) + row
  {
    assert (rows + [row])[..|rows|] == rows;
  }
}
