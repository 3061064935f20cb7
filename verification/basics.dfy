/** Small shared vocabulary: optional values, results and bytes. */
module Basics {

  /** A value that may be absent (Python's `None`). */
  datatype Option<+T> = None | Some(value: T)

  /** The outcome of an operation that either produces a value or fails with an error. */
  datatype Result<+T, +E> = Ok(value: T) | Err(error: E)

  /** An octet of an HTTP response body. */
  newtype byte = b: int | 0 <= b < 256

  /** Concatenation of a sequence of sequences, in order. */
  function Flatten<T>(ss: seq<seq<T>>): seq<T>
  {
    if |ss| == 0 then [] else ss[0] + Flatten(ss[1..])
  }

  lemma {:induction false} FlattenAppend<T>(ss: seq<seq<T>>, s: seq<T>)
    ensures Flatten(ss + [s]) == Flatten(ss) + s
  {
    if |ss| == 0 {
      assert ss + [s] == [s];
    } else {
      assert (ss + [s])[1..] == ss[1..] + [s];
      FlattenAppend(ss[1..], s);
    }
  }

  /** Where the `i`-th element of `Flatten(ss)` comes from: part `j`, position `m`. */
  function FlattenLocate<T>(ss: seq<seq<T>>, i: nat): (p: (nat, nat))
    requires i < |Flatten(ss)|
    ensures p.0 < |ss| && p.1 < |ss[p.0]| && ss[p.0][p.1] == Flatten(ss)[i]
    decreases |ss|
  {
    if i < |ss[0]| then (0, i)
    else
      var q := FlattenLocate(ss[1..], i - |ss[0]|);
      (q.0 + 1, q.1)
  }

  /** 2 to the power `k`, the backoff delay in seconds after attempt `k`. */
  function Pow2(k: nat): (r: nat)
    ensures r >= 1
  {
    if k == 0 then 1 else 2 * Pow2(k - 1)
  }
}
