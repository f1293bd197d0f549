/** The shared buffer `SumSeq`: the vector being summed, the queue of
    front-half indices still to combine in the current round, and the saved
    queue it is refilled from after each halving. */
module SumSeqs {

  /** [lo, lo + 1, ..., hi - 1] */
  function Range(lo: int, hi: int): (r: seq<int>)
    requires lo <= hi
    ensures |r| == hi - lo
    ensures forall i :: 0 <= i < |r| ==> r[i] == lo + i
  {
    seq(hi - lo, i requires 0 <= i < hi - lo => lo + i)
  }

  /** `resize(n)` of a vector or deque of ints: truncate, or pad with zeros. */
  function Resized(s: seq<int>, n: nat): (r: seq<int>)
    ensures |r| == n
    ensures n <= |s| ==> r == s[..n]
    ensures forall i :: |s| <= i < n ==> r[i] == 0
  {
    if n <= |s| then s[..n] else s + seq(n - |s|, _ => 0)
  }

  class SumSeq {
    var vec: seq<int>       // VectorToSum
    var indices: seq<int>   // Indices, front first
    var indices2: seq<int>  // Indices2, the saved initial queue
    var vecLenOrig: int     // VecLen_orig

    /** The buffer invariant: the vector never grows past its original
        length, the saved queue is 0 .. orig/2 - 1, and the live queue is
        the not yet claimed tail of 0 .. |vec|/2 - 1, so every queued index i
        pairs with i + |vec|/2 inside the vector and no index is queued twice. */
    ghost predicate Valid()
      reads this
    {
      && |vec| <= vecLenOrig
      && indices2 == Range(0, vecLenOrig / 2)
      && |indices| <= |vec| / 2
      && indices == Range(|vec| / 2 - |indices|, |vec| / 2)
    }

    constructor (v: seq<int>)
      ensures Valid()
      ensures vec == v && vecLenOrig == |v|
      ensures indices == Range(0, |v| / 2) && indices2 == indices
    {
      var q: seq<int> := [];
      for i := 0 to |v| / 2
        invariant q == Range(0, i)
      {
        q := q + [i];
      }
      vec := v;
      indices := q;
      vecLenOrig := |v|;
      indices2 := q;
    }

    /** `getOriginalLen` */
    function OriginalLen(): (r: int)
      reads this
      requires Valid()
      ensures r >= |vec| && 2 * |indices2| <= r
    {
      vecLenOrig
    }

    /** `getsize` */
    function Size(): (r: nat)
      reads this
      requires Valid()
      ensures r == |vec| && 2 * |indices| <= r
    {
      |vec|
    }

    /** `getentry` */
    function Entry(index: int): (r: int)
      reads this
      requires 0 <= index < |vec|
      ensures r == vec[index]
    {
      vec[index]
    }

    /** `getVec` */
    function Vec(): (r: seq<int>)
      reads this
      ensures |r| == |vec| && forall i :: 0 <= i < |r| ==> r[i] == Entry(i)
      ensures Valid() ==> |r| == Size() && |r| <= OriginalLen()
    {
      vec
    }

    /** `setentry`: overwrite one cell; nothing else changes. */
    method SetEntry(index: int, newval: int)
      requires Valid() && 0 <= index < |vec|
      modifies this
      ensures Valid()
      ensures |vec| == |old(vec)| && vec[index] == newval
      ensures forall j :: 0 <= j < |vec| && j != index ==> vec[j] == old(vec[j])
      ensures indices == old(indices) && indices2 == old(indices2) && vecLenOrig == old(vecLenOrig)
    {
      vec := vec[index := newval];
    }

    /** `getindex`: the front of the queue, a front-half index whose partner
        `i + |vec|/2` lies in the vector. */
    function GetIndex(): (i: int)
      reads this
      requires Valid() && |indices| > 0
      ensures 0 <= i < |vec| / 2 && i + |vec| / 2 < |vec|
      ensures i !in indices[1..]
    {
      indices[0]
    }

    /** `popindex`: drop the front of the queue; nothing else changes. */
    method PopIndex()
      requires Valid() && |indices| > 0
      modifies this
      ensures Valid()
      ensures indices == old(indices)[1..]
      ensures vec == old(vec) && indices2 == old(indices2) && vecLenOrig == old(vecLenOrig)
    {
      indices := indices[1..];
    }

    /** `ResizeVec`: halve the vector, keeping its front half, and refill the
        queue with the front-half indices of the halved vector. */
    method ResizeVec()
      requires Valid()
      modifies this
      ensures Valid()
      ensures vec == old(vec)[..|old(vec)| / 2]
      ensures indices == Range(0, |vec| / 2)
      ensures indices2 == old(indices2) && vecLenOrig == old(vecLenOrig)
    {
      vec := Resized(vec, |vec| / 2);
      indices := indices2;
      indices := Resized(indices, |vec| / 2);
      assert indices == Range(0, |vec| / 2);
    }
  }
}
