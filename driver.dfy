/** The program's entry point without its input generation and console
    output: the reference sum, the power-of-two and size checks, the
    parallel phase with 8 workers, and the final sum over the 8 cells left. */
module Driver {
  import opened PowersOfTwo
  import opened Barriers
  import opened SumSeqs
  import opened Reduction

  datatype Option<T> = None | Some(value: T)

  /** `N_th`, the number of worker threads; also the length a vector must
      exceed for the threads to be used. */
  const NumThreads: int := 8

  /** The reference loop whose result is reported as the "Real sum". */
  method RealSum(vt: seq<int>) returns (sum: int)
    ensures sum == Sum(vt)
  {
    sum := 0;
    for i := 0 to |vt|
      invariant sum == Sum(vt[..i])
    {
      assert vt[..i + 1][..i] == vt[..i];
      sum := sum + vt[i];
    }
    assert vt[..|vt|] == vt;
  }

  /** What the program reports for the vector `vt`: the reference sum, and
      the divide-and-conquer sum when the length is a power of two (computed
      by the workers when the vector is longer than 8, otherwise the
      reference sum), or nothing when it is not. */
  method Run(vt: seq<int>) returns (realSum: int, reported: Option<int>)
    requires |vt| < TwoTo31
    ensures realSum == Sum(vt)
    ensures reported == if IsPow2(|vt|) then Some(Sum(vt)) else None
  {
    realSum := RealSum(vt);
    if IsPowerOfTwoChecked(|vt| as Int32) {
      if |vt| > NumThreads {
        var nTh := NumThreads;
        var mainBarrier := new Barrier(nTh);
        var sumUpVec := new SumSeq(vt);
        assert IsPow2(nTh) by {
          assert IsPow2(2) && IsPow2(4);
        }
        var vt' := SumVec(mainBarrier, sumUpVec, nTh, vt);
        ReducedSum(vt, nTh);
        var sumNew := 0;
        for j := 0 to nTh
          invariant sumNew == Sum(vt'[..j])
        {
          assert vt'[..j + 1][..j] == vt'[..j];
          sumNew := sumNew + vt'[j];
        }
        assert vt'[..nTh] == vt';
        reported := Some(sumNew);
      } else {
        reported := Some(realSum);
      }
    } else {
      reported := None;
    }
  }
}
