/** The divide-and-conquer summation `SumVec`, with the worker threads run
    one after another. Each round every worker makes `size / (2 * N_th)`
    claims; a claim takes the front index i of the queue and stores
    v[i] + v[i + size/2] into v[i]. All workers then arrive at the barrier,
    and each one evaluates the shrink guard, which halves the vector once per
    barrier generation. The loop stops once the vector is no longer than the
    number of workers. */
module Reduction {
  import opened PowersOfTwo
  import opened Barriers
  import opened SumSeqs
  import opened Arith

  /** The sum of a sequence, as the program's reference loop computes it. */
  function Sum(s: seq<int>): int
  {
    if |s| == 0 then 0 else Sum(s[..|s| - 1]) + s[|s| - 1]
  }

  lemma {:induction false} SumConcat(a: seq<int>, b: seq<int>)
    ensures Sum(a + b) == Sum(a) + Sum(b)
    decreases |b|
  {
    if |b| > 0 {
      assert (a + b)[..|a + b| - 1] == a + b[..|b| - 1];
      SumConcat(a, b[..|b| - 1]);
    } else {
      assert a + b == a;
    }
  }

  /** Adding two sequences cell by cell adds their sums. */
  lemma {:induction false} SumPairwise(a: seq<int>, b: seq<int>, c: seq<int>)
    requires |a| == |b| == |c|
    requires forall i :: 0 <= i < |c| ==> c[i] == a[i] + b[i]
    ensures Sum(c) == Sum(a) + Sum(b)
    decreases |c|
  {
    if |c| > 0 {
      var n := |c| - 1;
      SumPairwise(a[..n], b[..n], c[..n]);
    }
  }

  /** The vector after the first k queued indices 0 .. k-1 of a round have
      been claimed and combined: cell i < k holds s[i] + s[i + |s|/2]. */
  function Combine(s: seq<int>, k: nat): (r: seq<int>)
    requires k <= |s| / 2
    ensures |r| == |s|
  {
    seq(|s|, i requires 0 <= i < |s| => if i < k then s[i] + s[i + |s| / 2] else s[i])
  }

  /** One more claim extends the combined prefix by one cell. */
  lemma CombineNext(s: seq<int>, k: nat)
    requires k < |s| / 2
    ensures Combine(s, k)[k := s[k] + s[k + |s| / 2]] == Combine(s, k + 1)
  {
  }

  /** Combining all front-half indices and dropping the back half keeps the
      sum of the vector. */
  lemma HalvingPreservesSum(s: seq<int>)
    requires |s| % 2 == 0
    ensures Sum(Combine(s, |s| / 2)[..|s| / 2]) == Sum(s)
  {
    var h := |s| / 2;
    var c := Combine(s, h)[..h];
    SumPairwise(s[..h], s[h..], c);
    assert s == s[..h] + s[h..];
    SumConcat(s[..h], s[h..]);
  }

  /** The number of claims all workers together make in a round: each of the
      w workers runs its loop `size / (2 * w)` times. They never exceed the
      size/2 indices that are queued. */
  function Claims(size: nat, w: int): (r: nat)
    requires w >= 1
    ensures r <= size / 2
  {
    var perWorker := PerWorker(size, w);
    MulLeq(0, w, perWorker);
    w * perWorker
  }

  /** The number of iterations of one worker's loop, `size / (2 * w)`. */
  function PerWorker(size: nat, w: int): (r: nat)
    requires w >= 1
    ensures r == size / (2 * w) && 2 * (w * r) <= size
  {
    DivBounds(size, 2 * w);
    size / (2 * w)
  }

  /** With a power-of-two vector longer than a power-of-two worker count the
      claims of a round take exactly the size/2 queued indices, so no claim
      finds the queue empty and the queue is empty at the barrier. */
  lemma ClaimsCoverQueue(size: nat, w: int)
    requires w >= 1 && IsPow2(size) && IsPow2(w) && size > w
    ensures Claims(size, w) == size / 2
  {
    var c := Pow2Multiple(size, w);
    ClaimsOfMultiple(w, c);
  }

  lemma ClaimsOfMultiple(w: int, c: nat)
    requires w >= 1
    ensures Claims(2 * w * c, w) == w * c == (2 * w * c) / 2
  {
    DivOfMultiple(2 * w, c);
    assert 2 * w * c == 2 * (w * c);
  }

  /** A power of two above another one is at least twice it. */
  lemma HalfNotBelow(size: int, w: int)
    requires IsPow2(size) && IsPow2(w) && size > w
    ensures size / 2 >= w
  {
    var c := Pow2Multiple(size, w);
    MultipleNotBelow(w, c);
  }

  lemma MultipleNotBelow(w: int, c: int)
    requires w >= 1 && c >= 1
    ensures (2 * w * c) / 2 >= w
  {
    assert 2 * w * c == 2 * (w * c);
    assert w * (c - 1) >= 0;
  }

  /** One round: the claimed pairs are combined and the vector is halved. */
  function Round(s: seq<int>, w: int): (r: seq<int>)
    requires w >= 1
    ensures |r| == |s| / 2
  {
    Combine(s, Claims(|s|, w))[..|s| / 2]
  }

  /** The vector the workers leave behind: rounds until it is no longer than w. */
  function Reduced(s: seq<int>, w: int): seq<int>
    requires w >= 1
    decreases |s|
  {
    if |s| > w then Reduced(Round(s, w), w) else s
  }

  /** A round on a power-of-two vector longer than the power-of-two worker
      count keeps the sum. */
  lemma RoundPreservesSum(s: seq<int>, w: int)
    requires w >= 1 && IsPow2(|s|) && IsPow2(w) && |s| > w
    ensures Sum(Round(s, w)) == Sum(s)
  {
    ClaimsCoverQueue(|s|, w);
    HalvingPreservesSum(s);
  }

  /** The workers leave at most w cells, a power of two, and more than w/2 of
      them when they ran at all. */
  lemma {:induction false} ReducedLength(s: seq<int>, w: int)
    requires w >= 1 && IsPow2(|s|)
    ensures IsPow2(|Reduced(s, w)|) && |Reduced(s, w)| <= w
    ensures |s| > w ==> 2 * |Reduced(s, w)| > w
    decreases |s|
  {
    if |s| > w {
      ReducedLength(Round(s, w), w);
    }
  }

  /** With a power-of-two worker count the parallel phase keeps the sum of the
      vector, and leaves exactly w cells when the vector was longer than w. */
  lemma {:induction false} ReducedSum(s: seq<int>, w: int)
    requires w >= 1 && IsPow2(|s|) && IsPow2(w)
    ensures Sum(Reduced(s, w)) == Sum(s)
    ensures |s| > w ==> |Reduced(s, w)| == w
    decreases |s|
  {
    if |s| > w {
      var r := Round(s, w);
      RoundPreservesSum(s, w);
      ReducedSum(r, w);
      HalfNotBelow(|s|, w);
    }
  }

  /** Sixteen ones and four workers: two rounds leave four cells of 4 each. */
  lemma SixteenOnesFourWorkers()
    ensures Reduced(seq(16, _ => 1), 4) == [4, 4, 4, 4]
  {
    var s := seq(16, _ => 1);
    ClaimsOfMultiple(4, 2);
    var r1 := Round(s, 4);
    assert r1 == seq(8, _ => 2);
    ClaimsOfMultiple(4, 1);
    var r2 := Round(r1, 4);
    assert r2 == [4, 4, 4, 4];
    assert Reduced(s, 4) == Reduced(r1, 4) == Reduced(r2, 4);
  }

  /** A worker count that is not a power of two loses cells: three workers
      claim only three of the four queued indices of eight ones, and none of
      the two of the next round. */
  lemma ThreeWorkersLoseCells()
    ensures Reduced(seq(8, _ => 1), 3) == [2, 2]
    ensures Sum(Reduced(seq(8, _ => 1), 3)) == 4 != Sum(seq(8, _ => 1))
  {
    var s := seq(8, _ => 1);
    assert Claims(8, 3) == 3;
    var r1 := Round(s, 3);
    assert r1 == [2, 2, 2, 1];
    assert Claims(4, 3) == 0;
    var r2 := Round(r1, 3);
    assert r2 == [2, 2];
    assert Reduced(s, 3) == Reduced(r1, 3) == Reduced(r2, 3);
    assert Sum([2, 2]) == 4 && Sum([1, 1]) == 2;
    SumConcat([1, 1], [1, 1]);
    assert s == ([1, 1] + [1, 1]) + ([1, 1] + [1, 1]);
    SumConcat([1, 1] + [1, 1], [1, 1] + [1, 1]);
  }

  /** The shrink guard `size != orig / 2^runs`, compared exactly: the vector
      is halved when its length times 2^runs is not the original length. */
  function Shrunk(s: seq<int>, orig: int, runs: nat): seq<int>
  {
    if |s| * Pow2(runs) != orig then s[..|s| / 2] else s
  }

  /** Right after a barrier release the guard halves the vector, and a second
      evaluation with the same generation finds it at the expected length and
      leaves it alone: one halving per generation, however many workers look. */
  lemma ShrinkOncePerGeneration(s: seq<int>, orig: int, g: nat)
    requires |s| >= 1 && |s| % 2 == 0 && |s| * Pow2(g) == orig
    ensures Shrunk(s, orig, g + 1) == s[..|s| / 2]
    ensures Shrunk(Shrunk(s, orig, g + 1), orig, g + 1) == Shrunk(s, orig, g + 1)
    ensures |Shrunk(s, orig, g + 1)| * Pow2(g + 1) == orig
  {
    var h := |s| / 2;
    assert |s| * Pow2(g + 1) == 2 * orig;
    assert h * Pow2(g + 1) == h * 2 * Pow2(g) == |s| * Pow2(g);
  }

  /** One iteration of a worker's inner loop, under the combine lock: claim
      the front index i and store v[i] + v[i + size/2] into v[i]. */
  method ClaimAndCombine(sumseq: SumSeq) returns (i: int)
    requires sumseq.Valid() && |sumseq.indices| > 0
    modifies sumseq
    ensures sumseq.Valid()
    ensures i == old(sumseq.indices[0]) && 0 <= i < |old(sumseq.vec)| / 2
    ensures sumseq.vec == old(sumseq.vec[i := sumseq.vec[i] + sumseq.vec[i + |sumseq.vec| / 2]])
    ensures sumseq.indices == old(sumseq.indices[1..])
    ensures sumseq.indices2 == old(sumseq.indices2) && sumseq.vecLenOrig == old(sumseq.vecLenOrig)
  {
    i := sumseq.GetIndex();
    sumseq.SetEntry(sumseq.GetIndex(), sumseq.Entry(sumseq.GetIndex()) + sumseq.Entry(sumseq.GetIndex() + sumseq.Size() / 2));
    sumseq.PopIndex();
  }

  /** One worker's share of a round: its `size / (2 * nTh)` claims, made after
      the workers before it have claimed `done` indices. */
  method WorkerClaims(sumseq: SumSeq, nTh: int, ghost s: seq<int>, ghost done: nat, ghost perWorker: nat)
    returns (ghost claimed: seq<int>)
    requires sumseq.Valid() && nTh >= 1 && |sumseq.vec| == |s|
    requires perWorker == |s| / (2 * nTh) && done + perWorker <= |s| / 2
    requires sumseq.vec == Combine(s, done) && sumseq.indices == Range(done, |s| / 2)
    modifies sumseq
    ensures sumseq.Valid()
    ensures sumseq.vec == Combine(s, done + perWorker)
    ensures sumseq.indices == Range(done + perWorker, |s| / 2)
    ensures claimed == Range(done, done + perWorker)
    ensures sumseq.indices2 == old(sumseq.indices2) && sumseq.vecLenOrig == old(sumseq.vecLenOrig)
  {
    claimed := [];
    for j := 0 to sumseq.Size() / (2 * nTh)
      invariant sumseq.Valid()
      invariant sumseq.vec == Combine(s, done + j)
      invariant sumseq.indices == Range(done + j, |s| / 2)
      invariant claimed == Range(done, done + j)
      invariant sumseq.indices2 == old(sumseq.indices2) && sumseq.vecLenOrig == old(sumseq.vecLenOrig)
    {
      CombineNext(s, done + j);
      var i := ClaimAndCombine(sumseq);
      claimed := claimed + [i];
    }
  }

  /** The claims of one round by all nTh workers. Each front-half index is
      claimed at most once, in queue order; `claimed` lists them. */
  method CombineRound(sumseq: SumSeq, nTh: int) returns (ghost claimed: seq<int>)
    requires sumseq.Valid() && nTh >= 1
    requires sumseq.indices == Range(0, |sumseq.vec| / 2)
    modifies sumseq
    ensures sumseq.Valid()
    ensures sumseq.vec == Combine(old(sumseq.vec), Claims(|old(sumseq.vec)|, nTh))
    ensures sumseq.indices == Range(Claims(|old(sumseq.vec)|, nTh), |old(sumseq.vec)| / 2)
    ensures claimed == Range(0, Claims(|old(sumseq.vec)|, nTh))
    ensures sumseq.indices2 == old(sumseq.indices2) && sumseq.vecLenOrig == old(sumseq.vecLenOrig)
  {
    ghost var s := sumseq.vec;
    ghost var perWorker := PerWorker(|s|, nTh);
    ghost var done: nat := 0;
    claimed := [];
    for w := 0 to nTh
      invariant sumseq.Valid()
      invariant done == w * perWorker <= Claims(|s|, nTh)
      invariant sumseq.vec == Combine(s, done)
      invariant sumseq.indices == Range(done, |s| / 2)
      invariant claimed == Range(0, done)
      invariant sumseq.indices2 == old(sumseq.indices2) && sumseq.vecLenOrig == old(sumseq.vecLenOrig)
    {
      MulSucc(w, perWorker);
      MulLeq(w + 1, nTh, perWorker);
      var mine := WorkerClaims(sumseq, nTh, s, done, perWorker);
      claimed := claimed + mine;
      done := done + perWorker;
    }
  }

  /** All nTh workers arrive at the barrier once. Every one of them captured
      the same generation, every one but the last has to block, and the last
      arrival releases them all by starting the next generation. */
  method BarrierRound(barrier: Barrier, nTh: int) returns (ghost cycles: seq<int>, ghost blocked: seq<bool>)
    requires barrier.Valid() && nTh >= 1 && barrier.target == nTh && barrier.waitCount == 0
    modifies barrier
    ensures barrier.Valid()
    ensures barrier.State() == BarrierState(0, old(barrier.nRuns) + 1)
    ensures |cycles| == nTh
    ensures forall c :: c in cycles ==> c == old(barrier.nRuns) && Released(barrier.State(), c)
    ensures |blocked| == nTh && forall j :: 0 <= j < nTh ==> (blocked[j] <==> j < nTh - 1)
  {
    ghost var g := barrier.nRuns;
    cycles, blocked := [], [];
    for w := 0 to nTh
      invariant barrier.Valid() && |cycles| == w && |blocked| == w
      invariant barrier.State() == Arrivals(BarrierState(0, g), nTh, w)
      invariant forall c :: c in cycles ==> c == g
      invariant forall j :: 0 <= j < w ==> (blocked[j] <==> j < nTh - 1)
    {
      OneCycle(g, nTh, w);
      var cycle, blocks := barrier.Wait();
      cycles, blocked := cycles + [cycle], blocked + [blocks];
    }
    OneCycle(g, nTh, nTh);
  }

  /** The shrink guard evaluated by one worker after the barrier. */
  method ShrinkIfNeeded(sumseq: SumSeq, runs: nat)
    requires sumseq.Valid()
    modifies sumseq
    ensures sumseq.Valid()
    ensures sumseq.vec == Shrunk(old(sumseq.vec), sumseq.vecLenOrig, runs)
    ensures sumseq.indices == if |old(sumseq.vec)| * Pow2(runs) != sumseq.vecLenOrig
                              then Range(0, |sumseq.vec| / 2) else old(sumseq.indices)
    ensures sumseq.indices2 == old(sumseq.indices2) && sumseq.vecLenOrig == old(sumseq.vecLenOrig)
  {
    if sumseq.Size() * Pow2(runs) != sumseq.OriginalLen() {
      sumseq.ResizeVec();
    }
  }

  /** `SumVec` run by nTh workers: rounds of claims, a barrier and the shrink
      guard, then each worker's final copy of the buffer into `vect` when its
      length differs from nTh. The buffer ends as `Reduced` of the input,
      halved once per barrier generation. */
  method SumVec(barrier: Barrier, sumseq: SumSeq, nTh: int, vect: seq<int>) returns (vect': seq<int>)
    requires barrier.Valid() && sumseq.Valid()
    requires nTh >= 1 && barrier.target == nTh && barrier.waitCount == 0
    requires IsPow2(|sumseq.vec|) && |sumseq.vec| * Pow2(barrier.nRuns) == sumseq.vecLenOrig
    requires sumseq.indices == Range(0, |sumseq.vec| / 2)
    modifies barrier, sumseq
    ensures barrier.Valid() && sumseq.Valid() && barrier.waitCount == 0
    ensures sumseq.vec == Reduced(old(sumseq.vec), nTh)
    ensures |sumseq.vec| * Pow2(barrier.nRuns) == sumseq.vecLenOrig
    ensures sumseq.indices == Range(0, |sumseq.vec| / 2)
    ensures sumseq.vecLenOrig == old(sumseq.vecLenOrig) && sumseq.indices2 == old(sumseq.indices2)
    ensures vect' == if |vect| == nTh then vect else sumseq.vec
  {
    ghost var v0 := sumseq.vec;
    while sumseq.Size() > nTh
      invariant barrier.Valid() && sumseq.Valid() && barrier.waitCount == 0
      invariant IsPow2(|sumseq.vec|) && |sumseq.vec| * Pow2(barrier.nRuns) == sumseq.vecLenOrig
      invariant sumseq.indices == Range(0, |sumseq.vec| / 2)
      invariant Reduced(sumseq.vec, nTh) == Reduced(v0, nTh)
      invariant sumseq.vecLenOrig == old(sumseq.vecLenOrig) && sumseq.indices2 == old(sumseq.indices2)
      decreases |sumseq.vec|
    {
      ghost var s := sumseq.vec;
      ghost var g := barrier.nRuns;
      ghost var k := Claims(|s|, nTh);
      ghost var claimed := CombineRound(sumseq, nTh);
      ghost var cycles, blocked := BarrierRound(barrier, nTh);
      ShrinkOncePerGeneration(sumseq.vec, sumseq.vecLenOrig, g);
      for w := 0 to nTh
        modifies sumseq
        invariant sumseq.Valid()
        invariant w == 0 ==> sumseq.vec == Combine(s, k) && sumseq.indices == Range(k, |s| / 2)
        invariant w > 0 ==> sumseq.vec == Round(s, nTh) && sumseq.indices == Range(0, |sumseq.vec| / 2)
        invariant sumseq.vecLenOrig == old(sumseq.vecLenOrig) && sumseq.indices2 == old(sumseq.indices2)
        invariant barrier.State() == BarrierState(0, g + 1)
      {
        ShrinkIfNeeded(sumseq, barrier.Runs());
      }
    }
    vect' := vect;
    for w := 0 to nTh
      invariant vect' == if w == 0 || |vect| == nTh then vect else sumseq.vec
    {
      if |vect'| != nTh {
        vect' := sumseq.Vec();
      }
    }
  }
}
