# Divide-and-conquer vector summation with a reusable barrier

This project models `Barrier.cpp`, a program that sums a vector of ints with
a fixed pool of worker threads. The vector length must be a power of two.
In each round the workers combine pairs of cells `v[i] + v[i + size/2]` into
the front half of the vector. They meet at a reusable barrier, and the
vector is then halved. Rounds continue until the vector is no longer than
the number of workers, and the program adds up those last cells.

The model has five modules for the components of the source, and one for arithmetic:

- `PowersOfTwo` (`power_of_two.dfy`): powers of two and the bit test
  `IsPowerOfTwo`. The test is modelled on 32-bit two's-complement ints.
- `Barriers` (`barrier.dfy`): the barrier. `BarrierState` and `Arrive`
  describe `wait` as a pure transition of the two counters `wait_count`
  and `N_runs`, with lemmas about whole cycles. The class `Barrier` holds
  those counters as fields, and its `Wait` method is proved against `Arrive`.
- `SumSeqs` (`sum_seq.dfy`): the class `SumSeq`. It keeps the vector, the
  queue `Indices` and the saved queue `Indices2` as fields, and its methods
  update them in place. `Valid()` is the buffer invariant: the queue is the
  unclaimed tail of `0 .. size/2 - 1`. `getentry` and `getVec` are plain
  reads (`Entry`, `Vec`).
- `Reduction` (`reduction.dfy`): `SumVec` with the workers run one after
  another. `Combine`, `Round`, `Reduced` and `Shrunk` specify what a claim,
  a round, the whole parallel phase and the shrink guard do to the vector.
  The methods `ClaimAndCombine`, `CombineRound`, `BarrierRound`,
  `ShrinkIfNeeded` and `SumVec` are proved against them. Lemmas show that a
  round keeps the sum and that the shrink happens once per generation.
- `Arith` (`arith.dfy`): facts about integer multiplication and division
  that the claim counts need.
- `Driver` (`driver.dfy`): `main` without its I/O. The vector is a
  parameter. `Run` returns the reference sum and the sum the program
  reports.

Running the workers in a fixed order covers every interleaving the locks
allow:

- Claim-and-combine. One claim-and-combine is a single critical section
  (`Mu[0]`). It always takes the queue front, so the state after a round's
  claims does not depend on which worker made which claim.
- Barrier. No worker passes the barrier before all of them have arrived.
- Shrink. The shrink guard runs under `Mu[1]`, so each worker sees the
  halving that the first worker did.

## Notes on the program's behaviour

The model follows what the code does in three places where a reader might
expect otherwise:

- If the length is not a power of two, the program only prints a message.
  It does not fall back to a sequential sum, so `Run` reports `None`.
- A claim does not return "empty" when the queue has no more entries. The
  model instead proves that no claim ever finds the queue empty
  (`Claims` <= size/2).
- The shrink is gated on the derived formula `size != orig / 2^runs` from
  the code, not directly on the generation counter.

## Model

| member | source | states |
|---|---|---|
| PowersOfTwo.IsPow2Iff | Barrier.cpp:153 | the reference predicate IsPow2 holds exactly for the numbers 2^k, k >= 0 |
| PowersOfTwo.BitAndPredecessor | Barrier.cpp:155 | for x >= 1, `x & (x - 1)` is zero if and only if x is a power of two |
| PowersOfTwo.IsPowerOfTwo | Barrier.cpp:153-156 | the test as written, with x - 1 wrapping in 32 bits, accepts exactly the positive powers of two and the least int -2^31 |
| PowersOfTwo.MinIntPassesTest | Barrier.cpp:155 | -2^31 passes the test although it is not a power of two |
| PowersOfTwo.IsPowerOfTwoChecked | Barrier.cpp:153-156 | the test with a positive-sign check holds exactly for x > 0 that are powers of two |
| Barriers.Arrive | Barrier.cpp:29-47 | an arrival keeps 0 <= wait_count < target; the generation goes up by one exactly on the target-th arrival, which resets the count to 0; otherwise the count goes up by one and the generation is unchanged |
| Barriers.Released | Barrier.cpp:37-39 | a waiter that captured generation `cycle` may leave exactly when N_runs differs from it; the arrival count plays no part |
| Barriers.ArrivalsMonotone | Barrier.cpp:29-47 | any number of arrivals keeps the invariant and never lowers N_runs |
| Barriers.OneCycle | Barrier.cpp:33-46 | from a reset barrier, j < target arrivals leave count j and the same generation; the target-th leaves count 0 and generation g + 1 |
| Barriers.ReleasedExactlyAtLastArrival | Barrier.cpp:31-46 | a waiter that captured generation g has its wake condition `N_runs != g` satisfied exactly after the cycle's last arrival, never before |
| Barriers.RepeatedCycles | Barrier.cpp:41-46 | the barrier is reusable: k cycles of target arrivals advance the generation by exactly k and leave the count at 0 |
| Barriers.Barrier.constructor | Barrier.cpp:22-27 | a new barrier has the given target, count 0 and generation 0 |
| Barriers.Barrier.Wait | Barrier.cpp:29-47 | the new counters are `Arrive` of the old ones; the captured cycle is the old N_runs; the caller has to block exactly when it is not the last arrival, i.e. when its wake condition does not yet hold |
| Barriers.Barrier.Runs | Barrier.cpp:49-52 | returns the generation counter N_runs, a natural number |
| SumSeqs.SumSeq.constructor | Barrier.cpp:71-79 | the vector is a copy of v, Indices is 0 .. size/2 - 1 in order, Indices2 equals it and VecLen_orig is the size of v |
| SumSeqs.SumSeq.OriginalLen | Barrier.cpp:81-84 | the original length is at least the current length and at least twice the saved queue |
| SumSeqs.SumSeq.Size | Barrier.cpp:102-105 | the current length of the vector, at least twice the length of the queue |
| SumSeqs.SumSeq.Entry | Barrier.cpp:86-89 | `getentry` returns cell index of the current vector |
| SumSeqs.SumSeq.Vec | Barrier.cpp:97-100 | `getVec` returns the current vector: cell by cell what `getentry` returns, as long as `getsize` and no longer than the original length |
| SumSeqs.SumSeq.SetEntry | Barrier.cpp:91-95 | only cell index becomes newval; the length, the other cells, both queues and VecLen_orig are unchanged |
| SumSeqs.SumSeq.GetIndex | Barrier.cpp:107-111 | on a non-empty queue, the front is a front-half index whose partner i + size/2 is in the vector, and it is not queued a second time |
| SumSeqs.SumSeq.PopIndex | Barrier.cpp:113-117 | on a non-empty queue, removes exactly the front; the vector and everything else are unchanged |
| SumSeqs.SumSeq.ResizeVec | Barrier.cpp:119-123 | the vector becomes its first old/2 cells; Indices becomes 0 .. newsize/2 - 1, the first newsize/2 entries of Indices2 |
| Reduction.HalvingPreservesSum | Barrier.cpp:132-144 | combining every front-half index i into v[i] + v[i + size/2] and dropping the back half keeps the sum |
| Reduction.Claims | Barrier.cpp:132 | the nTh workers' `size / (2 * nTh)` claims each never exceed the size/2 queued indices |
| Reduction.ClaimsCoverQueue | Barrier.cpp:132-137 | with power-of-two size > nTh, the claims of a round are exactly the size/2 queued indices: no claim meets an empty queue, and the queue is empty at the barrier |
| Reduction.Round | Barrier.cpp:129-144 | a round halves the length of the vector |
| Reduction.RoundPreservesSum | Barrier.cpp:129-144 | a round on a power-of-two vector longer than a power-of-two worker count keeps the sum |
| Reduction.ReducedLength | Barrier.cpp:129-145 | the parallel phase ends with a power-of-two length at most nTh, and above nTh/2 when it ran |
| Reduction.ReducedSum | Barrier.cpp:129-145 | with a power-of-two worker count, the phase keeps the vector's sum and ends at length exactly nTh when the vector was longer |
| Reduction.SixteenOnesFourWorkers | Barrier.cpp:129-145 | sixteen ones with four workers end as four cells of 4 |
| Reduction.ThreeWorkersLoseCells | Barrier.cpp:132 | with three workers, eight ones end as [2, 2]: the truncating per-worker count leaves queued indices unclaimed, and the sum is lost |
| Reduction.ShrinkOncePerGeneration | Barrier.cpp:140-144 | after a barrier release the guard halves the vector, a second evaluation with the same runs() leaves it alone, and length * 2^runs equals the original length again |
| Reduction.ClaimAndCombine | Barrier.cpp:134-136 | the claimed index is the old queue front i < size/2; v[i] becomes old v[i] + v[i + size/2]; the queue loses its front |
| Reduction.WorkerClaims | Barrier.cpp:132-137 | one worker's `size / (2 * nTh)` claims extend the combined prefix and the claimed indices by that many, in queue order |
| Reduction.CombineRound | Barrier.cpp:132-137 | after all workers' claims, the vector is Combine of the old one over the claimed count, and the claimed indices are 0, 1, ... in queue order, each once; the queue holds the rest |
| Reduction.BarrierRound | Barrier.cpp:138 | the nTh arrivals all capture the same generation; each of the first nTh - 1 has to block and the last does not; the generation goes up by exactly one with the count back at 0, so every waiter is released |
| Reduction.ShrinkIfNeeded | Barrier.cpp:140-144 | the vector becomes `Shrunk` of the old one under the guard `size * 2^runs != orig`; when it halves, the queue is refilled with 0 .. newsize/2 - 1 |
| Reduction.SumVec | Barrier.cpp:127-151 | the buffer ends as `Reduced` of the input, length * 2^runs equals the unchanged original length, the saved queue is unchanged and the live queue is refilled with 0 .. size/2 - 1, and the caller's vector is replaced by the buffer exactly when its length differs from nTh |
| Driver.RealSum | Barrier.cpp:170-174 | the reference loop computes the sum of the vector |
| Driver.Run | Barrier.cpp:158-218 | the reported reference sum is the sum of the vector; for a power-of-two length the program reports that same sum (from the workers' 8 cells when longer than 8), otherwise no sum |

## Left out

- Threads, `std::mutex`, `unique_lock`/`lock_guard`, the `vector<mutex>` and `join`. Concurrency is not modelled: the workers run one after another in a fixed order, which the critical sections make equivalent to any allowed interleaving.
- Barriers.Barrier.Wait: does not block. The condition-variable sleep and `notify_all` are replaced by the `blocks` result and the wake condition `Released(State(), cycle)`.
- The unsynchronised reads in `getentry` and `getindex` are modelled as plain reads (`Entry`, `GetIndex`), not as data races.
- `pow(2, runs)` is a floating-point value. The guard `size != orig / pow(2, runs)` is modelled as the exact comparison `size * 2^runs != orig`, which is the same comparison over the reals.
- Overflow of `int` sums and of `wait_count` is not modelled: the sums are mathematical integers.
- `rand`/`srand` input generation, all `cout` output and the fixed length 1048576: `Driver.Run` takes the vector as a parameter.
- Semaphore.cpp is not part of this model. It is a separate counting-semaphore demo with console output, random sleeps and threads.
- Driver.Run: decides with the sign-checked `IsPowerOfTwoChecked` where `main` calls `IsPowerOfTwo` as written. For a length, which is never negative, the two agree by `IsPowerOfTwo`'s contract.
- Reduction.SumVec: requires a power-of-two vector length and a barrier whose generation count matches the length (`size * 2^runs == orig`). `main` establishes both before the threads start.
- `std::vector::resize` and `std::deque::resize` are modelled with zero padding (`Resized`). The program only ever truncates.

## Findings

| source | as written | input that shows it | evidently intended | confidence | as-written member | corrected member |
|---|---|---|---|---|---|---|
| Barrier.cpp:153-156 | `(x != 0) && ((x & (x - 1)) == 0)` on a 32-bit `int` | x = -2147483648: x - 1 wraps to 2147483647, the AND is 0, the test says true | true only for x > 0 that are powers of two | low; not executed; `INT_MIN - 1` is undefined behaviour in C++, and the claim assumes the usual two's-complement wrap-around; the program itself only calls the test with 1048576 | PowersOfTwo.MinIntPassesTest | PowersOfTwo.IsPowerOfTwoChecked |
