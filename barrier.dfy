/** The reusable barrier: a counter of arrivals in the current cycle and a
    generation counter `N_runs` that only grows. Blocking on the condition
    variable is not modelled; a caller that would block is told so, together
    with the generation it must see pass before it may leave. */
module Barriers {

  /** The two counters of a barrier: `wait_count` and `N_runs`. */
  datatype BarrierState = BarrierState(waitCount: int, runs: int)

  /** Between calls the arrival count lies in [0, target) and no counter is negative.
      With a target below 1 the last arrival never comes and the count only grows. */
  predicate Inv(s: BarrierState, target: int)
  {
    0 <= s.waitCount && 0 <= s.runs && (target >= 1 ==> s.waitCount < target)
  }

  /** One call of `wait` under the barrier's lock: count the arrival; the
      arrival that reaches the target starts a new generation and resets the count. */
  function Arrive(s: BarrierState, target: int): (r: BarrierState)
    ensures Inv(s, target) ==> Inv(r, target)
    ensures r.runs == s.runs + 1 <==> s.waitCount + 1 == target
    ensures r.runs == s.runs <==> s.waitCount + 1 != target
    ensures r.runs == s.runs ==> r.waitCount == s.waitCount + 1
    ensures r.runs != s.runs ==> r.waitCount == 0
  {
    var count := s.waitCount + 1;
    if count != target then s.(waitCount := count)
    else BarrierState(0, s.runs + 1)
  }

  /** A waiter that captured generation `cycle` on arrival may leave once the
      generation counter differs from it; the arrival count plays no part. */
  predicate Released(s: BarrierState, cycle: int): (r: bool)
    ensures r <==> s.runs != cycle
  {
    s.runs != cycle
  }

  /** The state after n more calls of `wait`. */
  function Arrivals(s: BarrierState, target: int, n: nat): BarrierState
  {
    if n == 0 then s else Arrive(Arrivals(s, target, n - 1), target)
  }

  /** Arrivals never lower the generation counter and keep the invariant. */
  lemma {:induction false} ArrivalsMonotone(s: BarrierState, target: int, n: nat)
    requires Inv(s, target)
    ensures Inv(Arrivals(s, target, n), target)
    ensures Arrivals(s, target, n).runs >= s.runs
  {
    if n > 0 {
      ArrivalsMonotone(s, target, n - 1);
    }
  }

  /** One cycle from a reset barrier: after j < target arrivals the count is j
      and the generation unchanged; the target-th arrival advances the
      generation by one and resets the count. */
  lemma {:induction false} OneCycle(g: int, target: int, j: nat)
    requires target >= 1 && g >= 0 && j <= target
    ensures Arrivals(BarrierState(0, g), target, j)
            == if j < target then BarrierState(j, g) else BarrierState(0, g + 1)
  {
    if j > 0 {
      OneCycle(g, target, j - 1);
    }
  }

  /** Nobody who arrived in a cycle is released before its last arrival, and
      all of them are released by it. */
  lemma ReleasedExactlyAtLastArrival(g: int, target: int, j: nat)
    requires target >= 1 && g >= 0 && j <= target
    ensures Released(Arrivals(BarrierState(0, g), target, j), g) <==> j == target
  {
    OneCycle(g, target, j);
  }

  lemma {:induction false} ArrivalsCompose(s: BarrierState, target: int, a: nat, b: nat)
    ensures Arrivals(s, target, a + b) == Arrivals(Arrivals(s, target, a), target, b)
    decreases b
  {
    if b > 0 {
      ArrivalsCompose(s, target, a, b - 1);
    }
  }

  /** The barrier is reusable: k full cycles of `target` arrivals each advance
      the generation by exactly k and leave the count at zero. */
  lemma {:induction false} RepeatedCycles(g: int, target: int, k: nat)
    requires target >= 1 && g >= 0
    ensures Arrivals(BarrierState(0, g), target, k * target) == BarrierState(0, g + k)
    decreases k
  {
    if k > 0 {
      RepeatedCycles(g, target, k - 1);
      assert k * target == (k - 1) * target + target;
      ArrivalsCompose(BarrierState(0, g), target, (k - 1) * target, target);
      OneCycle(g + k - 1, target, target);
    }
  }

  class Barrier {
    var waitCount: int
    var nRuns: int
    const target: int

    constructor (threadsToWaitFor: int)
      ensures target == threadsToWaitFor
      ensures State() == BarrierState(0, 0) && Valid()
    {
      target := threadsToWaitFor;
      waitCount := 0;
      nRuns := 0;
    }

    function State(): BarrierState
      reads this
    {
      BarrierState(waitCount, nRuns)
    }

    ghost predicate Valid()
      reads this
    {
      Inv(State(), target)
    }

    /** `wait`: returns the generation captured on arrival and whether the
        caller has to block; it has to exactly when its release condition
        does not yet hold, i.e. when it is not the last arrival. */
    method Wait() returns (cycle: int, blocks: bool)
      requires Valid()
      modifies this
      ensures Valid()
      ensures State() == Arrive(old(State()), target)
      ensures cycle == old(nRuns)
      ensures blocks <==> !Released(State(), cycle)
      ensures blocks <==> old(waitCount) + 1 != target
    {
      cycle := nRuns;
      waitCount := waitCount + 1;
      blocks := waitCount != target;
      if !blocks {
        nRuns := nRuns + 1;
        waitCount := 0;
      }
    }

    /** `runs`: the number of completed cycles. */
    function Runs(): (r: nat)
      reads this
      requires Valid()
      ensures r == State().runs
    {
      nRuns
    }
  }
}
