/** The demo behaviour's routine `Wait`, and the timeline of its steps when
    the update hook increments the counter `m_i` (1 at construction) once
    per tick, before the tasks are stepped: during tick `t` the counter is
    `t + 1`. */
module Demo {
  import opened Instructions
  import opened Coroutines

  predicate Below4(m: int) { m < 4 }
  predicate Below10(m: int) { m < 10 }

  /** `WaitForFrames(5)`, `WaitWhile(m_i < 4)`, three `null`s, `WaitWhile(m_i < 10)`. */
  function WaitRoutine(): (r: seq<Item>)
  {
    [YieldNew(Countdown(5)), YieldNew(WhilePred(Below4)), YieldNull, YieldNull, YieldNull,
     YieldNew(WhilePred(Below10))]
  }

  /** `counters[k]` is the counter during tick `k + 1`. */
  predicate Counters(counters: seq<int>) {
    |counters| >= 11 && forall k :: 0 <= k < |counters| ==> counters[k] == k + 2
  }

  /** Held by the countdown on ticks 1 to 4 and released on tick 5. */
  lemma CountdownPhase(counters: seq<int>)
    requires Counters(counters)
    ensures forall t :: 1 <= t <= 4 ==> Run(WaitRoutine(), Task(0, None), counters[..t]) == Task(1, Some(Countdown(5 - t)))
    ensures Run(WaitRoutine(), Task(0, None), counters[..5]) == Task(1, None)
  {
    forall t | 1 <= t <= 5
      ensures Run(WaitRoutine(), Task(0, None), counters[..t]) == Task(1, if 5 - t > 0 then Some(Countdown(5 - t)) else None)
    {
      CountdownTiming(WaitRoutine(), Task(0, None), 5, counters, t);
    }
  }

  /** One tick in which the task is not held before or after its step. */
  lemma TickFree(counters: seq<int>, k: nat, pc: nat)
    requires k < |counters| && Run(WaitRoutine(), Task(0, None), counters[..k]) == Task(pc, None)
    requires Step(WaitRoutine(), Task(pc, None), counters[k]).task == Task(pc + 1, None)
    ensures Run(WaitRoutine(), Task(0, None), counters[..k + 1]) == Task(pc + 1, None)
  {
    RunPrefix(WaitRoutine(), Task(0, None), counters, k);
  }

  /** Past the first `WaitWhile` (already false, the counter being 7) on
      tick 6, through the three `null`s on ticks 7 to 9, past the second
      `WaitWhile` (the counter being 11) on tick 10. */
  lemma RoutinePhase(counters: seq<int>)
    requires Counters(counters)
    ensures Run(WaitRoutine(), Task(0, None), counters[..6]) == Task(2, None)
    ensures Run(WaitRoutine(), Task(0, None), counters[..7]) == Task(3, None)
    ensures Run(WaitRoutine(), Task(0, None), counters[..8]) == Task(4, None)
    ensures Run(WaitRoutine(), Task(0, None), counters[..9]) == Task(5, None)
    ensures Run(WaitRoutine(), Task(0, None), counters[..10]) == Task(6, None)
  {
    CountdownPhase(counters);
    TickFree(counters, 5, 1);
    TickFree(counters, 6, 2);
    TickFree(counters, 7, 3);
    TickFree(counters, 8, 4);
    TickFree(counters, 9, 5);
  }

  /** The step of every tick from 1 to 10 answers true, and the step of
      tick 11 answers false: the scheduler removes the task then. */
  lemma Timeline(counters: seq<int>)
    requires Counters(counters)
    ensures forall k :: 0 <= k < 10 ==> Step(WaitRoutine(), Run(WaitRoutine(), Task(0, None), counters[..k]), counters[k]).alive
    ensures !Step(WaitRoutine(), Run(WaitRoutine(), Task(0, None), counters[..10]), counters[10]).alive
  {
    CountdownPhase(counters);
    RoutinePhase(counters);
    assert counters[..0] == [];
    forall k | 0 <= k < 10
      ensures Step(WaitRoutine(), Run(WaitRoutine(), Task(0, None), counters[..k]), counters[k]).alive
    {
      var t := Run(WaitRoutine(), Task(0, None), counters[..k]);
      if k == 0 {
        assert t == Task(0, None);
      } else if k < 5 {
        assert t.held.Some?;
      } else if k == 5 {
        assert t == Task(1, None);
      } else if k == 6 {
        assert t == Task(2, None);
      } else if k == 7 {
        assert t == Task(3, None);
      } else if k == 8 {
        assert t == Task(4, None);
      } else {
        assert t == Task(5, None);
      }
    }
  }
}
