/** `Coroutine`: one routine plus at most one held nested instruction, and
    its step state machine. The routine, a compiler-generated iterator in
    the original, is an explicit cursor `pc` over the sequence of values its
    `yield return` statements produce. */
module Coroutines {
  import opened Instructions

  datatype Option<T> = None | Some(value: T)

  /** What one `yield return` produces. */
  datatype Item =
    | YieldNull                 // `yield return null`: suspend one tick
    | YieldValue(v: int)        // a value that is not an `IEnumerator`: same as null
    | YieldNew(init: Wait)      // `yield return new ...` of a wait primitive

  /** The abstract state of a coroutine: how many yields its routine has
      passed, and the state of the held instruction (`m_CurInstruction`). */
  datatype Task = Task(pc: nat, held: Option<Wait>)

  /** The result of one `Coroutine.MoveNext`: the new state and whether the
      coroutine is still active. */
  datatype Outcome = Outcome(task: Task, alive: bool)

  /** A held instruction is one whose last step said "still waiting". */
  predicate Holding(w: Wait) {
    (w.Countdown? && w.frames > 0) || w.WhilePred?
  }

  /** The states a coroutine can reach: the cursor stays within its routine
      and a held instruction is one still waiting. */
  predicate ValidTask(routine: seq<Item>, t: Task) {
    t.pc <= |routine| && (t.held.Some? ==> Holding(t.held.value))
  }

  /** The routine has run to its end and nothing is held. */
  predicate Finished(routine: seq<Item>, t: Task) {
    t.held.None? && t.pc >= |routine|
  }

  /** Advancing the routine's iterator once: its `MoveNext` (false at the
      end) and its `Current`. */
  function Advance(routine: seq<Item>, pc: nat): (r: Option<Item>)
  {
    if pc < |routine| then Some(routine[pc]) else None
  }

  /** One `Coroutine.MoveNext` with the host state at `host`. */
  function Step(routine: seq<Item>, t: Task, host: int): (r: Outcome)
    // Suspended: the held instruction is stepped, the routine is not advanced,
    // the result is true, and the instruction is cleared once it resolves.
    ensures t.held.Some? ==> r.alive && r.task.pc == t.pc
    ensures t.held.Some? ==>
              var s := WaitStep(t.held.value, host);
              r.task.held == (if s.waiting then Some(s.after) else None)
    // Running: the routine is advanced exactly once; false only at its end.
    ensures t.held.None? ==> (r.alive <==> t.pc < |routine|)
    ensures t.held.None? && t.pc < |routine| ==> r.task.pc == t.pc + 1
    ensures t.held.None? && t.pc < |routine| && !routine[t.pc].YieldNew? ==> r.task.held.None?
    // A yielded instruction is stepped at once, and kept only if still waiting.
    ensures t.held.None? && t.pc < |routine| && routine[t.pc].YieldNew? ==>
              var s := WaitStep(routine[t.pc].init, host);
              r.task.held == (if s.waiting then Some(s.after) else None)
    // Never more than one advance; false exactly when finished, and then nothing moves.
    ensures r.task.pc <= t.pc + 1
    ensures !r.alive <==> Finished(routine, t)
    ensures !r.alive ==> r.task == t
    ensures ValidTask(routine, t) ==> ValidTask(routine, r.task)
  {
    match t.held
    case Some(w) =>
      var s := WaitStep(w, host);
      Outcome(Task(t.pc, if s.waiting then Some(s.after) else None), true)
    case None =>
      match Advance(routine, t.pc)
      case None => Outcome(t, false)
      case Some(item) =>
        match item
        case YieldNew(init) =>
          var s := WaitStep(init, host);
          Outcome(Task(t.pc + 1, if s.waiting then Some(s.after) else None), true)
        case _ => Outcome(Task(t.pc + 1, None), true)
  }

  /** The state after one step per entry of `hosts`, the host state of each tick. */
  function Run(routine: seq<Item>, t: Task, hosts: seq<int>): (r: Task)
  {
    if hosts == [] then t
    else Step(routine, Run(routine, t, hosts[..|hosts| - 1]), hosts[|hosts| - 1]).task
  }

  lemma RunPrefix(routine: seq<Item>, t: Task, hosts: seq<int>, k: nat)
    requires k < |hosts|
    ensures Run(routine, t, hosts[..k + 1]) == Step(routine, Run(routine, t, hosts[..k]), hosts[k]).task
  {
    assert hosts[..k + 1][..k] == hosts[..k];
  }

  /** A routine that yields `WaitForFrames(n)` on a step is held for the next
      `max(n, 1) - 1` steps and is running again, past that yield, after
      `max(n, 1)` steps: it is next advanced `max(n, 1)` ticks later. */
  lemma {:induction false} CountdownTiming(routine: seq<Item>, t: Task, n: int, hosts: seq<int>, k: nat)
    requires t.held.None? && t.pc < |routine| && routine[t.pc] == YieldNew(Countdown(n))
    requires 1 <= k <= |hosts| && k <= Max1(n)
    ensures Run(routine, t, hosts[..k]) ==
              Task(t.pc + 1, if n - k > 0 then Some(Countdown(n - k)) else None)
    ensures k < Max1(n) ==> Run(routine, t, hosts[..k]).held.Some?
    ensures k == Max1(n) ==> Run(routine, t, hosts[..k]) == Task(t.pc + 1, None)
  {
    RunPrefix(routine, t, hosts, k - 1);
    if k == 1 {
      assert hosts[..0] == [];
    } else {
      CountdownTiming(routine, t, n, hosts, k - 1);
    }
  }

  function Max1(n: int): (r: int) { if n > 1 then n else 1 }

  /** A routine that yields `WaitWhile(p)` on a step stays held, past that
      yield, for as long as `p` is true: after `k` steps it is still held
      whenever `p` held on each of those `k` ticks, however large `k` is. */
  lemma {:induction false} WhileHolds(routine: seq<Item>, t: Task, p: int -> bool, hosts: seq<int>, k: nat)
    requires t.held.None? && t.pc < |routine| && routine[t.pc] == YieldNew(WhilePred(p))
    requires 1 <= k <= |hosts| && forall i :: 0 <= i < k ==> p(hosts[i])
    ensures Run(routine, t, hosts[..k]) == Task(t.pc + 1, Some(WhilePred(p)))
  {
    RunPrefix(routine, t, hosts, k - 1);
    if k == 1 {
      assert hosts[..0] == [];
    } else {
      WhileHolds(routine, t, p, hosts, k - 1);
    }
  }

  /** A routine that yields `WaitWhile(p)` is running again, past that yield,
      after the first tick (the yield tick included) on which `p` is false. */
  lemma WhileReleases(routine: seq<Item>, t: Task, p: int -> bool, hosts: seq<int>, j: nat)
    requires t.held.None? && t.pc < |routine| && routine[t.pc] == YieldNew(WhilePred(p))
    requires j < |hosts| && !p(hosts[j]) && forall i :: 0 <= i < j ==> p(hosts[i])
    ensures Run(routine, t, hosts[..j + 1]) == Task(t.pc + 1, None)
  {
    RunPrefix(routine, t, hosts, j);
    if j == 0 {
      assert hosts[..0] == [];
    } else {
      WhileHolds(routine, t, p, hosts, j);
    }
  }

  /** A task of the scheduler: `Coroutine` with `m_Routine` as the cursor
      `pc` over `routine` and `m_CurInstruction` as `cur`. */
  class Coroutine {
    const routine: seq<Item>
    var pc: nat
    var cur: Option<Instruction>
    ghost var state: Task

    ghost function Repr(): set<object>
      reads this
    {
      {this} + (if cur.Some? then Objects(cur.value) else {})
    }

    ghost predicate Valid()
      reads this, Repr()
    {
      state == Task(pc, if cur.Some? then Some(View(cur.value)) else None) &&
      ValidTask(routine, state)
    }

    constructor (routine: seq<Item>)
      ensures Valid() && this.routine == routine
      ensures state == Task(0, None)
    {
      this.routine := routine;
      pc := 0;
      cur := None;
      state := Task(0, None);
    }

    method MoveNext(host: int) returns (alive: bool)
      requires Valid()
      modifies Repr()
      ensures Valid()
      ensures fresh(Repr() - old(Repr()))
      ensures Outcome(state, alive) == Step(routine, old(state), host)
    {
      if cur.Some? {
        var waiting := MoveNextOf(cur.value, host);
        if !waiting {
          cur := None;
        }
        state := Task(pc, if cur.Some? then Some(View(cur.value)) else None);
        return true;
      }
      if pc == |routine| {
        return false;
      }
      var item := routine[pc];
      pc := pc + 1;
      match item {
        case YieldNew(init) =>
          var ins := NewInstruction(init);
          var waiting := MoveNextOf(ins, host);
          if waiting {
            cur := Some(ins);
          }
        case _ =>
      }
      state := Task(pc, if cur.Some? then Some(View(cur.value)) else None);
      alive := true;
    }
  }
}
