/** `MonoBehavior`: the task list, registration and cancellation, and the
    tick, which runs the `Update` hook, steps every task once from the back
    of the list and runs the `LateUpdate` hook. */
module Scheduling {
  import opened Sequences
  import opened Instructions
  import opened Coroutines

  /** What a tick does, in order, recorded in a ghost log. */
  datatype Event = Updated | Stepped(task: Coroutine) | LateUpdated

  /** The step events of one stepping pass over `ts`: the last task first. */
  function Visits(ts: seq<Coroutine>): (r: seq<Event>)
  {
    if ts == [] then [] else Visits(ts[1..]) + [Stepped(ts[0])]
  }

  /** Each task is stepped exactly once, in reverse list order. */
  lemma {:induction false} VisitsReversed(ts: seq<Coroutine>)
    ensures |Visits(ts)| == |ts|
    ensures forall k :: 0 <= k < |ts| ==> Visits(ts)[k] == Stepped(ts[|ts| - 1 - k])
  {
    if ts != [] {
      VisitsReversed(ts[1..]);
    }
  }

  /** Every task of `ts` is in a valid state, owns only objects of `R`, and
      no two tasks share an object (so no task occurs twice and no
      instruction is shared). */
  ghost predicate TasksValid(ts: seq<Coroutine>, R: set<object>)
    reads R
  {
    (forall i :: 0 <= i < |ts| ==> ts[i] in R) &&
    (forall i :: 0 <= i < |ts| ==> ts[i].Repr() <= R && ts[i].Valid()) &&
    (forall i, j :: 0 <= i < j < |ts| ==> ts[i].Repr() !! ts[j].Repr())
  }

  lemma AppendValid(ts: seq<Coroutine>, R: set<object>, c: Coroutine)
    requires TasksValid(ts, R) && c.Valid() && c.Repr() !! R
    ensures TasksValid(ts + [c], R + c.Repr())
  {
  }

  lemma RemoveAtValid(ts: seq<Coroutine>, R: set<object>, i: nat)
    requires TasksValid(ts, R) && i < |ts|
    ensures TasksValid(ts[..i] + ts[i + 1..], R - ts[i].Repr())
  {
  }

  /** Taking task `i` and its objects out of the footprint keeps the only
      coroutines in it listed ones. */
  lemma RemoveAtOwners(ts: seq<Coroutine>, R: set<object>, i: nat)
    requires i < |ts| && ts[i] in ts[i].Repr()
    requires forall c: Coroutine :: c in R ==> c in ts
    ensures forall c: Coroutine :: c in R - ts[i].Repr() ==> c in ts[..i] + ts[i + 1..]
  {
    forall c: Coroutine | c in R - ts[i].Repr()
      ensures c in ts[..i] + ts[i + 1..]
    {
      var j :| 0 <= j < |ts| && ts[j] == c;
      if j < i {
        assert (ts[..i] + ts[i + 1..])[j] == c;
      } else {
        assert (ts[..i] + ts[i + 1..])[j - 1] == c;
      }
    }
  }

  /** What the stepping loop keeps, on values: `i` is the next index to
      visit, `start` and `now` the states of the tasks of `orig` at tick
      start and now, `gone` the tasks removed so far and `log0` the log at
      tick start. */
  ghost predicate Progress(orig: seq<Coroutine>, start: seq<Task>, now: seq<Task>, host: int,
                           tasks: seq<Coroutine>, gone: set<Coroutine>, i: int,
                           log: seq<Event>, log0: seq<Event>)
  {
    -1 <= i < |orig| && |start| == |orig| && |now| == |orig| && Distinct(orig) &&
    tasks == orig[..i + 1] + Without(orig[i + 1..], gone) &&
    (forall k :: i < k < |orig| ==> (orig[k] in gone <==> Finished(orig[k].routine, start[k]))) &&
    (forall c :: c in gone ==> c in orig[i + 1..]) &&
    (forall k :: 0 <= k <= i ==> now[k] == start[k]) &&
    (forall k :: i < k < |orig| ==> now[k] == Step(orig[k].routine, start[k], host).task) &&
    log == log0 + Visits(orig[i + 1..])
  }

  /** The list bookkeeping of one iteration of the backward loop: visiting
      index `i` extends the filtered suffix by one element. */
  lemma ListStep(orig: seq<Coroutine>, i: nat, gone: set<Coroutine>,
                 before: seq<Coroutine>, after: seq<Coroutine>, alive: bool)
    requires Distinct(orig) && i < |orig|
    requires forall c :: c in gone ==> c in orig[i + 1..]
    requires before == orig[..i + 1] + Without(orig[i + 1..], gone)
    requires after == if alive then before else before[..i] + before[i + 1..]
    ensures after == orig[..i] + Without(orig[i..], if alive then gone else gone + {orig[i]})
  {
    var call := orig[i];
    var rest := Without(orig[i + 1..], gone);
    assert call !in orig[i + 1..] by {
      forall k | i < k < |orig| ensures orig[k] != call {}
    }
    assert orig[i..][0] == call && orig[i..][1..] == orig[i + 1..];
    assert orig[..i + 1] == orig[..i] + [call];
    if alive {
      assert Without(orig[i..], gone) == [call] + rest;
    } else {
      WithoutIgnoresAbsent(orig[i + 1..], gone, call);
      assert Without(orig[i..], gone + {call}) == rest;
      assert before[..i] == orig[..i];
      assert before[i + 1..] == rest;
    }
  }

  /** Visiting index `i` (stepping it, removing it if it answers false and
      logging the visit) extends the processed suffix by one task. */
  lemma ProgressStep(orig: seq<Coroutine>, start: seq<Task>, now: seq<Task>, now': seq<Task>, host: int,
                     tasks: seq<Coroutine>, tasks': seq<Coroutine>, gone: set<Coroutine>, i: nat,
                     log: seq<Event>, log': seq<Event>, log0: seq<Event>, alive: bool)
    requires Progress(orig, start, now, host, tasks, gone, i, log, log0)
    requires |now'| == |orig| && forall k :: 0 <= k < |orig| && k != i ==> now'[k] == now[k]
    requires now'[i] == Step(orig[i].routine, now[i], host).task
    requires alive == !Finished(orig[i].routine, now[i])
    requires tasks' == if alive then tasks else tasks[..i] + tasks[i + 1..]
    requires log' == log + [Stepped(orig[i])]
    ensures Progress(orig, start, now', host, tasks', if alive then gone else gone + {orig[i]}, i - 1, log', log0)
  {
    ListStep(orig, i, gone, tasks, tasks', alive);
    var gone' := if alive then gone else gone + {orig[i]};
    assert orig[i] !in orig[i + 1..] by {
      forall k | i < k < |orig| ensures orig[k] != orig[i] {}
    }
    forall k | i <= k < |orig|
      ensures orig[k] in gone' <==> Finished(orig[k].routine, start[k])
      ensures now'[k] == Step(orig[k].routine, start[k], host).task
    {
      if k > i {
        assert orig[k] != orig[i];
      }
    }
    forall c | c in gone'
      ensures c in orig[i..]
    {
      if c != orig[i] {
        var k :| i + 1 <= k < |orig| && orig[k] == c;
        assert orig[i..][k - i] == c;
      }
    }
    assert orig[i..][0] == orig[i] && orig[i..][1..] == orig[i + 1..];
    assert Visits(orig[i..]) == Visits(orig[i + 1..]) + [Stepped(orig[i])];
  }

  /** At the end of the loop every task has been visited: the list is the
      survivors in their order, every state has been stepped once and the
      log holds one visit per task, the last first. */
  lemma ProgressDone(orig: seq<Coroutine>, start: seq<Task>, now: seq<Task>, host: int,
                     tasks: seq<Coroutine>, gone: set<Coroutine>, log: seq<Event>, log0: seq<Event>)
    requires Progress(orig, start, now, host, tasks, gone, -1, log, log0)
    ensures tasks == Without(orig, gone) && log == log0 + Visits(orig)
    ensures forall k :: 0 <= k < |orig| ==> now[k] == Step(orig[k].routine, start[k], host).task
    ensures gone == FinishedAmong(orig, start)
  {
  }

  /** The tasks of `ts` that are finished in the states `states`. */
  ghost function FinishedAmong(ts: seq<Coroutine>, states: seq<Task>): (r: set<Coroutine>)
    requires |states| == |ts|
  {
    set k | 0 <= k < |ts| && Finished(ts[k].routine, states[k]) :: ts[k]
  }

  /** The tasks finished at the start of a tick: those whose step answers false. */
  ghost function Finishing(ts: seq<Coroutine>): (r: set<Coroutine>)
    reads ts
  {
    set c | c in ts && Finished(c.routine, c.state)
  }

  /** The same set, read off a snapshot of the task states. */
  lemma FinishingAmong(ts: seq<Coroutine>)
    ensures Finishing(ts) == FinishedAmong(ts, StatesOf(ts))
  {
  }

  /** A snapshot of the abstract states of the tasks of `ts`. */
  ghost function StatesOf(ts: seq<Coroutine>): (r: seq<Task>)
    reads ts
    ensures |r| == |ts| && forall k :: 0 <= k < |ts| ==> r[k] == ts[k].state
  {
    if ts == [] then [] else [ts[0].state] + StatesOf(ts[1..])
  }

  class MonoBehavior {
    /** `m_DelayCallLst`. */
    var tasks: seq<Coroutine>
    /** The host state that the update hook advances and predicates read. */
    var host: int
    ghost var log: seq<Event>
    /** Every object the scheduler's tasks own, and possibly instructions
        they have released; the only coroutines in it are listed tasks. */
    ghost var Repr: set<object>

    ghost predicate Valid()
      reads this, Repr
    {
      this !in Repr && TasksValid(tasks, Repr) &&
      forall c: Coroutine :: c in Repr ==> c in tasks
    }

    constructor (host0: int)
      ensures Valid() && tasks == [] && host == host0 && log == [] && Repr == {}
    {
      tasks := [];
      Repr := {};
      host := host0;
      log := [];
    }

    /** Registers a routine; the new task is not stepped until the next tick. */
    method StartCoroutine(routine: seq<Item>) returns (c: Coroutine)
      requires Valid()
      modifies this
      ensures Valid() && fresh(Repr - old(Repr))
      ensures fresh(c) && c.routine == routine && c.state == Task(0, None)
      ensures tasks == old(tasks) + [c]
      ensures host == old(host) && log == old(log)
    {
      c := new Coroutine(routine);
      AppendValid(tasks, Repr, c);
      tasks := tasks + [c];
      Repr := Repr + c.Repr();
    }

    /** Removes a task if present; a stale or absent handle changes nothing. */
    method StopCoroutine(c: Coroutine)
      requires Valid()
      modifies this
      ensures Valid() && Repr == if c in old(tasks) then old(Repr) - c.Repr() else old(Repr)
      ensures tasks == RemoveFirst(old(tasks), c)
      ensures c !in tasks
      ensures c in old(tasks) ==> c.Valid() && c.Repr() !! Repr
      ensures host == old(host) && log == old(log)
    {
      TasksDistinct();
      RemoveFirstIdempotent(tasks, c);
      if c in tasks {
        var i :| 0 <= i < |tasks| && tasks[i] == c;
        assert c !in tasks[..i];
        RemoveFirstAt(tasks, c, i);
        RemoveAtValid(tasks, Repr, i);
        RemoveAtOwners(tasks, Repr, i);
        Repr := Repr - c.Repr();
      } else {
        RemoveFirstAbsent(tasks, c);
      }
      tasks := RemoveFirst(tasks, c);
    }

    lemma TasksDistinct()
      requires Valid()
      ensures Distinct(tasks)
    {
    }

    /** The host's per-tick hook, as a transformation of the host state. */
    method Update(update: int -> int)
      requires Valid()
      modifies this
      ensures Valid() && Repr == old(Repr)
      ensures host == update(old(host)) && log == old(log) + [Updated]
      ensures tasks == old(tasks)
    {
      host := update(host);
      log := log + [Updated];
    }

    /** The post-stepping hook, empty in the original. */
    method LateUpdate()
      requires Valid()
      modifies this
      ensures Valid() && Repr == old(Repr)
      ensures log == old(log) + [LateUpdated]
      ensures tasks == old(tasks) && host == old(host)
    {
      log := log + [LateUpdated];
    }

    /** `m_DelayCallLst[i].MoveNext()`: steps one task and leaves every other
        untouched; the task may come to own a fresh instruction. */
    method StepAt(i: nat) returns (alive: bool)
      requires Valid() && i < |tasks|
      modifies tasks[i].Repr()
      ensures TasksValid(tasks, Repr + tasks[i].Repr())
      ensures fresh(tasks[i].Repr() - old(tasks[i].Repr()))
      ensures Outcome(tasks[i].state, alive) == Step(tasks[i].routine, old(tasks[i].state), host)
    {
      var call := tasks[i];
      label before:
      alive := call.MoveNext(host);
      ghost var R := Repr + call.Repr();
      forall k | 0 <= k < |tasks|
        ensures tasks[k] in R && tasks[k].Repr() <= R && tasks[k].Valid()
      {
        if k != i {
          assert tasks[k].Repr() !! old(call.Repr());
          assert tasks[k] in old(tasks[k].Repr());
        }
      }
      forall k, l | 0 <= k < l < |tasks|
        ensures tasks[k].Repr() !! tasks[l].Repr()
      {
        if k != i && l != i {
          assert tasks[k] in old(tasks[k].Repr());
          assert tasks[l] in old(tasks[l].Repr());
        } else if k != i {
          assert tasks[k] in old(tasks[k].Repr());
        } else {
          assert tasks[l] in old(tasks[l].Repr());
        }
      }
    }

    /** One iteration of the stepping loop: steps `m_DelayCallLst[i]` and,
        if it answers false, removes it with `Remove`. `orig` is the list at
        tick start. */
    method VisitAt(i: nat, ghost orig: seq<Coroutine>) returns (alive: bool)
      requires Valid() && i < |tasks| && i < |orig| && tasks[i] == orig[i]
      modifies this, tasks[i].Repr()
      ensures Valid() && fresh(Repr - old(Repr))
      ensures host == old(host)
      ensures forall k :: 0 <= k < |orig| && orig[k] != orig[i] ==> orig[k].state == old(orig[k].state)
      ensures orig[i].state == Step(orig[i].routine, old(orig[i].state), host).task
      ensures alive == !Finished(orig[i].routine, old(orig[i].state))
      ensures tasks == if alive then old(tasks) else old(tasks)[..i] + old(tasks)[i + 1..]
      ensures log == old(log) + [Stepped(orig[i])]
    {
      var call := tasks[i];
      TasksDistinct();
      assert call !in tasks[..i];
      alive := StepAt(i);
      Repr := Repr + call.Repr();
      if !alive {
        RemoveFirstAt(tasks, call, i);
        RemoveAtValid(tasks, Repr, i);
        RemoveAtOwners(tasks, Repr, i);
        Repr := Repr - call.Repr();
        tasks := RemoveFirst(tasks, call);
      }
      log := log + [Stepped(call)];
    }

    /** One iteration of the stepping loop, stated as the step of its invariant. */
    method VisitNext(i: nat, ghost orig: seq<Coroutine>, ghost start: seq<Task>,
                     ghost gone: set<Coroutine>, ghost log0: seq<Event>) returns (ghost goneNext: set<Coroutine>)
      requires Valid() && Progress(orig, start, StatesOf(orig), host, tasks, gone, i, log, log0)
      modifies this, tasks[i].Repr()
      ensures Valid() && fresh(Repr - old(Repr)) && host == old(host)
      ensures Progress(orig, start, StatesOf(orig), host, tasks, goneNext, i - 1, log, log0)
    {
      assert tasks[..i + 1] == orig[..i + 1];
      assert tasks[i] == orig[i];
      ghost var now := StatesOf(orig);
      ghost var tasks0, log1 := tasks, log;
      var alive := VisitAt(i, orig);
      forall k | 0 <= k < |orig| && k != i
        ensures orig[k] != orig[i]
      {
      }
      ProgressStep(orig, start, now, StatesOf(orig), host, tasks0, tasks, gone, i, log1, log, log0, alive);
      goneNext := if alive then gone else gone + {orig[i]};
    }

    /** The end of the stepping loop: the list is the survivors, every task
        of `orig` has been stepped once from its state in `start`, and the
        log holds one visit per task, the last first. */
    lemma TickDone(orig: seq<Coroutine>, start: seq<Task>, gone: set<Coroutine>, log0: seq<Event>)
      requires Progress(orig, start, StatesOf(orig), host, tasks, gone, -1, log, log0)
      ensures log == log0 + Visits(orig)
      ensures forall k :: 0 <= k < |orig| ==> orig[k].state == Step(orig[k].routine, start[k], host).task
      ensures tasks == Without(orig, FinishedAmong(orig, start))
    {
      ProgressDone(orig, start, StatesOf(orig), host, tasks, gone, log, log0);
    }

    /** The loop `for (i = Count - 1; i >= 0; i--)` of `DoDelayCall`, from
        the index `i` down; `orig`, `start` and `log0` are the list, the
        task states and the log at tick start. */
    method StepDown(i: int, ghost orig: seq<Coroutine>, ghost start: seq<Task>,
                    ghost gone: set<Coroutine>, ghost log0: seq<Event>) returns (ghost goneEnd: set<Coroutine>)
      requires Valid() && Progress(orig, start, StatesOf(orig), host, tasks, gone, i, log, log0)
      modifies this, Repr
      ensures Valid() && fresh(Repr - old(Repr)) && host == old(host)
      ensures Progress(orig, start, StatesOf(orig), host, tasks, goneEnd, -1, log, log0)
    {
      var j := i;
      goneEnd := gone;
      while j >= 0
        invariant Valid() && fresh(Repr - old(Repr)) && host == old(host)
        invariant Progress(orig, start, StatesOf(orig), host, tasks, goneEnd, j, log, log0)
      {
        goneEnd := VisitNext(j, orig, start, goneEnd, log0);
        j := j - 1;
      }
    }

    /** Steps every task present at the start, from the last to the first,
        removing each whose step answers false. */
    method DoDelayCall()
      requires Valid()
      modifies this, Repr
      ensures Valid() && fresh(Repr - old(Repr))
      ensures host == old(host)
      ensures log == old(log) + Visits(old(tasks))
      ensures forall k :: 0 <= k < |old(tasks)| ==>
                old(tasks)[k].state == Step(old(tasks)[k].routine, old(tasks[k].state), host).task
      ensures tasks == Without(old(tasks), old(Finishing(tasks)))
    {
      ghost var orig := tasks;
      ghost var start := StatesOf(orig);
      FinishingAmong(orig);
      TasksDistinct();
      assert orig[..0] == [] && orig[0..] == orig;
      ghost var gone := StepDown(|tasks| - 1, orig, start, {}, log);
      TickDone(orig, start, gone, old(log));
    }

    /** One tick: `Update`, then all task stepping, then `LateUpdate`. */
    method MainLoop(update: int -> int)
      requires Valid()
      modifies this, Repr
      ensures Valid() && fresh(Repr - old(Repr))
      ensures host == update(old(host))
      ensures log == old(log) + [Updated] + Visits(old(tasks)) + [LateUpdated]
      ensures forall k :: 0 <= k < |old(tasks)| ==>
                old(tasks)[k].state == Step(old(tasks)[k].routine, old(tasks[k].state), host).task
      ensures tasks == Without(old(tasks), old(Finishing(tasks)))
    {
      Update(update);
      DoDelayCall();
      LateUpdate();
    }
  }

  /** A coroutine that is off the list, for instance one `StopCoroutine`
      has removed, is outside the scheduler's footprint: a tick leaves it,
      and the instruction it holds, exactly as they were, so it can still be
      stepped by hand. */
  method TickLeavesStopped(m: MonoBehavior, c: Coroutine, update: int -> int)
    requires m.Valid() && c.Valid() && c !in m.tasks && c.Repr() !! m.Repr
    modifies m, m.Repr
    ensures m.Valid() && c.Valid() && c.Repr() !! m.Repr
    ensures c.pc == old(c.pc) && c.cur == old(c.cur) && c.state == old(c.state)
    ensures c.cur.Some? && c.cur.value.Frames? ==> c.cur.value.countdown.frames == old(c.cur.value.countdown.frames)
  {
    m.MainLoop(update);
  }
}
