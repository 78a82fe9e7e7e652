# Unity-style coroutine scheduler, modelled in Dafny

This project models a small, single-threaded, tick-driven coroutine scheduler in the style of a game engine. The original is one C# file, `main.cs`.

- **Wait primitives.** `YieldInstruction`, `WaitForFrames`, `CustomYieldInstruction` and `WaitWhile` are objects whose `MoveNext()` answers "still waiting".
- **`Coroutine`.** It wraps one routine, the iterator a C# `IEnumerator` method produces, and at most one held nested instruction. Each `MoveNext()` does one of two things:
  - it steps the held instruction;
  - or it advances the routine once and steps a freshly yielded instruction at once.
- **`MonoBehavior`.** It keeps the task list `m_DelayCallLst`. `StartCoroutine` appends and `StopCoroutine` removes. A tick (`MainLoop`) runs the `Update` hook, then `DoDelayCall`, then `LateUpdate`. `DoDelayCall` steps every task from the last index down to 0 and removes each task whose step answers false.

The model follows the source's imperative form:
- `WaitForFrames`, `WaitWhile`, `Coroutine` and `MonoBehavior` are classes with mutable fields;
- the backward loop of `DoDelayCall` is a `while` loop (`StepDown`) that removes from the task list in place.

Each method is proved against a pure specification:
- `WaitStep` specifies one `MoveNext` of an instruction;
- `Step` specifies one `Coroutine.MoveNext`;
- `Without` and `RemoveFirst` specify the list operations.

`Run`, the state after a sequence of ticks, is not the specification of any method. The timing lemmas and `Demo` use it to state what several ticks do.

Modules, one per file:
- `Sequences` (`sequences.dfy`): `List<T>.Remove` as `RemoveFirst`, the filter the backward loop performs as `Without`, and their properties.
- `Instructions` (`instructions.dfy`): the four instruction classes and their abstract state `Wait`.
- `Coroutines` (`coroutines.dfy`): the routine as a cursor `pc` over the items its `yield return` statements produce, the step function `Step`, and the `Coroutine` class.
- `Scheduling` (`scheduler.dfy`): the `MonoBehavior` class and the invariant of the stepping loop.
- `Demo` (`demo.dfy`): the timeline of the demo behaviour's routine `Wait`.

Modelling choices:
- **The routine.** It is the sequence of values it yields: `null`, a non-`IEnumerator` value, or `new` of one of the wait primitives. A `new` expression is evaluated when the routine is advanced, so every yield allocates a fresh instruction object.
- **Predicates.** `WaitWhile` predicates are functions of one integer of host state, the counter `m_i` that the demo's `Update` increments.
- **Hooks.** `MainLoop` takes the `Update` hook as a function on that integer. A ghost event log records the order of `Update`, the task steps and `LateUpdate`.

The demo's printed labels against the code's timeline. During tick `t` the counter `m_i` is `t + 1`, because `Update` prints `Tick ...... t` and then increments it:
- **`Begin at 6`** (main.cs:183) runs when the routine is advanced past the countdown. That happens on tick 6, when `m_i` is 7, so the first `WaitWhile(m_i < 4)` answers false at once and never holds.
- **`End at 10`** (main.cs:194) runs on tick 11, not tick 10. The second `WaitWhile(m_i < 10)` is yielded on tick 10, when `m_i` is 11, so it never holds either. The routine is next advanced on tick 11: it prints the label and runs off its end, the step answers false and the task is removed.
- `Demo.RoutinePhase` and `Demo.Timeline` state this timeline.

## Model

| member | source | states |
|---|---|---|
| `Instructions.WaitStep` | main.cs:78-115 | A countdown decrements and then answers "waiting" exactly when the new count is positive. A `WaitWhile` answers its predicate's current value and keeps its state. A bare `YieldInstruction` or `CustomYieldInstruction` answers false and is unchanged. |
| `Instructions.CountdownAnswersAt` | main.cs:78-82 | The `i`-th call on a fresh `WaitForFrames(n)` (counting from 0) answers true exactly when `i < n - 1`. |
| `Instructions.CountdownResolvesAfter` | main.cs:78-82 | Created with `n >= 1`, a countdown answers true exactly `n - 1` times and then false. Created with `n <= 1`, it answers false on its first call. |
| `Instructions.YieldInstruction.MoveNext` | main.cs:10-13 | The base instruction never waits. |
| `Instructions.WaitForFrames.constructor` | main.cs:73-76 | The counter starts at the given frame count. |
| `Instructions.WaitForFrames.MoveNext` | main.cs:78-82 | The counter drops by one, and the answer is true exactly when the new counter is positive. |
| `Instructions.CustomYieldInstruction.KeepWaiting` | main.cs:89 | The default `keepWaiting` gives the base class's abstract answer, false, at every host state. |
| `Instructions.CustomYieldInstruction.MoveNext` | main.cs:89-94 | The answer is `keepWaiting`, which defaults to false, so it never waits. |
| `Instructions.WaitWhile.constructor` | main.cs:104-107 | Stores the predicate. |
| `Instructions.WaitWhile.KeepWaiting` | main.cs:109-115 | The overriding `keepWaiting` is the abstract `WaitWhile` answer at the host state: the predicate evaluated afresh. |
| `Instructions.WaitWhile.MoveNext` | main.cs:109-115 | The answer is the predicate's value at the current host state; nothing changes. |
| `Instructions.NewInstruction` | main.cs:52 | The yielded value is a fresh instruction object in the requested initial state. |
| `Instructions.MoveNextOf` | main.cs:59 | The virtual `instruction.MoveNext()` call: its answer and the instruction's new state are those of `WaitStep`. |
| `Coroutines.Step` | main.cs:34-65 | With an instruction held, only the instruction is stepped: the answer is true, the routine does not move, and the instruction is cleared exactly when its step answers false. With none held, the routine is advanced exactly once. The answer is false exactly when the routine had finished, and nothing changes then. A yielded non-instruction leaves nothing held. A yielded instruction is stepped at once and kept only if that step answers true. The step never advances more than once, and it preserves the reachable-state invariant. |
| `Coroutines.CountdownTiming` | main.cs:36-64 | After yielding `WaitForFrames(n)`, the coroutine is held for the next `max(n, 1) - 1` ticks with the counter going down. It is free again after `max(n, 1)` ticks, so the routine is next advanced `max(n, 1)` ticks after the yield. |
| `Coroutines.WhileHolds` | main.cs:36-64 | After yielding `WaitWhile(p)`, the coroutine is still held after any number `k` of ticks on all of which `p` was true. A predicate that stays true holds it forever. |
| `Coroutines.WhileReleases` | main.cs:36-64 | After yielding `WaitWhile(p)`, the coroutine is free after the first tick, the yield tick included, on which `p` is false, so it is advanced on the next tick. |
| `Coroutines.Coroutine.constructor` | main.cs:29-32 | A new coroutine is at the start of its routine with nothing held. |
| `Coroutines.Coroutine.MoveNext` | main.cs:34-65 | The new state and the answer are exactly `Step` of the old state at the current host state. Only the coroutine and its held instruction change, and only fresh objects are added to its footprint. |
| `Sequences.RemoveFirst` | main.cs:138 | `List<T>.Remove`: the list gets one element shorter exactly when the element is present. No new element appears. |
| `Sequences.RemoveFirstAbsent` | main.cs:160 | Removing an absent element changes nothing. |
| `Sequences.RemoveFirstCount` | main.cs:160 | `Remove` deletes exactly one copy of a present element, as a multiset. |
| `Sequences.RemoveFirstAt` | main.cs:138 | When the element first occurs at index `i`, `Remove` deletes exactly index `i`. |
| `Sequences.RemoveFirstSubSeq` | main.cs:160 | `Remove` keeps the order of the remaining elements. |
| `Sequences.RemoveFirstIdempotent` | main.cs:158-161 | In a duplicate-free list, the removed element no longer occurs, and a second removal changes nothing. |
| `Sequences.WithoutMembers` | main.cs:133-140 | A task survives the filter exactly when it was in the list and is not removed. |
| `Sequences.WithoutSubSeq` | main.cs:133-140 | Survivors keep their relative order. |
| `Scheduling.VisitsReversed` | main.cs:133 | The visit log of a pass holds each task exactly once, in reverse list order. |
| `Scheduling.RemoveAtOwners` | main.cs:138 | When task `i` leaves the list and its objects leave the footprint, every coroutine still in the footprint is still in the list. |
| `Scheduling.ListStep` | main.cs:135-139 | One iteration at index `i` removes only index `i`, and only if its step answered false. The list stays the unvisited prefix followed by the filtered visited suffix. |
| `Scheduling.ProgressStep` | main.cs:133-140 | Visiting index `i` extends the processed suffix by one task. The lists, the removed set, the stepped states and the visit log all stay consistent. |
| `Scheduling.ProgressDone` | main.cs:133-140 | After index 0, the list is the start-of-tick list without the tasks whose step answered false. Every task has been stepped once from its start-of-tick state, and the log has one visit per task, the last first. |
| `Scheduling.MonoBehavior.constructor` | main.cs:121-126 | A new scheduler has an empty task list and owns no objects yet, so a client can tick it at once. |
| `Scheduling.MonoBehavior.StartCoroutine` | main.cs:150-156 | Appends a fresh coroutine to the end of the list, at the start of its routine with nothing held, and returns it. Nothing is stepped and nothing else changes. |
| `Scheduling.MonoBehavior.StopCoroutine` | main.cs:158-161 | The new list is `List.Remove` of the handle: its first occurrence goes, and an absent or stale handle changes nothing. The handle is no longer in the list, so a second stop is a no-op. A stopped task leaves the scheduler's footprint, still valid, so later ticks cannot touch it. |
| `Scheduling.MonoBehavior.TasksDistinct` | main.cs:150-156 | No task occurs twice in the list. |
| `Scheduling.MonoBehavior.Update` | main.cs:129 | The hook transforms the host state, and the tasks are unchanged. |
| `Scheduling.MonoBehavior.LateUpdate` | main.cs:130 | The hook changes no state. |
| `Scheduling.MonoBehavior.StepAt` | main.cs:135-136 | `m_DelayCallLst[i].MoveNext()` makes exactly the `Step` change to task `i`. Every other task is untouched, and the task invariant is kept. |
| `Scheduling.MonoBehavior.VisitAt` | main.cs:135-139 | One loop iteration steps task `i` and leaves every other task's state. It removes task `i` exactly when its step answered false, which is exactly when it had finished, and it logs the visit. |
| `Scheduling.MonoBehavior.VisitNext` | main.cs:133-140 | One loop iteration preserves the loop invariant, with the next index one lower. |
| `Scheduling.MonoBehavior.StepDown` | main.cs:133-140 | The backward loop establishes the invariant at index `-1`, that is, all tasks visited. |
| `Scheduling.MonoBehavior.TickDone` | main.cs:131-141 | The loop's final invariant gives the tick's list, states and log. |
| `Scheduling.MonoBehavior.DoDelayCall` | main.cs:131-141 | Every task present at tick start is stepped exactly once from its start-of-tick state, in reverse list order, as the log shows. Afterwards the list is the start-of-tick list without the tasks whose step answered false, in their order. Only listed tasks are in the footprint the tick may change, and a removed task leaves it. |
| `Scheduling.MonoBehavior.MainLoop` | main.cs:143-148 | One tick runs `Update`, then all task stepping, then `LateUpdate`, once each and in that order. The tasks are stepped at the host state that `Update` left. Coroutines that are off the list are outside what the tick may change. |
| `Scheduling.TickLeavesStopped` | main.cs:143-161 | A tick leaves a coroutine that is off the list, such as a stopped one, exactly as it was: its cursor, its held instruction and that instruction's counter. It stays valid and outside the scheduler's footprint. |
| `Demo.CountdownPhase` | main.cs:174-182 | The demo routine is held by its countdown on ticks 1 to 4, with 4, 3, 2 and 1 frames left, and is released on tick 5. |
| `Demo.RoutinePhase` | main.cs:180-195 | On tick 6 (counter 7) the routine passes the first `WaitWhile`, which never holds. It passes the three `null`s on ticks 7 to 9 and the second `WaitWhile` (counter 11) on tick 10. |
| `Demo.Timeline` | main.cs:165-195 | The demo task's step answers true on ticks 1 to 10 and false on tick 11, when the scheduler removes it. |

## Left out

- The driver `Test.Main`, with its twenty-iteration loop and `Thread.Sleep`, is a timing driver and is not modelled. Its effect is a sequence of `MainLoop` calls, which `Demo` describes tick by tick.
- `Console.WriteLine` output is not modelled.
- The virtual `Start` hook, called from the `MonoBehavior` constructor, is not modelled. The constructor takes the initial host state, and a client registers routines with `StartCoroutine`, as `TestMono.Start` does.
- `TestMono` is not a class of the model. Its routine is `Demo.WaitRoutine`, and its `Update` (`m_i++`) is the host counter passed to each tick.
- A routine has no side effects in the model, so it cannot call `StartCoroutine` or `StopCoroutine` while it is stepped. Two consequences:
  - "coroutines appended during stepping are not stepped until the next tick" holds trivially;
  - cancelling a task from inside `DoDelayCall` is excluded. In the original that can step a task twice or index past the end of the list.
- `StartCoroutine` stores the caller's `IEnumerator` reference. Two coroutines started on the same iterator share it in C#, so each one's step advances the other's routine. Here each `Coroutine` has its own cursor over a value sequence, so that sharing is not modelled. For the same reason the values a routine yields are fixed in advance: a yield computed from state at the time it is advanced, such as `new WaitForFrames(m_i)`, is not modelled.
- Yielding a `Coroutine`, or any `IEnumerator` other than the four wait primitives, as a nested instruction is not modelled. Each yield of an instruction creates a new object, so one instruction object shared between yields or tasks is not modelled either.
- `Reset` and `Current` of the instruction classes, and the iterator machinery the C# compiler generates, are replaced by the routine cursor.
- `m_Frames` is a `float` in the original. It only ever holds integers there, so it is an `int` here, and floating-point rounding is not modelled.
- The `Update` hook is a function on the host counter, so it cannot call `StartCoroutine` or `StopCoroutine` before the stepping pass, which the protected virtual `Update` (main.cs:129) could do in C#. Such calls are modelled only between ticks.
- Null references are excluded by the types. In C#, `StopCoroutine(null)` changes nothing, and `StartCoroutine(null)` appends a task whose first step throws a `NullReferenceException` at main.cs:49.
- `Func<bool>` predicates may read any state in C#. Here they read only the one integer of host state that `Update` changes.

