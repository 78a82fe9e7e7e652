/** The wait primitives a routine can yield: `YieldInstruction`,
    `WaitForFrames`, `CustomYieldInstruction` and `WaitWhile`. Each has a
    `MoveNext` whose result means "still waiting". Predicates read one
    integer of host state (the counter the host's `Update` advances). */
module Instructions {

  /** The abstract state of a wait primitive: its kind and its data. */
  datatype Wait =
    | PlainInstr                               // a bare `YieldInstruction`
    | Countdown(frames: int)                   // `WaitForFrames`, with `m_Frames`
    | CustomInstr                              // a bare `CustomYieldInstruction`
    | WhilePred(condition: int -> bool)        // `WaitWhile`, with its predicate

  datatype WaitResult = WaitResult(waiting: bool, after: Wait)

  /** One `MoveNext` call on a primitive in state `w`, with the host state at
      `host`: whether it is still waiting and its state afterwards. */
  function WaitStep(w: Wait, host: int): (r: WaitResult)
    ensures w.Countdown? ==> r.after == Countdown(w.frames - 1)
    ensures w.Countdown? ==> (r.waiting <==> r.after.frames > 0)
    ensures w.WhilePred? ==> r.after == w && r.waiting == w.condition(host)
    ensures w.PlainInstr? || w.CustomInstr? ==> r.after == w && !r.waiting
  {
    match w
    case PlainInstr => WaitResult(false, w)
    case Countdown(n) => WaitResult(n - 1 > 0, Countdown(n - 1))
    case CustomInstr => WaitResult(false, w)
    case WhilePred(p) => WaitResult(p(host), w)
  }

  /** The answers of `k` successive `MoveNext` calls on a fresh
      `WaitForFrames(n)`. */
  function CountdownAnswers(n: int, k: nat): (r: seq<bool>)
    ensures |r| == k
    decreases k
  {
    if k == 0 then []
    else
      var step := WaitStep(Countdown(n), 0);
      [step.waiting] + CountdownAnswers(step.after.frames, k - 1)
  }

  /** Decrement-then-test: the `i`-th call (from 0) says "still waiting"
      exactly when `i < n - 1`. */
  lemma {:induction false} CountdownAnswersAt(n: int, k: nat)
    ensures forall i :: 0 <= i < k ==> (CountdownAnswers(n, k)[i] <==> i < n - 1)
    decreases k
  {
    if k > 0 {
      CountdownAnswersAt(n - 1, k - 1);
      assert CountdownAnswers(n, k) == [n - 1 > 0] + CountdownAnswers(n - 1, k - 1);
    }
  }

  /** Created with `n >= 1`, a countdown answers true exactly `n - 1` times
      and then false; created with `n <= 1` it answers false at once. */
  lemma {:induction false} CountdownResolvesAfter(n: int)
    ensures n >= 1 ==> CountdownAnswers(n, n) == seq(n - 1, _ => true) + [false]
    ensures n <= 1 ==> CountdownAnswers(n, 1) == [false]
  {
    if n >= 1 {
      CountdownAnswersAt(n, n);
      assert CountdownAnswers(n, n) == seq(n - 1, _ => true) + [false];
    } else {
      CountdownAnswersAt(n, 1);
    }
  }

  /** The base instruction: never waits. */
  class YieldInstruction {
    constructor () {}

    method MoveNext() returns (waiting: bool)
      ensures !waiting
    {
      waiting := false;
    }
  }

  /** Waits a number of frames; `m_Frames` is a float in the original, but
      only ever holds integers. */
  class WaitForFrames {
    var frames: int

    constructor (frames0: int)
      ensures frames == frames0
    {
      frames := frames0;
    }

    /** Decrements first, then tests. */
    method MoveNext() returns (waiting: bool)
      modifies this
      ensures frames == old(frames) - 1
      ensures waiting <==> frames > 0
    {
      frames := frames - 1;
      waiting := frames > 0;
    }
  }

  /** The base of predicate-driven instructions; `keepWaiting` defaults to false. */
  class CustomYieldInstruction {
    constructor () {}

    /** `keepWaiting`: the base class never waits, whatever the host state. */
    predicate KeepWaiting(): (r: bool)
      ensures forall host :: r == WaitStep(CustomInstr, host).waiting
    {
      false
    }

    method MoveNext() returns (waiting: bool)
      ensures waiting == KeepWaiting()
      ensures !waiting
    {
      waiting := KeepWaiting();
    }
  }

  /** Waits while its predicate holds; stateless, the predicate is
      re-evaluated on every call. */
  class WaitWhile {
    const condition: int -> bool

    constructor (condition: int -> bool)
      ensures this.condition == condition
    {
      this.condition := condition;
    }

    /** `keepWaiting`: the predicate, evaluated afresh at the host state. */
    predicate KeepWaiting(host: int): (r: bool)
      ensures r == WaitStep(WhilePred(condition), host).waiting
    {
      condition(host)
    }

    method MoveNext(host: int) returns (waiting: bool)
      ensures waiting == condition(host)
    {
      waiting := KeepWaiting(host);
    }
  }

  /** A reference to one of the four instruction classes: the closed set of
      `IEnumerator`s a routine may yield in this model. */
  datatype Instruction =
    | Plain(plain: YieldInstruction)
    | Frames(countdown: WaitForFrames)
    | Custom(custom: CustomYieldInstruction)
    | While(wait: WaitWhile)

  /** The objects whose fields an instruction's `MoveNext` may change. */
  function Objects(ins: Instruction): (r: set<object>)
  {
    if ins.Frames? then {ins.countdown} else {}
  }

  /** The abstract state of the instruction an `Instruction` refers to. */
  ghost function View(ins: Instruction): (r: Wait)
    reads Objects(ins)
  {
    match ins
    case Plain(_) => PlainInstr
    case Frames(f) => Countdown(f.frames)
    case Custom(_) => CustomInstr
    case While(w) => WhilePred(w.condition)
  }

  /** Evaluates the `new` expression a routine yields. */
  method NewInstruction(w: Wait) returns (ins: Instruction)
    ensures fresh(Objects(ins))
    ensures View(ins) == w
  {
    match w
    case PlainInstr =>
      var y := new YieldInstruction();
      ins := Plain(y);
    case Countdown(n) =>
      var f := new WaitForFrames(n);
      ins := Frames(f);
    case CustomInstr =>
      var c := new CustomYieldInstruction();
      ins := Custom(c);
    case WhilePred(p) =>
      var x := new WaitWhile(p);
      ins := While(x);
  }

  /** The virtual call `instruction.MoveNext()`, dispatched on the class. */
  method MoveNextOf(ins: Instruction, host: int) returns (waiting: bool)
    modifies Objects(ins)
    ensures var r := WaitStep(old(View(ins)), host); waiting == r.waiting && View(ins) == r.after
  {
    match ins
    case Plain(y) => waiting := y.MoveNext();
    case Frames(f) => waiting := f.MoveNext();
    case Custom(c) => waiting := c.MoveNext();
    case While(x) => waiting := x.MoveNext(host);
  }
}
