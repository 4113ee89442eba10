/** The runtime in a build without overflow checks, where u64 arithmetic wraps
    around: exactly when it behaves like a checked one, and what the programs
    compute when it does not. */
module MaroonWrapping {
  import opened MaroonMachine
  import opened MaroonPrograms
  import opened MaroonTyping

  const WORD: int := 0x1_0000_0000_0000_0000

  function Wrap(x: int): u64 {
    x % WORD
  }

  /** The transition table; only the states with arithmetic differ. */
  function WrappingStep(state: TaskState, vars: seq<StackValue>, heap: Heap): (StepResult, Heap) {
    match state
    case DivisorsTaskIteration =>
      if heap.Divisors? && LargestDivisor(heap.n, heap.i) > 0 then
        var i := LargestDivisor(heap.n, heap.i);
        (Sleep(Wrap(i * 10), [State(DivisorsPrintAndMoveOn)]), heap.(i := i))
      else GlobalStep(state, vars, heap)
    case DivisorsPrintAndMoveOn =>
      if heap.Divisors? then
        (Write(DivisorFound(heap.n, heap.i), [State(DivisorsTaskIteration)]), heap.(i := Wrap(heap.i - 1)))
      else GlobalStep(state, vars, heap)
    case FibonacciTaskCalculate =>
      if heap.Fibonacci? && heap.index < heap.n then
        (Write(FibonacciStep(heap.n, heap.index, heap.b), [State(FibonacciTaskStep)]),
         heap.(delayMs := Wrap(5 * heap.index)))
      else GlobalStep(state, vars, heap)
    case FibonacciTaskStep =>
      if heap.Fibonacci? then
        (Sleep(heap.delayMs, [State(FibonacciTaskCalculate)]),
         heap.(index := Wrap(heap.index + 1), a := heap.b, b := Wrap(heap.a + heap.b)))
      else GlobalStep(state, vars, heap)
    case FactorialRecursionPostWrite =>
      if |vars| >= 1 && vars[0].FactorialArgument? then
        (Sleep(Wrap(vars[0].k * 50), [Value(vars[0]), State(FactorialRecursionPostSleep)]), heap)
      else GlobalStep(state, vars, heap)
    case FactorialRecursionPostRecursiveCall =>
      if |vars| >= 2 && vars[0].FactorialReturnValue? && vars[1].FactorialArgument? then
        (Return(FactorialReturnValue(Wrap(vars[0].r * vars[1].k))), heap)
      else GlobalStep(state, vars, heap)
    case _ => GlobalStep(state, vars, heap)
  }

  function WrappingApply(rest: seq<StackEntry>, result: StepResult, heap: Heap, ts: u64): Snapshot {
    match result
    case Sleep(ms, entries) => Snapshot(Active(Task(rest + entries, heap), Wrap(ts + ms)), [])
    case _ => Apply(rest, result, heap, ts)
  }

  function WrappingTaskStep(task: Task, ts: u64): Snapshot {
    var stack := task.stack;
    if stack == [] then Snapshot(Panicked(EmptyStack), [])
    else if !stack[|stack| - 1].State? then Snapshot(Panicked(TopIsNotAState), [])
    else
      var state, below := stack[|stack| - 1].state, stack[..|stack| - 1];
      var count := LocalVarsCount(state);
      if !TopAreValues(below, count) then Snapshot(Panicked(VarIsNotAValue), [])
      else
        var (result, heap) := WrappingStep(state, TopValues(below, count), task.heap);
        WrappingApply(below[..|below| - count], result, heap, ts)
  }

  function WrappingAdvance(s: Snapshot): Snapshot {
    match s.phase
    case Active(task, ts) => var o := WrappingTaskStep(task, ts); Snapshot(o.phase, s.out + o.out)
    case _ => s
  }

  function WrappingRun(s: Snapshot, k: nat): Snapshot
    decreases k
  {
    if k == 0 then s else WrappingRun(WrappingAdvance(s), k - 1)
  }

  // ----- When both kinds of build agree -----------------------------------

  lemma TableAgrees(state: TaskState, vars: seq<StackValue>, heap: Heap)
    ensures GlobalStep(state, vars, heap).0 != Panic(ArithmeticOverflow) ==>
              WrappingStep(state, vars, heap) == GlobalStep(state, vars, heap)
    ensures WrappingStep(state, vars, heap).0 != Panic(ArithmeticOverflow)
  {
    hide LargestDivisor;
  }

  /** A step that does not overflow is the same in both builds, and no step
      overflows in the unchecked one. */
  lemma StepAgrees(task: Task, ts: u64)
    ensures TaskStep(task, ts).phase != Panicked(ArithmeticOverflow)
            ==> WrappingTaskStep(task, ts) == TaskStep(task, ts)
    ensures WrappingTaskStep(task, ts).phase != Panicked(ArithmeticOverflow)
  {
    hide GlobalStep, WrappingStep;
    var stack := task.stack;
    if stack != [] && stack[|stack| - 1].State? {
      var state, below := stack[|stack| - 1].state, stack[..|stack| - 1];
      if TopAreValues(below, LocalVarsCount(state)) {
        TableAgrees(state, TopValues(below, LocalVarsCount(state)), task.heap);
      }
    }
  }

  lemma {:induction false} RunAgrees(s: Snapshot, k: nat)
    requires Run(s, k).phase != Panicked(ArithmeticOverflow)
    ensures WrappingRun(s, k) == Run(s, k)
    decreases k
  {
    hide TaskStep, WrappingTaskStep;
    if k > 0 {
      if s.phase.Active? {
        StepAgrees(s.phase.task, s.phase.ts);
        if !Advance(s).phase.Active? { RunStuck(Advance(s), k - 1); }
      }
      RunAgrees(Advance(s), k - 1);
    }
  }

  lemma {:induction false} NeverOverflows(s: Snapshot, k: nat)
    requires s.phase != Panicked(ArithmeticOverflow)
    ensures WrappingRun(s, k).phase != Panicked(ArithmeticOverflow)
    decreases k
  {
    hide WrappingTaskStep;
    if k > 0 {
      if s.phase.Active? { StepAgrees(s.phase.task, s.phase.ts); }
      NeverOverflows(WrappingAdvance(s), k - 1);
    }
  }

  /** Both kinds of build do the same with a request, step by step, if and only
      if it fits. */
  lemma BuildsAgreeExactly(req: Request, ts: u64)
    ensures Fits(req, ts) <==> forall k: nat :: WrappingRun(Start(req, ts), k) == Run(Start(req, ts), k)
  {
    hide Run, WrappingRun, Fits, Typed, StepsLeft, Trace;
    if Fits(req, ts) {
      forall k: nat
        ensures WrappingRun(Start(req, ts), k) == Run(Start(req, ts), k)
      {
        NoStructuralPanic(req, ts, k);
        RunAgrees(Start(req, ts), k);
      }
    } else {
      ProgramsRunAsSpecified(req, ts);
      NeverOverflows(Start(req, ts), Steps(req));
      assert WrappingRun(Start(req, ts), Steps(req)) != Run(Start(req, ts), Steps(req));
    }
  }

  // ----- What is computed when they do not agree --------------------------

  /** A line of the trace as an unchecked build writes it: the time and the
      computed number modulo 2^64. */
  function Wrapped(e: Event): Event {
    var message :=
      match e.message
      case FibonacciStep(n, i, value) => FibonacciStep(n, i, value % 0x1_0000_0000_0000_0000)
      case FibonacciResult(n, value) => FibonacciResult(n, value % 0x1_0000_0000_0000_0000)
      case FactorialResult(n, r) => FactorialResult(n, r % 0x1_0000_0000_0000_0000)
      case other => other;
    Event(e.ts % 0x1_0000_0000_0000_0000, message)
  }

  function AllWrapped(events: seq<Event>): seq<Event> {
    seq(|events|, i requires 0 <= i < |events| => Wrapped(events[i]))
  }

  lemma AllWrappedAppend(a: seq<Event>, b: seq<Event>)
    ensures AllWrapped(a + b) == AllWrapped(a) + AllWrapped(b)
  {
    hide Wrapped;
  }

  lemma AllWrappedOne(e: Event)
    ensures AllWrapped([e]) == [Wrapped(e)] && AllWrapped([]) == []
  {
    hide Wrapped;
  }

  /** A first event and the rest, after what was written before. */
  lemma WrappedAfter(out: seq<Event>, e: Event, rest: seq<Event>)
    ensures out + AllWrapped([e] + rest) == out + [Wrapped(e)] + AllWrapped(rest)
  {
    hide Wrapped, AllWrapped;
    AllWrappedAppend([e], rest);
    AllWrappedOne(e);
  }

  lemma WrapLeft(x: int, y: int)
    ensures Wrap(Wrap(x) + y) == Wrap(x + y)
  {
  }

  lemma WrapSum(x: int, y: int)
    ensures Wrap(Wrap(x) + y) == Wrap(x + y) == Wrap(x + Wrap(y))
  {
    WrapLeft(x, y);
    WrapLeft(y, x);
    hide Wrap;
    assert x + Wrap(y) == Wrap(y) + x;
  }

  lemma WrapProduct(x: nat, k: nat)
    ensures Wrap(Wrap(x) * k) == Wrap(x * k)
  {
    var q := x / WORD;
    assert x == q * WORD + Wrap(x);
    assert x * k == Wrap(x) * k + (q * k) * WORD;
    WholeWords(Wrap(x) * k, q * k);
  }

  lemma {:induction false} WholeWords(x: int, q: nat)
    ensures Wrap(x + q * WORD) == Wrap(x)
    decreases q
  {
    if q > 0 {
      WholeWords(x, q - 1);
      assert x + q * WORD == x + (q - 1) * WORD + WORD;
    }
  }

  lemma {:induction false} WrappingRunAdd(s: Snapshot, j: nat, k: nat)
    ensures WrappingRun(s, j + k) == WrappingRun(WrappingRun(s, j), k)
    decreases j
  {
    if j > 0 { WrappingRunAdd(WrappingAdvance(s), j - 1, k); }
  }

  lemma StepOne(s: Snapshot)
    ensures WrappingRun(s, 1) == WrappingAdvance(s)
  {
    assert WrappingRun(WrappingAdvance(s), 0) == WrappingAdvance(s);
  }

  /** At most two variables as they lie on the stack. */
  function OnStack(vars: seq<StackValue>): seq<StackEntry>
    requires |vars| <= 2
  {
    if |vars| == 0 then [] else if |vars| == 1 then [Value(vars[0])] else [Value(vars[1]), Value(vars[0])]
  }

  lemma OnStackIsTop(below: seq<StackEntry>, vars: seq<StackValue>)
    requires |vars| <= 2
    ensures var stack := below + OnStack(vars);
            && TopAreValues(stack, |vars|) && TopValues(stack, |vars|) == vars
            && |stack| == |below| + |vars| && stack[..|below|] == below
  {
    var stack := below + OnStack(vars);
    assert TopAreValues(stack, |vars|);
    var top := TopValues(stack, |vars|);
    assert |top| == |vars|;
    forall j | 0 <= j < |vars|
      ensures top[j] == vars[j]
    {
      assert top[j] == stack[|stack| - 1 - j].value;
    }
  }

  /** One step on a stack whose top is spelled out, as in the checked build. */
  lemma WrappingOnTop(below: seq<StackEntry>, vars: seq<StackValue>, state: TaskState, heap: Heap, ts: u64,
                      out: seq<Event>)
    requires |vars| == LocalVarsCount(state) <= 2
    ensures var (result, heap') := WrappingStep(state, vars, heap);
            var o := WrappingApply(below, result, heap', ts);
            WrappingRun(Snapshot(Active(Task(below + OnStack(vars) + [State(state)], heap), ts), out), 1)
              == Snapshot(o.phase, out + o.out)
  {
    OnStackIsTop(below, vars);
    hide WrappingStep, WrappingApply, OnStack, TopValues, TopAreValues;
    var stack := below + OnStack(vars) + [State(state)];
    assert stack[..|stack| - 1] == below + OnStack(vars);
    StepOne(Snapshot(Active(Task(stack, heap), ts), out));
  }

  /** A place of a call with argument k. */
  function CallAt(below: seq<StackEntry>, s: TaskState, k: u64, state: TaskState, ts: u64, out: seq<Event>): Snapshot {
    Snapshot(Active(Task(below + [Retrn(s), Value(FactorialArgument(k)), State(state)], Empty), ts), out)
  }

  lemma CallStep(below: seq<StackEntry>, s: TaskState, k: u64, state: TaskState, ts: u64, out: seq<Event>)
    requires LocalVarsCount(state) == 1
    ensures var (result, heap') := WrappingStep(state, [FactorialArgument(k)], Empty);
            var o := WrappingApply(below + [Retrn(s)], result, heap', ts);
            WrappingRun(CallAt(below, s, k, state, ts, out), 1) == Snapshot(o.phase, out + o.out)
  {
    hide WrappingStep, WrappingApply;
    var base := below + [Retrn(s)];
    assert base + [Value(FactorialArgument(k))] + [State(state)]
        == below + [Retrn(s), Value(FactorialArgument(k)), State(state)];
    WrappingOnTop(base, [FactorialArgument(k)], state, Empty, ts, out);
  }

  lemma CallWrites(below: seq<StackEntry>, s: TaskState, k: u64, ts: u64, out: seq<Event>)
    ensures WrappingRun(CallAt(below, s, k, FactorialRecursiveCall, ts, out), 1)
         == CallAt(below, s, k, FactorialRecursionPostWrite, ts, out + [Event(ts, FactorialCall(k))])
  {
    hide WrappingRun;
    CallStep(below, s, k, FactorialRecursiveCall, ts, out);
    assert below + [Retrn(s)] + [Value(FactorialArgument(k)), State(FactorialRecursionPostWrite)]
        == below + [Retrn(s), Value(FactorialArgument(k)), State(FactorialRecursionPostWrite)];
  }

  lemma CallSleeps(below: seq<StackEntry>, s: TaskState, k: u64, ts: u64, out: seq<Event>)
    ensures WrappingRun(CallAt(below, s, k, FactorialRecursionPostWrite, ts, out), 1)
         == CallAt(below, s, k, FactorialRecursionPostSleep, Wrap(ts + 50 * k), out)
  {
    hide WrappingRun;
    CallStep(below, s, k, FactorialRecursionPostWrite, ts, out);
    WrapSum(ts, k * 50);
    assert below + [Retrn(s)] + [Value(FactorialArgument(k)), State(FactorialRecursionPostSleep)]
        == below + [Retrn(s), Value(FactorialArgument(k)), State(FactorialRecursionPostSleep)];
    assert out + [] == out;
  }

  lemma CallPrologue(below: seq<StackEntry>, s: TaskState, k: u64, ts: u64, out: seq<Event>)
    ensures WrappingRun(CallAt(below, s, k, FactorialRecursiveCall, ts, out), 2)
         == CallAt(below, s, k, FactorialRecursionPostSleep, Wrap(ts + 50 * k), out + [Event(ts, FactorialCall(k))])
  {
    hide WrappingRun, CallAt;
    CallWrites(below, s, k, ts, out);
    CallSleeps(below, s, k, ts, out + [Event(ts, FactorialCall(k))]);
    WrappingRunAdd(CallAt(below, s, k, FactorialRecursiveCall, ts, out), 1, 1);
  }

  /** The frame of a call that waits for the call it made. */
  function Deeper(below: seq<StackEntry>, s: TaskState, k: u64): seq<StackEntry> {
    below + [Retrn(s), Value(FactorialArgument(k))]
  }

  function Returned(below: seq<StackEntry>, s: TaskState, r: u64, ts: u64, out: seq<Event>): Snapshot {
    Snapshot(Active(Task(below + [Value(FactorialReturnValue(r)), State(s)], Empty), ts), out)
  }

  lemma CallBranch(below: seq<StackEntry>, s: TaskState, k: u64, ts: u64, out: seq<Event>)
    ensures WrappingRun(CallAt(below, s, k, FactorialRecursionPostSleep, ts, out), 1) ==
              if k <= 1 then Returned(below, s, 1, ts, out)
              else CallAt(Deeper(below, s, k), FactorialRecursionPostRecursiveCall, k - 1, FactorialRecursiveCall,
                  ts, out)
  {
    CallStep(below, s, k, FactorialRecursionPostSleep, ts, out);
    assert out + [] == out;
    hide WrappingRun;
    var base := below + [Retrn(s)];
    assert base[..|base| - 1] == below;
    if k > 1 {
      assert base + [Value(FactorialArgument(k)), Retrn(FactorialRecursionPostRecursiveCall),
                     Value(FactorialArgument(k - 1)), State(FactorialRecursiveCall)]
          == Deeper(below, s, k) + [Retrn(FactorialRecursionPostRecursiveCall),
                                    Value(FactorialArgument(k - 1)), State(FactorialRecursiveCall)];
    }
  }

  lemma CallEpilogue(below: seq<StackEntry>, s: TaskState, k: u64, r: u64, ts: u64, out: seq<Event>)
    ensures WrappingRun(Returned(Deeper(below, s, k), FactorialRecursionPostRecursiveCall, r, ts, out), 1)
         == Returned(below, s, Wrap(r * k), ts, out)
  {
    var base, vars := below + [Retrn(s)], [FactorialReturnValue(r), FactorialArgument(k)];
    var value := FactorialReturnValue(Wrap(r * k));
    assert WrappingStep(FactorialRecursionPostRecursiveCall, vars, Empty) == (Return(value), Empty);
    assert base[..|base| - 1] == below && out + [] == out;
    assert WrappingApply(base, Return(value), Empty, ts)
        == Snapshot(Active(Task(below + [Value(value), State(s)], Empty), ts), []);
    hide WrappingRun, WrappingStep, WrappingApply;
    assert Deeper(below, s, k) + [Value(FactorialReturnValue(r)), State(FactorialRecursionPostRecursiveCall)]
        == base + OnStack(vars) + [State(FactorialRecursionPostRecursiveCall)];
    WrappingOnTop(base, vars, FactorialRecursionPostRecursiveCall, Empty, ts, out);
  }

  /** Without overflow checks a call above any stack still returns there, with
      k! modulo 2^64, and writes what it would write, at times modulo 2^64. */
  lemma {:induction false} WrappingCallReturns(below: seq<StackEntry>, s: TaskState, k: u64, ts: nat, out: seq<Event>)
    ensures WrappingRun(CallAt(below, s, k, FactorialRecursiveCall, Wrap(ts), out), CallSteps(k))
         == Returned(below, s, Wrap(Factorial(k)), Wrap(ts + CallTime(k)), out + AllWrapped(CallEvents(k, ts)))
    decreases k
  {
    hide WrappingRun, CallAt, Returned, Deeper, Factorial, AllWrapped, Wrapped, CallEvents, Wrap;
    var s0 := CallAt(below, s, k, FactorialRecursiveCall, Wrap(ts), out);
    var out1, ts1 := out + [Event(Wrap(ts), FactorialCall(k))], Wrap(ts + 50 * k);
    CallPrologue(below, s, k, Wrap(ts), out);
    WrapSum(ts, 50 * k);
    CallBranch(below, s, k, ts1, out1);
    WrappingRunAdd(s0, 2, 1);
    CallEventsWrapped(out, k, ts);
    if k <= 1 {
      SmallCall(k);
    } else {
      CallUnfold(k);
      var s3 := CallAt(Deeper(below, s, k), FactorialRecursionPostRecursiveCall, k - 1,
                       FactorialRecursiveCall, ts1, out1);
      WrappingCallReturns(Deeper(below, s, k), FactorialRecursionPostRecursiveCall, k - 1, ts + 50 * k, out1);
      var r, ts2 := Wrap(Factorial(k - 1)), Wrap(ts + 50 * k + CallTime(k - 1));
      CallEpilogue(below, s, k, r, ts2, out1 + AllWrapped(CallEvents(k - 1, ts + 50 * k)));
      WrapProduct(Factorial(k - 1), k);
      FactorialUnfold(k);
      WrappingRunAdd(s3, CallSteps(k - 1), 1);
      WrappingRunAdd(s0, 3, CallSteps(k - 1) + 1);
    }
  }

  lemma CallEventsWrapped(out: seq<Event>, k: nat, ts: nat)
    ensures var out1 := out + [Event(Wrap(ts), FactorialCall(k))];
            out + AllWrapped(CallEvents(k, ts))
              == if k <= 1 then out1 else out1 + AllWrapped(CallEvents(k - 1, ts + 50 * k))
  {
    var e := Event(ts, FactorialCall(k));
    assert Wrapped(e) == Event(Wrap(ts), FactorialCall(k));
    var rest := if k <= 1 then [] else CallEvents(k - 1, ts + 50 * k);
    assert CallEvents(k, ts) == [e] + rest;
    hide Wrapped, AllWrapped, CallEvents;
    WrappedAfter(out, e, rest);
    AllWrappedOne(e);
  }

  lemma SmallCall(k: nat)
    requires k <= 1
    ensures CallSteps(k) == 3 && CallTime(k) == 50 * k && Factorial(k) == 1 && Wrap(1) == 1
  {
  }

  lemma CallUnfold(k: nat)
    requires k > 1
    ensures CallSteps(k) == CallSteps(k - 1) + 4 && CallTime(k) == 50 * k + CallTime(k - 1)
  {
  }

  lemma WrappingFactorialRuns(n: u64, ts: u64)
    ensures var req := FactorialRequest(n);
            WrappingRun(Start(req, ts), Steps(req)) == Snapshot(Over, AllWrapped(Trace(req, ts)))
  {
    FactorialTrace(n, ts);
    hide WrappingRun, Factorial, CallTime, CallAt, Returned, Start, AllWrapped, Wrapped, CallEvents, Trace;
    assert Wrap(ts) == ts;
    var below := [Value(FactorialInput(n))];
    FactorialTaskBegins(n, ts);
    WrappingCallReturns(below, FactorialDone, n, ts, []);
    var out := AllWrapped(CallEvents(n, ts));
    assert [] + out == out;
    FactorialTaskEnds(n, Wrap(Factorial(n)), Wrap(ts + CallTime(n)), out);
    var s0, s1 := Start(FactorialRequest(n), ts), CallAt(below, FactorialDone, n, FactorialRecursiveCall, ts, []);
    WrappingRunAdd(s1, CallSteps(n), 2);
    WrappingRunAdd(s0, 1, CallSteps(n) + 2);
  }

  lemma FactorialTrace(n: u64, ts: u64)
    ensures AllWrapped(Trace(FactorialRequest(n), ts))
         == AllWrapped(CallEvents(n, ts)) + [Event(Wrap(ts + CallTime(n)), FactorialResult(n, Wrap(Factorial(n))))]
  {
    hide AllWrapped, CallTime, Factorial, FactorialEvents, CallEvents, SumDown;
    CallEventsClosed(n, ts);
    CallTimeClosed(n);
    var last := Event(ts + CallTime(n), FactorialResult(n, Factorial(n)));
    AllWrappedAppend(CallEvents(n, ts), [last]);
    AllWrappedOne(last);
  }

  lemma FactorialTaskBegins(n: u64, ts: u64)
    ensures WrappingRun(Start(FactorialRequest(n), ts), 1)
         == CallAt([Value(FactorialInput(n))], FactorialDone, n, FactorialRecursiveCall, ts, [])
  {
    var input := Value(FactorialInput(n));
    var entries := [input, Retrn(FactorialDone), Value(FactorialArgument(n)), State(FactorialRecursiveCall)];
    assert WrappingStep(FactorialEntry, [FactorialInput(n)], Empty) == (Next(entries), Empty);
    assert [] + entries == entries;
    assert entries == [input] + [Retrn(FactorialDone), Value(FactorialArgument(n)), State(FactorialRecursiveCall)];
    hide WrappingRun, WrappingStep;
    assert [] + OnStack([FactorialInput(n)]) + [State(FactorialEntry)] == [input, State(FactorialEntry)];
    WrappingOnTop([], [FactorialInput(n)], FactorialEntry, Empty, ts, []);
  }

  lemma FactorialTaskWrites(n: u64, r: u64, ts: u64, out: seq<Event>)
    ensures WrappingRun(Returned([Value(FactorialInput(n))], FactorialDone, r, ts, out), 1)
         == Snapshot(Active(Task([State(Completed)], Empty), ts), out + [Event(ts, FactorialResult(n, r))])
  {
    hide WrappingRun;
    assert [] + [Value(FactorialInput(n)), Value(FactorialReturnValue(r))] + [State(FactorialDone)]
        == [Value(FactorialInput(n))] + [Value(FactorialReturnValue(r)), State(FactorialDone)];
    WrappingOnTop([], [FactorialReturnValue(r), FactorialInput(n)], FactorialDone, Empty, ts, out);
    assert [] + [State(Completed)] == [State(Completed)];
  }

  lemma FactorialTaskEnds(n: u64, r: u64, ts: u64, out: seq<Event>)
    ensures WrappingRun(Returned([Value(FactorialInput(n))], FactorialDone, r, ts, out), 2)
         == Snapshot(Over, out + [Event(ts, FactorialResult(n, r))])
  {
    hide WrappingRun, Returned;
    var s0 := Returned([Value(FactorialInput(n))], FactorialDone, r, ts, out);
    var out1 := out + [Event(ts, FactorialResult(n, r))];
    FactorialTaskWrites(n, r, ts, out);
    WrappingOnTop([], [], Completed, Empty, ts, out1);
    assert [] + [] + [State(Completed)] == [State(Completed)] && out1 + [] == out1;
    WrappingRunAdd(s0, 1, 1);
  }

  // ----- Fibonacci ---------------------------------------------------------

  function FibAt(state: TaskState, n: u64, i: u64, a: u64, b: u64, delay: u64, ts: u64, out: seq<Event>): Snapshot {
    Snapshot(Active(Task([State(state)], Fibonacci(n, i, a, b, delay)), ts), out)
  }

  lemma FibStep(state: TaskState, n: u64, i: u64, a: u64, b: u64, delay: u64, ts: u64, out: seq<Event>)
    requires LocalVarsCount(state) == 0
    ensures var (result, heap') := WrappingStep(state, [], Fibonacci(n, i, a, b, delay));
            WrappingRun(FibAt(state, n, i, a, b, delay, ts, out), 1) == BareStep(result, heap', ts, out)
  {
    hide WrappingStep, WrappingRun, WrappingApply, BareStep;
    assert [] + OnStack([]) + [State(state)] == [State(state)];
    WrappingOnTop([], [], state, Fibonacci(n, i, a, b, delay), ts, out);
    var (result, heap') := WrappingStep(state, [], Fibonacci(n, i, a, b, delay));
    NothingBelow(result, heap', ts, out);
  }

  lemma NothingBelow(result: StepResult, heap: Heap, ts: u64, out: seq<Event>)
    ensures var o := WrappingApply([], result, heap, ts);
            Snapshot(o.phase, out + o.out) == BareStep(result, heap, ts, out)
  {
    assert out + [] == out;
    match result
    case Next(entries) => assert [] + entries == entries;
    case Sleep(ms, entries) => assert [] + entries == entries;
    case Write(message, entries) => assert [] + entries == entries;
    case _ =>
  }

  /** What a result does to a task whose stack is otherwise empty. */
  function BareStep(result: StepResult, heap: Heap, ts: u64, out: seq<Event>): Snapshot {
    match result
    case Next(entries) => Snapshot(Active(Task(entries, heap), ts), out)
    case Sleep(ms, entries) => Snapshot(Active(Task(entries, heap), Wrap(ts + ms)), out)
    case Write(message, entries) => Snapshot(Active(Task(entries, heap), ts), out + [Event(ts, message)])
    case _ => var o := Apply([], result, heap, ts); Snapshot(o.phase, out)
  }

  lemma FibTurn(n: u64, i: u64, a: u64, b: u64, delay: u64, ts: u64, out: seq<Event>)
    requires i < n
    ensures WrappingRun(FibAt(FibonacciTaskCalculate, n, i, a, b, delay, ts, out), 2)
         == FibAt(FibonacciTaskCalculate, n, i + 1, b, Wrap(a + b), Wrap(5 * i), Wrap(ts + 5 * i),
                  out + [Event(ts, FibonacciStep(n, i, b))])
  {
    hide WrappingRun, LargestDivisor, GlobalStep;
    var out1 := out + [Event(ts, FibonacciStep(n, i, b))];
    FibStep(FibonacciTaskCalculate, n, i, a, b, delay, ts, out);
    FibStep(FibonacciTaskStep, n, i, a, b, Wrap(5 * i), ts, out1);
    WrapSum(ts, 5 * i);
    assert Wrap(i + 1) == i + 1;
    WrappingRunAdd(FibAt(FibonacciTaskCalculate, n, i, a, b, delay, ts, out), 1, 1);
  }

  lemma FibEnds(n: u64, a: u64, b: u64, delay: u64, ts: u64, out: seq<Event>)
    ensures WrappingRun(FibAt(FibonacciTaskCalculate, n, n, a, b, delay, ts, out), 3)
         == Snapshot(Over, out + [Event(ts, FibonacciResult(n, b))])
  {
    var s0, out1 := FibAt(FibonacciTaskCalculate, n, n, a, b, delay, ts, out), out + [Event(ts, FibonacciResult(n, b))];
    FibStep(FibonacciTaskCalculate, n, n, a, b, delay, ts, out);
    FibStep(FibonacciTaskResult, n, n, a, b, delay, ts, out);
    FibStep(Completed, n, n, a, b, delay, ts, out1);
    hide WrappingRun;
    WrappingRunAdd(s0, 1, 1);
    WrappingRunAdd(s0, 2, 1);
  }

  lemma PairMovesOn(i: u64, a: u64, b: u64)
    requires i >= 1 && a == Wrap(Fib(i - 1)) && b == Wrap(Fib(i))
    ensures Wrap(a + b) == Wrap(Fib(i + 1))
  {
    hide Fib, Wrap, FibTime, FibEventsFrom;
    FibUnfold(0, i, 0);
    var x, y := Fib(i - 1), Fib(i);
    WrapSum(x, y);
    WrapSum(x, Wrap(y));
  }

  lemma FibEventsWrapped(n: nat, i: nat, ts: nat, out: seq<Event>)
    requires i < n
    ensures out + AllWrapped(FibEventsFrom(n, i, ts))
         == out + [Event(Wrap(ts), FibonacciStep(n, i, Wrap(Fib(i))))] + AllWrapped(FibEventsFrom(n, i + 1, ts + 5 * i))
  {
    var e := Event(ts, FibonacciStep(n, i, Fib(i)));
    assert Wrapped(e) == Event(Wrap(ts), FibonacciStep(n, i, Wrap(Fib(i))));
    FibUnfold(n, i, ts);
    hide Wrapped, AllWrapped, FibEventsFrom, Fib;
    WrappedAfter(out, e, FibEventsFrom(n, i + 1, ts + 5 * i));
  }

  lemma LastTurn(n: u64, a: u64, b: u64, delay: u64, ts: nat, out: seq<Event>)
    requires b == Wrap(Fib(n))
    ensures WrappingRun(FibAt(FibonacciTaskCalculate, n, n, a, b, delay, Wrap(ts), out), 3)
         == Snapshot(Over, out + AllWrapped(FibEventsFrom(n, n, ts))
                           + [Event(Wrap(ts + FibTime(n, n)), FibonacciResult(n, Wrap(Fib(n))))])
  {
    FibEnds(n, a, b, delay, Wrap(ts), out);
    assert FibEventsFrom(n, n, ts) == [] && FibTime(n, n) == 0;
    hide WrappingRun, Fib, FibAt;
    assert out + AllWrapped([]) == out;
  }

  /** From any turn of the loop, with the pair of Fibonacci numbers modulo 2^64. */
  lemma {:induction false} WrappingFibonacciLoopRuns(n: u64, i: u64, a: u64, b: u64, delay: u64, ts: nat,
                                                     out: seq<Event>)
    requires 1 <= i <= n && a == Wrap(Fib(i - 1)) && b == Wrap(Fib(i))
    ensures WrappingRun(FibAt(FibonacciTaskCalculate, n, i, a, b, delay, Wrap(ts), out), 2 * (n - i) + 3)
         == Snapshot(Over, out + AllWrapped(FibEventsFrom(n, i, ts))
                           + [Event(Wrap(ts + FibTime(i, n)), FibonacciResult(n, Wrap(Fib(n))))])
    decreases n - i
  {
    hide WrappingRun, Fib, FibTime, FibAt, Wrap, FibEventsFrom, AllWrapped;
    if i == n {
      LastTurn(n, a, b, delay, ts, out);
    } else {
      var s0 := FibAt(FibonacciTaskCalculate, n, i, a, b, delay, Wrap(ts), out);
      FibTurn(n, i, a, b, delay, Wrap(ts), out);
      WrapSum(ts, 5 * i);
      PairMovesOn(i, a, b);
      FibUnfold(n, i, ts);
      FibEventsWrapped(n, i, ts, out);
      WrappingFibonacciLoopRuns(n, i + 1, b, Wrap(a + b), Wrap(5 * i), ts + 5 * i,
                                out + [Event(Wrap(ts), FibonacciStep(n, i, b))]);
      WrappingRunAdd(s0, 2, 2 * (n - i - 1) + 3);
    }
  }

  lemma FibonacciTaskBegins(n: u64, ts: u64)
    requires n >= 2
    ensures WrappingRun(Start(FibonacciRequest(n), ts), 1) == FibAt(FibonacciTaskCalculate, n, 1, 0, 1, 0, ts, [])
  {
    assert Start(FibonacciRequest(n), ts) == FibAt(FibonacciTaskBegin, n, 0, 0, 0, 0, ts, []);
    hide WrappingRun;
    FibStep(FibonacciTaskBegin, n, 0, 0, 0, 0, ts, []);
  }

  lemma FibonacciTrace(n: u64, ts: u64)
    requires n >= 2
    ensures AllWrapped(Trace(FibonacciRequest(n), ts))
         == AllWrapped(FibEventsFrom(n, 1, ts)) + [Event(Wrap(ts + FibTime(1, n)), FibonacciResult(n, Wrap(Fib(n))))]
  {
    hide AllWrapped, Fib, FibonacciEvents, FibEventsFrom, FibTime, SumBelow;
    SumBelowClosed(1);
    FibTimeSplits(1, n);
    FibEventsClosed(n, 1, ts);
    assert FibonacciEvents(n, ts)[0..] == FibonacciEvents(n, ts);
    var last := Event(ts + FibTime(1, n), FibonacciResult(n, Fib(n)));
    AllWrappedAppend(FibonacciEvents(n, ts), [last]);
    AllWrappedOne(last);
  }

  lemma WrappingFibonacciLarge(n: u64, ts: u64)
    requires n >= 2
    ensures WrappingRun(Start(FibonacciRequest(n), ts), 2 * n + 2)
         == Snapshot(Over, AllWrapped(Trace(FibonacciRequest(n), ts)))
  {
    FirstPair(ts);
    hide WrappingRun, Fib, FibTime, FibAt, Wrap, Start, AllWrapped, Trace, FibEventsFrom;
    FibonacciTrace(n, ts);
    FibonacciTaskBegins(n, ts);
    WrappingFibonacciLoopRuns(n, 1, 0, 1, 0, ts, []);
    var events := AllWrapped(FibEventsFrom(n, 1, ts));
    assert [] + events == events;
    WrappingRunAdd(Start(FibonacciRequest(n), ts), 1, 2 * (n - 1) + 3);
  }

  lemma FirstPair(ts: u64)
    ensures Wrap(Fib(0)) == 0 && Wrap(Fib(1)) == 1 && Wrap(ts) == ts
  {
  }

  lemma WrappingFibonacciSmall(n: u64, ts: u64)
    requires n <= 1
    ensures WrappingRun(Start(FibonacciRequest(n), ts), 2) == Snapshot(Over, AllWrapped(Trace(FibonacciRequest(n), ts)))
  {
    var e := Event(ts, FibonacciResult(n, n));
    assert Wrapped(e) == e && Trace(FibonacciRequest(n), ts) == [e];
    hide WrappingRun, Run, Start, Wrapped, AllWrapped, Trace;
    AllWrappedOne(e);
    FibonacciSmallRuns(n, ts);
    RunAgrees(Start(FibonacciRequest(n), ts), 2);
  }

  lemma WrappingFibonacciRuns(n: u64, ts: u64)
    ensures var req := FibonacciRequest(n);
            WrappingRun(Start(req, ts), Steps(req)) == Snapshot(Over, AllWrapped(Trace(req, ts)))
  {
    hide WrappingRun, Start, AllWrapped, Trace;
    if n <= 1 { WrappingFibonacciSmall(n, ts); } else { WrappingFibonacciLarge(n, ts); }
  }

  // ----- Divisors and delay -------------------------------------------------

  function DivisorsAt(state: TaskState, n: u64, i: u64, ts: u64, out: seq<Event>): Snapshot {
    Snapshot(Active(Task([State(state)], Divisors(n, i)), ts), out)
  }

  lemma DivisorsStep(state: TaskState, n: u64, i: u64, ts: u64, out: seq<Event>)
    requires LocalVarsCount(state) == 0
    ensures var (result, heap') := WrappingStep(state, [], Divisors(n, i));
            WrappingRun(DivisorsAt(state, n, i, ts, out), 1) == BareStep(result, heap', ts, out)
  {
    hide WrappingStep, WrappingRun, WrappingApply, BareStep;
    assert [] + OnStack([]) + [State(state)] == [State(state)];
    WrappingOnTop([], [], state, Divisors(n, i), ts, out);
    var (result, heap') := WrappingStep(state, [], Divisors(n, i));
    NothingBelow(result, heap', ts, out);
  }

  /** One turn: find the next divisor, sleep, write it. */
  lemma DivisorsTurn(n: u64, i: u64, ts: u64, out: seq<Event>)
    requires LargestDivisor(n, i) > 0
    ensures var d := LargestDivisor(n, i);
            WrappingRun(DivisorsAt(DivisorsTaskIteration, n, i, ts, out), 2)
              == DivisorsAt(DivisorsTaskIteration, n, d - 1, Wrap(ts + 10 * d),
                            out + [Event(Wrap(ts + 10 * d), DivisorFound(n, d))])
  {
    hide WrappingRun, LargestDivisor, GlobalStep;
    var d: nat := LargestDivisor(n, i);
    DivisorsStep(DivisorsTaskIteration, n, i, ts, out);
    WrapSum(ts, 10 * d);
    assert i >= 0 && Wrap(d - 1) == d - 1;
    DivisorsStep(DivisorsPrintAndMoveOn, n, d, Wrap(ts + 10 * d), out);
    WrappingRunAdd(DivisorsAt(DivisorsTaskIteration, n, i, ts, out), 1, 1);
  }

  lemma DivisorsEnd(n: u64, i: u64, ts: u64, out: seq<Event>)
    requires LargestDivisor(n, i) == 0
    ensures WrappingRun(DivisorsAt(DivisorsTaskIteration, n, i, ts, out), 2)
         == Snapshot(Over, out + [Event(ts, DivisorsDone(n))])
  {
    DivisorsStep(DivisorsTaskIteration, n, i, ts, out);
    DivisorsStep(Completed, n, i, ts, out + [Event(ts, DivisorsDone(n))]);
    hide WrappingRun, LargestDivisor;
    WrappingRunAdd(DivisorsAt(DivisorsTaskIteration, n, i, ts, out), 1, 1);
  }

  lemma DivisorEventsWrapped(n: nat, d: nat, rest: seq<nat>, ts: nat, out: seq<Event>)
    ensures out + AllWrapped(DivisorEvents(n, [d] + rest, ts))
         == out + [Event(Wrap(ts + 10 * d), DivisorFound(n, d))] + AllWrapped(DivisorEvents(n, rest, ts + 10 * d))
    ensures Sum([d] + rest) == d + Sum(rest)
  {
    var e := Event(ts + 10 * d, DivisorFound(n, d));
    assert Wrapped(e) == Event(Wrap(ts + 10 * d), DivisorFound(n, d));
    hide Wrapped, AllWrapped, DivisorEvents, Sum;
    DivisorEventsUnfold(n, d, rest, ts);
    WrappedAfter(out, e, DivisorEvents(n, rest, ts + 10 * d));
  }

  lemma NoDivisorEvents(n: nat, ts: nat, out: seq<Event>)
    ensures out + AllWrapped(DivisorEvents(n, [], ts)) == out && Sum([]) == 0
  {
    DivisorEventsUnfold(n, 0, [], ts);
  }

  lemma {:induction false} WrappingDivisorsLoopRuns(n: u64, i: u64, ts: nat, out: seq<Event>)
    ensures var ds := DivisorsDown(n, i);
            WrappingRun(DivisorsAt(DivisorsTaskIteration, n, i, Wrap(ts), out), 2 * |ds| + 2)
              == Snapshot(Over, out + AllWrapped(DivisorEvents(n, ds, ts))
                                + [Event(Wrap(ts + 10 * Sum(ds)), DivisorsDone(n))])
    decreases i
  {
    hide WrappingRun, LargestDivisor, DivisorsDown, DivisorEvents, Sum, DivisorsAt, AllWrapped, Wrap;
    LargestDivisorIsNext(n, i);
    var d: nat := LargestDivisor(n, i);
    if d == 0 {
      NoDivisorEvents(n, ts, out);
      DivisorsEnd(n, i, Wrap(ts), out);
    } else {
      var rest := DivisorsDown(n, d - 1);
      DivisorsTurn(n, i, Wrap(ts), out);
      WrapSum(ts, 10 * d);
      DivisorEventsWrapped(n, d, rest, ts, out);
      WrappingDivisorsLoopRuns(n, d - 1, ts + 10 * d, out + [Event(Wrap(ts + 10 * d), DivisorFound(n, d))]);
      WrappingRunAdd(DivisorsAt(DivisorsTaskIteration, n, i, Wrap(ts), out), 2, 2 * |rest| + 2);
    }
  }

  lemma DivisorsTaskBegins(n: u64, ts: u64)
    ensures WrappingRun(Start(DivisorsRequest(n), ts), 1) == DivisorsAt(DivisorsTaskIteration, n, n, ts, [])
  {
    assert Start(DivisorsRequest(n), ts) == DivisorsAt(DivisorsTaskBegin, n, n, ts, []);
    hide WrappingRun;
    DivisorsStep(DivisorsTaskBegin, n, n, ts, []);
  }

  lemma DivisorsTrace(n: u64, ts: u64)
    ensures var ds := DivisorsDown(n, n);
            AllWrapped(Trace(DivisorsRequest(n), ts))
              == AllWrapped(DivisorEvents(n, ds, ts)) + [Event(Wrap(ts + 10 * Sum(ds)), DivisorsDone(n))]
  {
    hide AllWrapped, DivisorEvents, DivisorsDown, Sum;
    var ds := DivisorsDown(n, n);
    var last := Event(ts + 10 * Sum(ds), DivisorsDone(n));
    AllWrappedAppend(DivisorEvents(n, ds, ts), [last]);
    AllWrappedOne(last);
  }

  lemma WrappingDivisorsRuns(n: u64, ts: u64)
    ensures var req := DivisorsRequest(n);
            WrappingRun(Start(req, ts), Steps(req)) == Snapshot(Over, AllWrapped(Trace(req, ts)))
  {
    hide WrappingRun, Start, AllWrapped, Trace, DivisorsAt, DivisorsDown, DivisorEvents, Sum;
    var ds := DivisorsDown(n, n);
    assert Wrap(ts) == ts;
    DivisorsTrace(n, ts);
    DivisorsTaskBegins(n, ts);
    WrappingDivisorsLoopRuns(n, n, ts, []);
    var events := AllWrapped(DivisorEvents(n, ds, ts));
    assert [] + events == events;
    WrappingRunAdd(Start(DivisorsRequest(n), ts), 1, 2 * |ds| + 2);
  }

  function DelayAt(state: TaskState, ms: u64, text: string, ts: u64): Snapshot {
    Snapshot(Active(Task([Value(DelayInputMs(ms)), Value(DelayInputMessage(text)), State(state)], Empty), ts), [])
  }

  lemma DelayVars(ms: u64, text: string, state: TaskState)
    ensures [] + OnStack([DelayInputMessage(text), DelayInputMs(ms)]) + [State(state)]
         == [Value(DelayInputMs(ms)), Value(DelayInputMessage(text)), State(state)]
  {
  }

  lemma DelaySleepStep(ms: u64, text: string)
    ensures WrappingStep(DelayedMessageTaskBegin, [DelayInputMessage(text), DelayInputMs(ms)], Empty)
         == (Sleep(ms, [Value(DelayInputMs(ms)), Value(DelayInputMessage(text)), State(DelayedMessageTaskExecute)]),
             Empty)
  {
  }

  lemma DelaySleeps(ms: u64, text: string, ts: u64)
    ensures WrappingRun(DelayAt(DelayedMessageTaskBegin, ms, text, ts), 1)
         == DelayAt(DelayedMessageTaskExecute, ms, text, Wrap(ts + ms))
  {
    hide WrappingRun, WrappingStep, OnStack;
    var entries := [Value(DelayInputMs(ms)), Value(DelayInputMessage(text)), State(DelayedMessageTaskExecute)];
    DelaySleepStep(ms, text);
    DelayVars(ms, text, DelayedMessageTaskBegin);
    WrappingOnTop([], [DelayInputMessage(text), DelayInputMs(ms)], DelayedMessageTaskBegin, Empty, ts, []);
    assert [] + entries == entries;
  }

  lemma DelayWrites(ms: u64, text: string, ts: u64)
    ensures WrappingRun(DelayAt(DelayedMessageTaskExecute, ms, text, ts), 2)
         == Snapshot(Over, [Event(ts, Delayed(ms, text))])
  {
    var vars, out := [DelayInputMessage(text), DelayInputMs(ms)], [Event(ts, Delayed(ms, text))];
    assert WrappingStep(DelayedMessageTaskExecute, vars, Empty)
        == (Write(Delayed(ms, text), [State(Completed)]), Empty);
    hide WrappingRun;
    DelayVars(ms, text, DelayedMessageTaskExecute);
    WrappingOnTop([], vars, DelayedMessageTaskExecute, Empty, ts, []);
    WrappingOnTop([], [], Completed, Empty, ts, out);
    assert [] + [State(Completed)] == [State(Completed)] && [] + OnStack([]) + [State(Completed)] == [State(Completed)];
    assert [] + out == out && out + [] == out;
    WrappingRunAdd(DelayAt(DelayedMessageTaskExecute, ms, text, ts), 1, 1);
  }

  lemma WrappingDelayRuns(ms: u64, text: string, ts: u64)
    ensures var req := DelayRequest(ms, text);
            WrappingRun(Start(req, ts), Steps(req)) == Snapshot(Over, AllWrapped(Trace(req, ts)))
  {
    var e := Event(ts + ms, Delayed(ms, text));
    assert Wrapped(e) == Event(Wrap(ts + ms), Delayed(ms, text)) && Trace(DelayRequest(ms, text), ts) == [e];
    assert Start(DelayRequest(ms, text), ts) == DelayAt(DelayedMessageTaskBegin, ms, text, ts);
    hide WrappingRun, Wrapped, AllWrapped, Trace, Start, DelayAt;
    AllWrappedOne(e);
    DelaySleeps(ms, text, ts);
    DelayWrites(ms, text, Wrap(ts + ms));
    WrappingRunAdd(DelayAt(DelayedMessageTaskBegin, ms, text, ts), 1, 2);
  }

  /** Whatever the request and its start time, an unchecked build ends it after
      as many steps as a checked one has for it, and writes the lines of its
      exact trace, with times and computed numbers modulo 2^64. */
  lemma WrappingProgramsRun(req: Request, ts: u64)
    ensures WrappingRun(Start(req, ts), Steps(req)) == Snapshot(Over, AllWrapped(Trace(req, ts)))
  {
    hide WrappingRun, Start, AllWrapped, Trace, Steps;
    match req
    case DelayRequest(ms, text) => WrappingDelayRuns(ms, text, ts);
    case DivisorsRequest(n) => WrappingDivisorsRuns(n, ts);
    case FibonacciRequest(n) => WrappingFibonacciRuns(n, ts);
    case FactorialRequest(n) => WrappingFactorialRuns(n, ts);
  }
}
