/** The typed stack invariant: the shapes a task can have between two steps,
    why no structural panic is reachable, and the exact number of steps left. */
module MaroonTyping {
  import opened MaroonMachine
  import opened MaroonPrograms

  /** The activation records below a call to the factorial of k made on behalf
      of n: the input, the return point of the outermost call, and for
      j = n, n-1, ..., k+1 the argument j with its return point. */
  ghost predicate FactorialFrames(base: seq<StackEntry>, n: u64, k: u64) {
    && (k == n || 1 <= k < n)
    && |base| == 2 * (n - k) + 2
    && base[0] == Value(FactorialInput(n))
    && base[1] == Retrn(FactorialDone)
    && forall j :: 1 <= j <= n - k ==>
         && base[2 * j] == Value(FactorialArgument(n - j + 1))
         && base[2 * j + 1] == Retrn(FactorialRecursionPostRecursiveCall)
  }

  ghost predicate InFactorialCall(t: Task, n: u64, k: u64) {
    && t.heap == Empty
    && |t.stack| >= 2
    && t.stack[|t.stack| - 2] == Value(FactorialArgument(k))
    && FactorialFrames(t.stack[..|t.stack| - 2], n, k)
  }

  ghost predicate AfterInnerCall(t: Task, n: u64, k: u64) {
    && t.heap == Empty
    && |t.stack| >= 3
    && 2 <= k
    && t.stack[|t.stack| - 3] == Value(FactorialArgument(k))
    && t.stack[|t.stack| - 2].Value? && t.stack[|t.stack| - 2].value.FactorialReturnValue?
    && t.stack[|t.stack| - 2].value.r == Factorial(k - 1)
    && FactorialFrames(t.stack[..|t.stack| - 3], n, k)
  }

  /** The heap variant that goes with a request. */
  predicate HeapOf(req: Request, heap: Heap) {
    match req
    case DelayRequest(_, _) => heap.Empty?
    case DivisorsRequest(n) => heap.Divisors? && heap.n == n && heap.i <= n
    case FibonacciRequest(n) => heap.Fibonacci? && heap.n == n
    case FactorialRequest(_) => heap.Empty?
  }

  predicate FibonacciPair(heap: Heap) {
    heap.Fibonacci? && 1 <= heap.index <= heap.n && heap.a == Fib(heap.index - 1) && heap.b == Fib(heap.index)
  }

  /** The grammar of well-typed tasks, request by request and state by state. */
  ghost predicate Typed(req: Request, t: Task) {
    && t.stack != []
    && t.stack[|t.stack| - 1].State?
    && HeapOf(req, t.heap)
    && var state := t.stack[|t.stack| - 1].state;
       if state == Completed then |t.stack| == 1
       else
         match req
         case DelayRequest(ms, text) =>
           && (state == DelayedMessageTaskBegin || state == DelayedMessageTaskExecute)
           && t.stack == [Value(DelayInputMs(ms)), Value(DelayInputMessage(text)), State(state)]
         case DivisorsRequest(n) =>
           && |t.stack| == 1
           && (|| state == DivisorsTaskBegin
               || state == DivisorsTaskIteration
               || (state == DivisorsPrintAndMoveOn && t.heap.i > 0 && n % t.heap.i == 0))
         case FibonacciRequest(n) =>
           && |t.stack| == 1
           && (|| state == FibonacciTaskBegin
               || (state == FibonacciTaskCalculate && FibonacciPair(t.heap))
               || (&& state == FibonacciTaskStep && FibonacciPair(t.heap)
                   && t.heap.index < n && t.heap.delayMs == 5 * t.heap.index)
               || (state == FibonacciTaskResult && FibonacciPair(t.heap) && t.heap.index == n))
         case FactorialRequest(n) =>
           match state
           case FactorialEntry => t.stack == [Value(FactorialInput(n)), State(state)]
           case FactorialRecursiveCall => exists k: u64 :: InFactorialCall(t, n, k)
           case FactorialRecursionPostWrite => exists k: u64 :: InFactorialCall(t, n, k)
           case FactorialRecursionPostSleep => exists k: u64 :: InFactorialCall(t, n, k)
           case FactorialRecursionPostRecursiveCall => exists k: u64 :: AfterInnerCall(t, n, k)
           case FactorialDone =>
             exists r: u64 :: r == Factorial(n)
               && t.stack == [Value(FactorialInput(n)), Value(FactorialReturnValue(r)), State(state)]
           case _ => false
  }

  /** The number of steps a task still has to make, read off its own stack and heap. */
  function StepsLeft(t: Task): nat {
    var m := |t.stack|;
    if t.stack == [] || !t.stack[m - 1].State? then 0
    else
      match t.stack[m - 1].state
      case Completed => 1
      case DelayedMessageTaskBegin => 3
      case DelayedMessageTaskExecute => 2
      case DivisorsTaskBegin => if t.heap.Divisors? then 2 * |DivisorsDown(t.heap.n, t.heap.n)| + 3 else 0
      case DivisorsTaskIteration => if t.heap.Divisors? then 2 * |DivisorsDown(t.heap.n, t.heap.i)| + 2 else 0
      case DivisorsPrintAndMoveOn =>
        if t.heap.Divisors? && t.heap.i > 0 then 2 * |DivisorsDown(t.heap.n, t.heap.i - 1)| + 3 else 0
      case FibonacciTaskBegin => if t.heap.Fibonacci? then (if t.heap.n < 2 then 2 else 2 * t.heap.n + 2) else 0
      case FibonacciTaskCalculate =>
        if t.heap.Fibonacci? && t.heap.index <= t.heap.n then 2 * (t.heap.n - t.heap.index) + 3 else 0
      case FibonacciTaskStep =>
        if t.heap.Fibonacci? && t.heap.index <= t.heap.n then 2 * (t.heap.n - t.heap.index) + 2 else 0
      case FibonacciTaskResult => 2
      case FactorialEntry =>
        if m == 2 && t.stack[0].Value? && t.stack[0].value.FactorialInput? then
          Steps(FactorialRequest(t.stack[0].value.n))
        else 0
      case FactorialRecursiveCall => StepsLeftInCall(t.stack, 0)
      case FactorialRecursionPostWrite => StepsLeftInCall(t.stack, 1)
      case FactorialRecursionPostSleep => StepsLeftInCall(t.stack, 2)
      case FactorialRecursionPostRecursiveCall => 1 + (m - 5) / 2 + 2
      case FactorialDone => 2
  }

  /** The rest of the running call, one step per frame below it, and the ending. */
  function StepsLeftInCall(stack: seq<StackEntry>, done: nat): nat
    requires done <= 2
  {
    var m := |stack|;
    if m >= 4 && stack[m - 2].Value? && stack[m - 2].value.FactorialArgument? then
      CallSteps(stack[m - 2].value.k) - done + (m - 4) / 2 + 2
    else 0
  }

  lemma InitialTaskTyped(req: Request)
    ensures Typed(req, InitialTask(req)) && StepsLeft(InitialTask(req)) == Steps(req)
  {
  }

  /** What one step preserves. */
  ghost predicate GoodStep(req: Request, t: Task, ts: u64, phase: Phase) {
    match phase
    case Active(t', ts') => Typed(req, t') && StepsLeft(t) == StepsLeft(t') + 1 && ts <= ts'
    case Over => StepsLeft(t) == 1
    case Panicked(reason) => reason == ArithmeticOverflow
  }

  lemma CompletedGood(req: Request, t: Task, ts: u64)
    requires Typed(req, t) && t.stack[|t.stack| - 1].state == Completed
    ensures GoodStep(req, t, ts, TaskStep(t, ts).phase)
  {
    assert t.stack == [] + [State(Completed)];
    StepNoVars([], Completed, t.heap, ts);
  }

  lemma DelayGood(ms: u64, text: string, t: Task, ts: u64)
    requires var req := DelayRequest(ms, text); Typed(req, t) && t.stack[|t.stack| - 1].state != Completed
    ensures GoodStep(DelayRequest(ms, text), t, ts, TaskStep(t, ts).phase)
  {
    hide TaskStep;
    var state := t.stack[2].state;
    var v, w := DelayInputMs(ms), DelayInputMessage(text);
    assert t.stack == [] + [Value(v), Value(w), State(state)];
    StepTwoVars([], w, v, state, t.heap, ts);
    assert [] + [Value(v), Value(w), State(DelayedMessageTaskExecute)]
        == [Value(v), Value(w), State(DelayedMessageTaskExecute)];
  }

  lemma DivisorsGood(n: u64, t: Task, ts: u64)
    requires Typed(DivisorsRequest(n), t) && t.stack[|t.stack| - 1].state != Completed
    ensures GoodStep(DivisorsRequest(n), t, ts, TaskStep(t, ts).phase)
  {
    hide TaskStep, DivisorsDown, LargestDivisor;
    var state := t.stack[0].state;
    assert t.stack == [] + [State(state)];
    StepNoVars([], state, t.heap, ts);
    LargestDivisorIsNext(n, t.heap.i);
  }

  lemma FibonacciGood(n: u64, t: Task, ts: u64)
    requires Typed(FibonacciRequest(n), t) && t.stack[|t.stack| - 1].state != Completed
    ensures GoodStep(FibonacciRequest(n), t, ts, TaskStep(t, ts).phase)
  {
    hide TaskStep, Fib, GoodStep;
    var state := t.stack[0].state;
    if state == FibonacciTaskStep { FibonacciStepGood(n, t, ts); } else { FibonacciOthersGood(n, t, ts); }
  }

  lemma FibonacciStepOutcome(n: u64, i: u64, a: u64, b: u64, delay: u64, ts: u64)
    requires i < n
    ensures TaskStep(Task([State(FibonacciTaskStep)], Fibonacci(n, i, a, b, delay)), ts).phase ==
              if a + b > U64_MAX || ts + delay > U64_MAX then Panicked(ArithmeticOverflow)
              else Active(Task([State(FibonacciTaskCalculate)], Fibonacci(n, i + 1, b, a + b, delay)), ts + delay)
  {
    hide TaskStep;
    assert [] + [State(FibonacciTaskStep)] == [State(FibonacciTaskStep)];
    StepNoVars([], FibonacciTaskStep, Fibonacci(n, i, a, b, delay), ts);
  }

  lemma FibonacciStepGood(n: u64, t: Task, ts: u64)
    requires Typed(FibonacciRequest(n), t) && t.stack[0] == State(FibonacciTaskStep)
    ensures GoodStep(FibonacciRequest(n), t, ts, TaskStep(t, ts).phase)
  {
    hide TaskStep, Fib, FibTime, FibEventsFrom, DivisorsDown, LargestDivisor, Factorial, InFactorialCall;
    hide AfterInnerCall, StepsLeftInCall;
    var h := t.heap;
    assert t == Task([State(FibonacciTaskStep)], Fibonacci(n, h.index, h.a, h.b, h.delayMs));
    FibonacciStepOutcome(n, h.index, h.a, h.b, h.delayMs, ts);
    FibUnfold(n, h.index, ts);
  }

  lemma FibonacciOthersGood(n: u64, t: Task, ts: u64)
    requires Typed(FibonacciRequest(n), t) && t.stack[0].state != Completed && t.stack[0].state != FibonacciTaskStep
    ensures GoodStep(FibonacciRequest(n), t, ts, TaskStep(t, ts).phase)
  {
    hide TaskStep, Fib, FibTime, FibEventsFrom, DivisorsDown, LargestDivisor, Factorial, InFactorialCall;
    hide AfterInnerCall, StepsLeftInCall;
    var state := t.stack[0].state;
    assert t.stack == [] + [State(state)];
    StepNoVars([], state, t.heap, ts);
    FibUnfold(n, t.heap.index, ts);
  }

  function CallTask(base: seq<StackEntry>, k: u64, state: TaskState): Task {
    Task(base + [Value(FactorialArgument(k)), State(state)], Empty)
  }

  lemma CallTaskTyped(base: seq<StackEntry>, n: u64, k: u64, state: TaskState, done: nat)
    requires FactorialFrames(base, n, k)
    requires (state, done) in {(FactorialRecursiveCall, 0), (FactorialRecursionPostWrite, 1),
                               (FactorialRecursionPostSleep, 2)}
    ensures Typed(FactorialRequest(n), CallTask(base, k, state))
    ensures StepsLeft(CallTask(base, k, state)) == CallSteps(k) - done + (n - k) + 2
  {
    var t := CallTask(base, k, state);
    assert t.stack[..|t.stack| - 2] == base;
    assert InFactorialCall(t, n, k);
  }

  lemma FactorialCallGood(n: u64, k: u64, state: TaskState, ts: u64, base: seq<StackEntry>)
    requires FactorialFrames(base, n, k)
    requires state in {FactorialRecursiveCall, FactorialRecursionPostWrite, FactorialRecursionPostSleep}
    ensures GoodStep(FactorialRequest(n), CallTask(base, k, state), ts, TaskStep(CallTask(base, k, state), ts).phase)
  {
    hide TaskStep, Typed, StepsLeft;
    var v := FactorialArgument(k);
    StepOneVar(base, v, state, Empty, ts);
    CallTaskTyped(base, n, k, FactorialRecursiveCall, 0);
    CallTaskTyped(base, n, k, FactorialRecursionPostWrite, 1);
    CallTaskTyped(base, n, k, FactorialRecursionPostSleep, 2);
    if state == FactorialRecursionPostSleep { FactorialBranchGood(n, k, ts, base); }
  }

  /** PostSleep: push a frame for k-1, or return 1 into the frame below. */
  lemma FactorialBranchGood(n: u64, k: u64, ts: u64, base: seq<StackEntry>)
    requires FactorialFrames(base, n, k)
    ensures var t := CallTask(base, k, FactorialRecursionPostSleep);
            GoodStep(FactorialRequest(n), t, ts, TaskStep(t, ts).phase)
  {
    hide TaskStep, Typed, StepsLeft, Factorial;
    var v := FactorialArgument(k);
    StepOneVar(base, v, FactorialRecursionPostSleep, Empty, ts);
    CallTaskTyped(base, n, k, FactorialRecursionPostSleep, 2);
    if k > 1 {
      var deeper := base + [Value(v), Retrn(FactorialRecursionPostRecursiveCall)];
      assert base + [Value(v), Retrn(FactorialRecursionPostRecursiveCall), Value(FactorialArgument(k - 1)),
          State(FactorialRecursiveCall)]
          == deeper + [Value(FactorialArgument(k - 1)), State(FactorialRecursiveCall)];
      assert FactorialFrames(deeper, n, k - 1);
      CallTaskTyped(deeper, n, k - 1, FactorialRecursiveCall, 0);
    } else {
      FactorialOfAtMostOne(k);
      FactorialReturnGood(n, k, 1, base);
    }
  }

  lemma FactorialOfAtMostOne(k: nat)
    requires k <= 1
    ensures Factorial(k) == 1
  {
  }

  /** Popping the frame below delivers the return value to a typed task. */
  lemma FactorialReturnGood(n: u64, k: u64, r: u64, base: seq<StackEntry>)
    requires FactorialFrames(base, n, k) && r == Factorial(k)
    ensures base[|base| - 1].Retrn?
    ensures var t' := Task(base[..|base| - 1] + [Value(FactorialReturnValue(r)), State(base[|base| - 1].state)], Empty);
            Typed(FactorialRequest(n), t') && StepsLeft(t') == (n - k) + 2
  {
    hide Factorial;
    var s := base[|base| - 1].state;
    var t' := Task(base[..|base| - 1] + [Value(FactorialReturnValue(r)), State(s)], Empty);
    if k == n {
      assert t'.stack == [Value(FactorialInput(n)), Value(FactorialReturnValue(r)), State(FactorialDone)];
    } else {
      var outer := base[..|base| - 2];
      assert base[2 * (n - k)] == Value(FactorialArgument(k + 1));
      assert t'.stack[..|t'.stack| - 3] == outer;
      assert FactorialFrames(outer, n, k + 1);
      assert AfterInnerCall(t', n, k + 1);
    }
  }

  lemma MultiplyOutcome(base: seq<StackEntry>, k: u64, r: u64, ts: u64)
    requires base != [] && base[|base| - 1].Retrn?
    ensures var top := [Value(FactorialArgument(k)), Value(FactorialReturnValue(r)),
            State(FactorialRecursionPostRecursiveCall)];
            TaskStep(Task(base + top, Empty), ts).phase ==
              if r * k > U64_MAX then Panicked(ArithmeticOverflow)
              else Active(Task(base[..|base| - 1]
                  + [Value(FactorialReturnValue(r * k)), State(base[|base| - 1].state)], Empty), ts)
  {
    hide TaskStep;
    StepTwoVars(base, FactorialReturnValue(r), FactorialArgument(k), FactorialRecursionPostRecursiveCall, Empty, ts);
  }

  lemma FactorialMultiplyGood(n: u64, k: u64, t: Task, ts: u64)
    requires AfterInnerCall(t, n, k) && t.stack[|t.stack| - 1] == State(FactorialRecursionPostRecursiveCall)
    ensures GoodStep(FactorialRequest(n), t, ts, TaskStep(t, ts).phase)
  {
    hide TaskStep, Factorial, Typed;
    var m := |t.stack|;
    var base, r := t.stack[..m - 3], t.stack[m - 2].value.r;
    assert t.stack == base + [Value(FactorialArgument(k)), Value(FactorialReturnValue(r)),
        State(FactorialRecursionPostRecursiveCall)];
    FactorialUnfold(k);
    FramesEndInReturn(base, n, k);
    MultiplyOutcome(base, k, r, ts);
    if r * k <= U64_MAX { FactorialReturnGood(n, k, r * k, base); }
  }

  lemma FramesEndInReturn(base: seq<StackEntry>, n: u64, k: u64)
    requires FactorialFrames(base, n, k)
    ensures base != [] && base[|base| - 1].Retrn?
  {
  }

  lemma FactorialEntryGood(n: u64, ts: u64)
    ensures var t := InitialTask(FactorialRequest(n)); GoodStep(FactorialRequest(n), t, ts, TaskStep(t, ts).phase)
  {
    hide TaskStep, Typed;
    var v := FactorialInput(n);
    assert [Value(v), State(FactorialEntry)] == [] + [Value(v), State(FactorialEntry)];
    StepOneVar([], v, FactorialEntry, Empty, ts);
    var base := [Value(v), Retrn(FactorialDone)];
    assert FactorialFrames(base, n, n);
    CallTaskTyped(base, n, n, FactorialRecursiveCall, 0);
    assert [] + [Value(v), Retrn(FactorialDone), Value(FactorialArgument(n)), State(FactorialRecursiveCall)]
        == base + [Value(FactorialArgument(n)), State(FactorialRecursiveCall)];
  }

  lemma FactorialDoneGood(n: u64, r: u64, ts: u64)
    ensures var t := Task([Value(FactorialInput(n)), Value(FactorialReturnValue(r)), State(FactorialDone)], Empty);
            GoodStep(FactorialRequest(n), t, ts, TaskStep(t, ts).phase)
  {
    hide TaskStep;
    var v, w := FactorialInput(n), FactorialReturnValue(r);
    assert [Value(v), Value(w), State(FactorialDone)] == [] + [Value(v), Value(w), State(FactorialDone)];
    StepTwoVars([], w, v, FactorialDone, Empty, ts);
    assert [] + [State(Completed)] == [State(Completed)];
  }

  lemma FactorialGood(n: u64, t: Task, ts: u64)
    requires Typed(FactorialRequest(n), t) && t.stack[|t.stack| - 1].state != Completed
    ensures GoodStep(FactorialRequest(n), t, ts, TaskStep(t, ts).phase)
  {
    hide TaskStep, GoodStep, FactorialFrames, StepsLeft;
    var state := t.stack[|t.stack| - 1].state;
    if state == FactorialEntry {
      assert t == InitialTask(FactorialRequest(n));
      FactorialEntryGood(n, ts);
    } else if state == FactorialDone {
      FactorialDoneGood(n, Factorial(n), ts);
    } else if state == FactorialRecursionPostRecursiveCall {
      var k: u64 :| AfterInnerCall(t, n, k);
      FactorialMultiplyGood(n, k, t, ts);
    } else {
      var k: u64 :| InFactorialCall(t, n, k);
      InCallGood(n, k, t, ts);
    }
  }

  lemma InCallGood(n: u64, k: u64, t: Task, ts: u64)
    requires InFactorialCall(t, n, k) && t.stack[|t.stack| - 1].State?
    requires t.stack[|t.stack| - 1].state in
               {FactorialRecursiveCall, FactorialRecursionPostWrite, FactorialRecursionPostSleep}
    ensures GoodStep(FactorialRequest(n), t, ts, TaskStep(t, ts).phase)
  {
    hide TaskStep, GoodStep, FactorialFrames;
    var state, base := t.stack[|t.stack| - 1].state, t.stack[..|t.stack| - 2];
    assert t == CallTask(base, k, state);
    FactorialCallGood(n, k, state, ts, base);
  }

  /** Preservation and progress: a typed task steps to a typed task with
      exactly one step less to go, is finished, or overflows. It reaches no
      other panic. */
  lemma TypedStep(req: Request, t: Task, ts: u64)
    requires Typed(req, t)
    ensures GoodStep(req, t, ts, TaskStep(t, ts).phase)
  {
    hide GoodStep, TaskStep;
    if t.stack[|t.stack| - 1].state == Completed {
      CompletedGood(req, t, ts);
    } else {
      match req
      case DelayRequest(ms, text) => DelayGood(ms, text, t, ts);
      case DivisorsRequest(n) => DivisorsGood(n, t, ts);
      case FibonacciRequest(n) => FibonacciGood(n, t, ts);
      case FactorialRequest(n) => FactorialGood(n, t, ts);
    }
  }

  /** Where a typed snapshot stands after any number of steps. */
  ghost predicate TypedSnapshot(req: Request, s: Snapshot) {
    match s.phase
    case Active(t, _) => Typed(req, t)
    case Over => true
    case Panicked(reason) => reason == ArithmeticOverflow
  }

  function SnapshotStepsLeft(s: Snapshot): nat {
    if s.phase.Active? then StepsLeft(s.phase.task) else 0
  }

  /** From a typed task every reachable stack is typed, no panic but overflow
      is reachable, and the task is still running after k steps only when
      more than k steps were left; unless it overflows, exactly that many. */
  lemma {:induction false} TypedRun(req: Request, s: Snapshot, k: nat)
    requires TypedSnapshot(req, s)
    ensures TypedSnapshot(req, Run(s, k))
    ensures var left := SnapshotStepsLeft(s);
            Run(s, k).phase.Panicked? || SnapshotStepsLeft(Run(s, k)) == if k <= left then left - k else 0
    decreases k
  {
    hide Typed, StepsLeft, TaskStep;
    if k > 0 {
      if s.phase.Active? {
        TypedStep(req, s.phase.task, s.phase.ts);
        TypedRun(req, Advance(s), k - 1);
        if !Advance(s).phase.Active? { RunStuck(Advance(s), k - 1); }
      } else {
        RunStuck(s, k);
      }
    }
  }

  lemma TypedTaskHasStepsLeft(req: Request, t: Task)
    requires Typed(req, t)
    ensures StepsLeft(t) >= 1
  {
    hide DivisorsDown, Fib, Factorial;
  }

  /** No structural panic: whatever the input and the clock, a task scheduled
      by a handler never meets a mismatched argument, a wrong heap, an empty
      stack, a value where a state is expected or a missing return point. */
  lemma NoStructuralPanic(req: Request, ts: u64, k: nat)
    ensures var phase := Run(Start(req, ts), k).phase;
            && (phase.Panicked? ==> phase.reason == ArithmeticOverflow && !Fits(req, ts))
            && (phase.Active? ==> Typed(req, phase.task) && StepsLeft(phase.task) == Steps(req) - k && k < Steps(req))
            && (phase.Over? ==> k >= Steps(req))
  {
    hide Typed, StepsLeft, TaskStep;
    InitialTaskTyped(req);
    var s := Start(req, ts);
    TypedRun(req, s, k);
    if Run(s, k).phase.Panicked? {
      TypedRun(req, s, k + Steps(req));
      RunAdd(s, k, Steps(req));
      RunStuck(Run(s, k), Steps(req));
      RunAdd(s, Steps(req), k);
      ProgramsRunAsSpecified(req, ts);
      if Fits(req, ts) { RunStuck(Run(s, Steps(req)), k); }
    } else if Run(s, k).phase.Active? {
      TypedTaskHasStepsLeft(req, Run(s, k).phase.task);
    }
  }

  // ----- How deep the factorial stack gets -------------------------------

  function DepthBound(n: nat): nat {
    2 * (if n == 0 then 1 else n) + 2
  }

  lemma FactorialStackBounded(n: u64, ts: u64, k: nat)
    ensures var phase := Run(Start(FactorialRequest(n), ts), k).phase;
            phase.Active? ==> |phase.task.stack| <= DepthBound(n)
  {
    hide Factorial, StepsLeft, Run;
    NoStructuralPanic(FactorialRequest(n), ts, k);
  }

  /** Three steps take a call for k to a call for k-1, one frame deeper. */
  lemma FactorialCallsInner(below: seq<StackEntry>, s: TaskState, k: u64, ts: u64, out: seq<Event>)
    requires k > 1 && ts + k * 50 <= U64_MAX
    ensures Run(CallStart(below, s, k, ts, out), 3)
         == CallStart(below + [Retrn(s), Value(FactorialArgument(k))], FactorialRecursionPostRecursiveCall, k - 1,
                      ts + k * 50, out + [Event(ts, FactorialCall(k))])
  {
    hide Run, CallStart;
    var s0, out1 := CallStart(below, s, k, ts, out), out + [Event(ts, FactorialCall(k))];
    assert below + [Retrn(s)] + [Value(FactorialArgument(k))] == below + [Retrn(s), Value(FactorialArgument(k))];
    FactorialCallPrologue(below, s, k, ts, out);
    FactorialCallBranch(below, s, k, ts + k * 50, out1);
    RunChain(s0, 2, Run(s0, 2), 1, Run(Run(s0, 2), 1));
  }

  /** So a call for k gets down to a call for 1, k-1 frames higher. */
  lemma {:induction false} FactorialDescends(below: seq<StackEntry>, s: TaskState, k: u64, ts: u64, out: seq<Event>)
    returns (j: nat, below': seq<StackEntry>, s': TaskState, ts': u64, out': seq<Event>)
    requires k >= 1 && ts + CallTime(k) - 50 <= U64_MAX
    ensures Run(CallStart(below, s, k, ts, out), j) == CallStart(below', s', 1, ts', out')
    ensures |below'| == |below| + 2 * (k - 1)
    decreases k
  {
    hide Run, CallStart, CallTime;
    var s0 := CallStart(below, s, k, ts, out);
    if k == 1 {
      j, below', s', ts', out' := 0, below, s, ts, out;
      RunNone(s0);
    } else {
      var out1 := out + [Event(ts, FactorialCall(k))];
      var deeper := below + [Retrn(s), Value(FactorialArgument(k))];
      CallTimeUnfold(k);
      CallTimeAtLeast(k - 1);
      FactorialCallsInner(below, s, k, ts, out);
      var s3 := CallStart(deeper, FactorialRecursionPostRecursiveCall, k - 1, ts + k * 50, out1);
      j, below', s', ts', out' :=
        FactorialDescends(deeper, FactorialRecursionPostRecursiveCall, k - 1, ts + k * 50, out1);
      RunChain(s0, 3, s3, j, Run(s3, j));
      j := 3 + j;
    }
  }

  lemma RunNone(s: Snapshot)
    ensures Run(s, 0) == s
  {
  }

  lemma CallTimeUnfold(k: nat)
    requires k >= 1
    ensures CallTime(k) == 50 * k + CallTime(k - 1)
  {
  }

  lemma {:induction false} CallTimeAtLeast(k: nat)
    ensures k >= 1 ==> CallTime(k) >= 50
  {
    if k >= 1 { CallTimeUnfold(k); }
  }

  /** A call whose sleeps do not fit before f(1) stays below the depth at which
      it would call f(1). */
  lemma {:induction false} StaysShallow(below: seq<StackEntry>, s: TaskState, k: u64, ts: u64, out: seq<Event>, j: nat)
    requires k > 1 && ts + CallTime(k) - 50 > U64_MAX
    ensures var phase := Run(CallStart(below, s, k, ts, out), j).phase;
            phase.Active? ==> |phase.task.stack| < |below| + 2 * k + 1
    decreases k
  {
    hide CallTime, Run, CallStart;
    CallTimeUnfold(k);
    CallTimeUnfold(k - 1);
    CallTimeOfZero();
    if j <= 2 || ts + k * 50 > U64_MAX {
      CallBegins(below, s, k, ts, out, j);
    } else {
      var s0, out1 := CallStart(below, s, k, ts, out), out + [Event(ts, FactorialCall(k))];
      var deeper := below + [Retrn(s), Value(FactorialArgument(k))];
      FactorialCallsInner(below, s, k, ts, out);
      var s3 := CallStart(deeper, FactorialRecursionPostRecursiveCall, k - 1, ts + k * 50, out1);
      RunChain(s0, 3, s3, j - 3, Run(s3, j - 3));
      StaysShallow(deeper, FactorialRecursionPostRecursiveCall, k - 1, ts + k * 50, out1, j - 3);
    }
  }

  lemma CallTimeOfZero()
    ensures CallTime(0) == 0
  {
  }

  /** The first two steps of a call push nothing, and an overflow of its sleep
      ends the run. */
  lemma CallBegins(below: seq<StackEntry>, s: TaskState, k: u64, ts: u64, out: seq<Event>, j: nat)
    requires j <= 2 || ts + k * 50 > U64_MAX
    ensures var phase := Run(CallStart(below, s, k, ts, out), j).phase;
            phase.Active? ==> |phase.task.stack| == |below| + 3
  {
    var s0 := CallStart(below, s, k, ts, out);
    if j == 1 {
      CallFirstStep(below, s, k, ts, out);
    } else if j >= 2 {
      FactorialCallPrologue(below, s, k, ts, out);
      hide Run, CallStart;
      RunAdd(s0, 2, j - 2);
      if Run(s0, 2).phase.Active? { RunNone(Run(s0, 2)); } else { RunStuck(Run(s0, 2), j - 2); }
    }
  }

  lemma CallFirstStep(below: seq<StackEntry>, s: TaskState, k: u64, ts: u64, out: seq<Event>)
    ensures var phase := Run(CallStart(below, s, k, ts, out), 1).phase;
            phase.Active? && |phase.task.stack| == |below| + 3
  {
    var base := below + [Retrn(s)];
    assert base + [Value(FactorialArgument(k)), State(FactorialRecursiveCall)]
        == below + [Retrn(s), Value(FactorialArgument(k)), State(FactorialRecursiveCall)];
    StepOneVar(base, FactorialArgument(k), FactorialRecursiveCall, Empty, ts);
  }

  /** The bound is reached if and only if the sleeps before f(1) fit the clock;
      the sleep after it and the product do not matter. */
  lemma FactorialDepthReached(n: u64, ts: u64)
    ensures (n >= 1 ==> ts + CallTime(n) - 50 <= U64_MAX)
        <==> exists k :: var phase := Run(Start(FactorialRequest(n), ts), k).phase;
                         phase.Active? && |phase.task.stack| == DepthBound(n)
  {
    hide Run, CallTime;
    var below := [Value(FactorialInput(n))];
    FactorialBegins(n, ts);
    var s0, s1 := Start(FactorialRequest(n), ts), CallStart(below, FactorialDone, n, ts, []);
    if n == 0 {
      assert Run(s0, 1).phase.Active? && |Run(s0, 1).phase.task.stack| == DepthBound(n);
    } else if ts + CallTime(n) - 50 <= U64_MAX {
      var j, below', s', ts', out' := FactorialDescends(below, FactorialDone, n, ts, []);
      RunChain(s0, 1, s1, j, CallStart(below', s', 1, ts', out'));
      assert Run(s0, 1 + j).phase.Active?;
    } else {
      forall k: nat
        ensures var phase := Run(s0, k).phase; phase.Active? ==> |phase.task.stack| < DepthBound(n)
      {
        if k == 0 {
          RunNone(s0);
        } else {
          RunChain(s0, 1, s1, k - 1, Run(s1, k - 1));
          CallTimeUnfold(n);
          CallTimeOfZero();
          StaysShallow(below, FactorialDone, n, ts, [], k - 1);
        }
      }
    }
  }
}
