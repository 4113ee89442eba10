/** The Maroon virtual machine: task states, the typed call stack, the private
    heap of a task, and one step of one task.

    A step is a total function. Every panic of the program is an explicit
    outcome, so that "no panic" is a theorem about runs and not a convention.
    Arithmetic on u64 is checked: a result that does not fit is the panic
    ArithmeticOverflow. */
module MaroonMachine {

  const U64_MAX: int := 0xFFFF_FFFF_FFFF_FFFF

  type u64 = x: int | 0 <= x <= U64_MAX

  datatype TaskState =
    | Completed
    | DelayedMessageTaskBegin
    | DelayedMessageTaskExecute
    | DivisorsTaskBegin
    | DivisorsTaskIteration
    | DivisorsPrintAndMoveOn
    | FibonacciTaskBegin
    | FibonacciTaskCalculate
    | FibonacciTaskResult
    | FibonacciTaskStep
    | FactorialEntry
    | FactorialRecursiveCall
    | FactorialRecursionPostWrite
    | FactorialRecursionPostSleep
    | FactorialRecursionPostRecursiveCall
    | FactorialDone

  datatype StackValue =
    | DelayInputMs(ms: u64)
    | DelayInputMessage(text: string)
    | FactorialInput(n: u64)
    | FactorialArgument(k: u64)
    | FactorialReturnValue(r: u64)

  datatype StackEntry =
    | State(state: TaskState)
    | Retrn(state: TaskState)
    | Value(value: StackValue)

  datatype Heap =
    | Empty
    | Divisors(n: u64, i: u64)
    | Fibonacci(n: u64, index: u64, a: u64, b: u64, delayMs: u64)

  datatype Task = Task(stack: seq<StackEntry>, heap: Heap)

  /** How many entries below `State(s)` are its local variables. */
  function LocalVarsCount(s: TaskState): nat {
    match s
    case FactorialEntry => 1
    case FactorialRecursiveCall => 1
    case FactorialRecursionPostWrite => 1
    case FactorialRecursionPostSleep => 1
    case FactorialRecursionPostRecursiveCall => 2
    case FactorialDone => 2
    case DelayedMessageTaskBegin => 2
    case DelayedMessageTaskExecute => 2
    case _ => 0
  }

  /** How many entries below `Retrn(s)` are its local variables. */
  function ReturnLocalVarsCount(s: TaskState): nat {
    match s
    case FactorialDone => 1
    case FactorialRecursionPostRecursiveCall => 1
    case _ => 0
  }

  /** What a task writes, as structure rather than formatted text. */
  datatype Message =
    | Delayed(ms: nat, text: string)
    | DivisorFound(n: nat, i: nat)
    | DivisorsDone(n: nat)
    | FibonacciStep(n: nat, index: nat, value: nat)
    | FibonacciResult(n: nat, value: nat)
    | FactorialCall(k: nat)
    | FactorialResult(n: nat, r: nat)

  datatype Event = Event(ts: nat, message: Message)

  datatype PanicReason =
    | EmptyStack
    | TopIsNotAState
    | VarIsNotAValue
    | UnexpectedArguments
    | HeapTypeMismatch
    | NowhereToReturn
    | ReturnIntoNonRetrn
    | TaskNotFound
    | ArithmeticOverflow

  datatype StepResult =
    | Done
    | Next(entries: seq<StackEntry>)
    | Sleep(ms: u64, entries: seq<StackEntry>)
    | Write(message: Message, entries: seq<StackEntry>)
    | Return(value: StackValue)
    | Panic(reason: PanicReason)

  /** The number the inner loop of `DivisorsTaskIteration` stops at: the first
      divisor of n met when counting down from i, or 0. */
  function LargestDivisor(n: u64, i: u64): (r: u64)
    decreases i
  {
    if i > 0 && n % i != 0 then LargestDivisor(n, i - 1) else i
  }

  /** One application of the transition table: the result and the new heap. */
  function GlobalStep(state: TaskState, vars: seq<StackValue>, heap: Heap): (StepResult, Heap) {
    match state
    case DelayedMessageTaskBegin =>
      if |vars| >= 2 && vars[0].DelayInputMessage? && vars[1].DelayInputMs? then
        (Sleep(vars[1].ms, [Value(vars[1]), Value(vars[0]), State(DelayedMessageTaskExecute)]), heap)
      else (Panic(UnexpectedArguments), heap)
    case DelayedMessageTaskExecute =>
      if |vars| >= 2 && vars[0].DelayInputMessage? && vars[1].DelayInputMs? then
        (Write(Delayed(vars[1].ms, vars[0].text), [State(Completed)]), heap)
      else (Panic(UnexpectedArguments), heap)
    case DivisorsTaskBegin =>
      if heap.Divisors? then (Next([State(DivisorsTaskIteration)]), heap.(i := heap.n))
      else (Panic(HeapTypeMismatch), heap)
    case DivisorsTaskIteration =>
      if heap.Divisors? then
        var i := LargestDivisor(heap.n, heap.i);
        if i == 0 then (Write(DivisorsDone(heap.n), [State(Completed)]), heap)
        else if i * 10 > U64_MAX then (Panic(ArithmeticOverflow), heap)
        else (Sleep(i * 10, [State(DivisorsPrintAndMoveOn)]), heap.(i := i))
      else (Panic(HeapTypeMismatch), heap)
    case DivisorsPrintAndMoveOn =>
      if heap.Divisors? then
        if heap.i == 0 then (Panic(ArithmeticOverflow), heap)
        else (Write(DivisorFound(heap.n, heap.i), [State(DivisorsTaskIteration)]), heap.(i := heap.i - 1))
      else (Panic(HeapTypeMismatch), heap)
    case FibonacciTaskBegin =>
      if heap.Fibonacci? then
        if heap.n <= 1 then (Write(FibonacciResult(heap.n, heap.n), [State(Completed)]), heap)
        else (Next([State(FibonacciTaskCalculate)]), heap.(index := 1, a := 0, b := 1))
      else (Panic(HeapTypeMismatch), heap)
    case FibonacciTaskCalculate =>
      if heap.Fibonacci? then
        if heap.index >= heap.n then (Next([State(FibonacciTaskResult)]), heap)
        else if 5 * heap.index > U64_MAX then (Panic(ArithmeticOverflow), heap)
        else (Write(FibonacciStep(heap.n, heap.index, heap.b), [State(FibonacciTaskStep)]),
              heap.(delayMs := 5 * heap.index))
      else (Panic(HeapTypeMismatch), heap)
    case FibonacciTaskStep =>
      if heap.Fibonacci? then
        if heap.index + 1 > U64_MAX || heap.a + heap.b > U64_MAX then (Panic(ArithmeticOverflow), heap)
        else (Sleep(heap.delayMs, [State(FibonacciTaskCalculate)]),
              heap.(index := heap.index + 1, a := heap.b, b := heap.a + heap.b))
      else (Panic(HeapTypeMismatch), heap)
    case FibonacciTaskResult =>
      if heap.Fibonacci? then (Write(FibonacciResult(heap.n, heap.b), [State(Completed)]), heap)
      else (Panic(HeapTypeMismatch), heap)
    case FactorialEntry =>
      if |vars| >= 1 && vars[0].FactorialInput? then
        (Next([Value(vars[0]), Retrn(FactorialDone),
               Value(FactorialArgument(vars[0].n)), State(FactorialRecursiveCall)]), heap)
      else (Panic(UnexpectedArguments), heap)
    case FactorialRecursiveCall =>
      if |vars| >= 1 && vars[0].FactorialArgument? then
        (Write(FactorialCall(vars[0].k), [Value(vars[0]), State(FactorialRecursionPostWrite)]), heap)
      else (Panic(UnexpectedArguments), heap)
    case FactorialRecursionPostWrite =>
      if |vars| >= 1 && vars[0].FactorialArgument? then
        if vars[0].k * 50 > U64_MAX then (Panic(ArithmeticOverflow), heap)
        else (Sleep(vars[0].k * 50, [Value(vars[0]), State(FactorialRecursionPostSleep)]), heap)
      else (Panic(UnexpectedArguments), heap)
    case FactorialRecursionPostSleep =>
      if |vars| >= 1 && vars[0].FactorialArgument? then
        if vars[0].k > 1 then
          (Next([Value(vars[0]), Retrn(FactorialRecursionPostRecursiveCall),
                 Value(FactorialArgument(vars[0].k - 1)), State(FactorialRecursiveCall)]), heap)
        else (Return(FactorialReturnValue(1)), heap)
      else (Panic(UnexpectedArguments), heap)
    case FactorialRecursionPostRecursiveCall =>
      if |vars| >= 2 && vars[0].FactorialReturnValue? && vars[1].FactorialArgument? then
        if vars[0].r * vars[1].k > U64_MAX then (Panic(ArithmeticOverflow), heap)
        else (Return(FactorialReturnValue(vars[0].r * vars[1].k)), heap)
      else (Panic(UnexpectedArguments), heap)
    case FactorialDone =>
      if |vars| >= 2 && vars[0].FactorialReturnValue? && vars[1].FactorialInput? then
        (Write(FactorialResult(vars[1].n, vars[0].r), [State(Completed)]), heap)
      else (Panic(UnexpectedArguments), heap)
    case Completed => (Done, heap)
  }

  /** Where a task stands, together with everything it has written so far. */
  datatype Phase =
    | Active(task: Task, ts: u64)
    | Over
    | Panicked(reason: PanicReason)

  datatype Snapshot = Snapshot(phase: Phase, out: seq<Event>)

  /** The entries `count` deep below the top are all values. */
  predicate TopAreValues(stack: seq<StackEntry>, count: nat) {
    count <= |stack| && forall j :: |stack| - count <= j < |stack| ==> stack[j].Value?
  }

  /** The variables of the running state, topmost first. */
  function TopValues(stack: seq<StackEntry>, count: nat): (vars: seq<StackValue>)
    requires TopAreValues(stack, count)
  {
    seq(count, j requires 0 <= j < count => stack[|stack| - 1 - j].value)
  }

  /** What the drain loop does with a step result, on the stack that is left
      once the state and its variables have been popped. */
  function Apply(rest: seq<StackEntry>, result: StepResult, heap: Heap, ts: u64): Snapshot {
    match result
    case Done => Snapshot(Over, [])
    case Next(entries) => Snapshot(Active(Task(rest + entries, heap), ts), [])
    case Sleep(ms, entries) =>
      if ts + ms > U64_MAX then Snapshot(Panicked(ArithmeticOverflow), [])
      else Snapshot(Active(Task(rest + entries, heap), ts + ms), [])
    case Write(message, entries) =>
      Snapshot(Active(Task(rest + entries, heap), ts), [Event(ts, message)])
    case Return(value) =>
      if rest == [] then Snapshot(Panicked(NowhereToReturn), [])
      else if !rest[|rest| - 1].Retrn? then Snapshot(Panicked(ReturnIntoNonRetrn), [])
      else Snapshot(Active(Task(rest[..|rest| - 1] + [Value(value), State(rest[|rest| - 1].state)], heap), ts), [])
    case Panic(reason) => Snapshot(Panicked(reason), [])
  }

  /** One iteration of the drain loop, seen from the popped task. */
  function TaskStep(task: Task, ts: u64): Snapshot {
    var stack := task.stack;
    if stack == [] then Snapshot(Panicked(EmptyStack), [])
    else if !stack[|stack| - 1].State? then Snapshot(Panicked(TopIsNotAState), [])
    else
      var state, below := stack[|stack| - 1].state, stack[..|stack| - 1];
      var count := LocalVarsCount(state);
      if !TopAreValues(below, count) then Snapshot(Panicked(VarIsNotAValue), [])
      else
        var (result, heap) := GlobalStep(state, TopValues(below, count), task.heap);
        Apply(below[..|below| - count], result, heap, ts)
  }

  function Advance(s: Snapshot): Snapshot {
    match s.phase
    case Active(task, ts) => var o := TaskStep(task, ts); Snapshot(o.phase, s.out + o.out)
    case _ => s
  }

  /** The task alone: `k` steps with no other task around. */
  function Run(s: Snapshot, k: nat): Snapshot
    decreases k
  {
    if k == 0 then s else Run(Advance(s), k - 1)
  }

  lemma {:induction false} RunAdd(s: Snapshot, j: nat, k: nat)
    ensures Run(s, j + k) == Run(Run(s, j), k)
    decreases j
  {
    if j > 0 { RunAdd(Advance(s), j - 1, k); }
  }

  lemma RunSucc(s: Snapshot, k: nat)
    ensures Run(s, k + 1) == Advance(Run(s, k))
  {
    RunAdd(s, k, 1);
    assert Run(Run(s, k), 1) == Run(Advance(Run(s, k)), 0);
  }

  lemma {:induction false} RunStuck(s: Snapshot, k: nat)
    requires !s.phase.Active?
    ensures Run(s, k) == s
    decreases k
  {
    if k > 0 { RunStuck(Advance(s), k - 1); }
  }

  /** One step on a stack whose top is spelled out: state over no variable, one
      variable, two variables. */
  lemma StepNoVars(below: seq<StackEntry>, state: TaskState, heap: Heap, ts: u64)
    requires LocalVarsCount(state) == 0
    ensures TaskStep(Task(below + [State(state)], heap), ts)
         == var (result, heap') := GlobalStep(state, [], heap); Apply(below, result, heap', ts)
  {
    var stack := below + [State(state)];
    assert stack[..|stack| - 1] == below;
    assert TopValues(below, 0) == [];
    assert below[..|below|] == below;
  }

  lemma StepOneVar(below: seq<StackEntry>, v: StackValue, state: TaskState, heap: Heap, ts: u64)
    requires LocalVarsCount(state) == 1
    ensures TaskStep(Task(below + [Value(v), State(state)], heap), ts)
         == var (result, heap') := GlobalStep(state, [v], heap); Apply(below, result, heap', ts)
  {
    var stack := below + [Value(v), State(state)];
    assert stack[..|stack| - 1] == below + [Value(v)];
    assert TopValues(below + [Value(v)], 1) == [v];
    assert (below + [Value(v)])[..|below|] == below;
  }

  lemma StepTwoVars(below: seq<StackEntry>, v: StackValue, w: StackValue, state: TaskState, heap: Heap, ts: u64)
    requires LocalVarsCount(state) == 2
    ensures TaskStep(Task(below + [Value(w), Value(v), State(state)], heap), ts)
         == var (result, heap') := GlobalStep(state, [v, w], heap); Apply(below, result, heap', ts)
  {
    var stack := below + [Value(w), Value(v), State(state)];
    var vars := below + [Value(w), Value(v)];
    assert stack[..|stack| - 1] == vars;
    assert TopValues(vars, 2) == [v, w];
    assert vars[..|below|] == below;
  }
}
