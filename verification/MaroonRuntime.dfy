/** The runtime object and its methods, as the program runs them: the step
    function that updates the heap in place, one lock-protected iteration of
    the drain loop, and the drain loop itself. Each is proved against the
    transition functions of MaroonMachine and MaroonScheduler. */
module MaroonRuntime {
  import opened MaroonMachine
  import opened MaroonPrograms
  import opened MaroonTyping
  import Scheduler = MaroonScheduler
  import Service = MaroonService

  /** The search loop of `DivisorsTaskIteration`. */
  method SearchDivisor(n: u64, start: u64) returns (i: u64)
    ensures i == LargestDivisor(n, start)
  {
    i := start;
    while i > 0 && n % i != 0
      invariant LargestDivisor(n, i) == LargestDivisor(n, start)
      decreases i
    {
      i := i - 1;
    }
  }

  /** `heap0` is the heap before the call, `heap` the same heap after it: the
      program holds the only reference to it and updates it in place. */
  method StepTaskInPlace(state: TaskState, vars: seq<StackValue>, heap0: Heap) returns (result: StepResult, heap: Heap)
    ensures (result, heap) == GlobalStep(state, vars, heap0)
  {
    heap := heap0;
    match state
    case DelayedMessageTaskBegin =>
      if |vars| >= 2 && vars[0].DelayInputMessage? && vars[1].DelayInputMs? {
        var msg, delayMs := vars[0].text, vars[1].ms;
        result := Sleep(delayMs,
            [Value(DelayInputMs(delayMs)), Value(DelayInputMessage(msg)), State(DelayedMessageTaskExecute)]);
      } else {
        result := Panic(UnexpectedArguments);
      }
    case DelayedMessageTaskExecute =>
      if |vars| >= 2 && vars[0].DelayInputMessage? && vars[1].DelayInputMs? {
        result := Write(Delayed(vars[1].ms, vars[0].text), [State(Completed)]);
      } else {
        result := Panic(UnexpectedArguments);
      }
    case DivisorsTaskBegin =>
      if heap.Divisors? {
        heap := heap.(i := heap.n);
        result := Next([State(DivisorsTaskIteration)]);
      } else {
        result := Panic(HeapTypeMismatch);
      }
    case DivisorsTaskIteration =>
      if heap.Divisors? {
        var i := SearchDivisor(heap.n, heap.i);
        if i == 0 {
          result := Write(DivisorsDone(heap.n), [State(Completed)]);
        } else if i * 10 > U64_MAX {
          result := Panic(ArithmeticOverflow);
        } else {
          heap := heap.(i := i);
          result := Sleep(i * 10, [State(DivisorsPrintAndMoveOn)]);
        }
      } else {
        result := Panic(HeapTypeMismatch);
      }
    case DivisorsPrintAndMoveOn =>
      if heap.Divisors? {
        if heap.i == 0 {
          result := Panic(ArithmeticOverflow);
        } else {
          result := Write(DivisorFound(heap.n, heap.i), [State(DivisorsTaskIteration)]);
          heap := heap.(i := heap.i - 1);
        }
      } else {
        result := Panic(HeapTypeMismatch);
      }
    case FibonacciTaskBegin =>
      if heap.Fibonacci? {
        if heap.n <= 1 {
          result := Write(FibonacciResult(heap.n, heap.n), [State(Completed)]);
        } else {
          heap := heap.(index := 1);
          heap := heap.(a := 0);
          heap := heap.(b := 1);
          result := Next([State(FibonacciTaskCalculate)]);
        }
      } else {
        result := Panic(HeapTypeMismatch);
      }
    case FibonacciTaskCalculate =>
      if heap.Fibonacci? {
        if heap.index >= heap.n {
          result := Next([State(FibonacciTaskResult)]);
        } else if 5 * heap.index > U64_MAX {
          result := Panic(ArithmeticOverflow);
        } else {
          heap := heap.(delayMs := 5 * heap.index);
          result := Write(FibonacciStep(heap.n, heap.index, heap.b), [State(FibonacciTaskStep)]);
        }
      } else {
        result := Panic(HeapTypeMismatch);
      }
    case FibonacciTaskStep =>
      if heap.Fibonacci? {
        if heap.index + 1 > U64_MAX || heap.a + heap.b > U64_MAX {
          result := Panic(ArithmeticOverflow);
        } else {
          var nextIndex, nextA, nextB := heap.index + 1, heap.b, heap.a + heap.b;
          heap := heap.(index := nextIndex);
          heap := heap.(a := nextA);
          heap := heap.(b := nextB);
          result := Sleep(heap.delayMs, [State(FibonacciTaskCalculate)]);
        }
      } else {
        result := Panic(HeapTypeMismatch);
      }
    case FibonacciTaskResult =>
      if heap.Fibonacci? {
        result := Write(FibonacciResult(heap.n, heap.b), [State(Completed)]);
      } else {
        result := Panic(HeapTypeMismatch);
      }
    case FactorialEntry =>
      if |vars| >= 1 && vars[0].FactorialInput? {
        var n := vars[0].n;
        result := Next([Value(FactorialInput(n)), Retrn(FactorialDone), Value(FactorialArgument(n)),
            State(FactorialRecursiveCall)]);
      } else {
        result := Panic(UnexpectedArguments);
      }
    case FactorialRecursiveCall =>
      if |vars| >= 1 && vars[0].FactorialArgument? {
        var n := vars[0].k;
        result := Write(FactorialCall(n), [Value(FactorialArgument(n)), State(FactorialRecursionPostWrite)]);
      } else {
        result := Panic(UnexpectedArguments);
      }
    case FactorialRecursionPostWrite =>
      if |vars| >= 1 && vars[0].FactorialArgument? {
        var n := vars[0].k;
        if n * 50 > U64_MAX {
          result := Panic(ArithmeticOverflow);
        } else {
          result := Sleep(n * 50, [Value(FactorialArgument(n)), State(FactorialRecursionPostSleep)]);
        }
      } else {
        result := Panic(UnexpectedArguments);
      }
    case FactorialRecursionPostSleep =>
      if |vars| >= 1 && vars[0].FactorialArgument? {
        var n := vars[0].k;
        if n > 1 {
          result := Next([Value(FactorialArgument(n)), Retrn(FactorialRecursionPostRecursiveCall),
                          Value(FactorialArgument(n - 1)), State(FactorialRecursiveCall)]);
        } else {
          result := Return(FactorialReturnValue(1));
        }
      } else {
        result := Panic(UnexpectedArguments);
      }
    case FactorialRecursionPostRecursiveCall =>
      if |vars| >= 2 && vars[0].FactorialReturnValue? && vars[1].FactorialArgument? {
        var a, n := vars[0].r, vars[1].k;
        if a * n > U64_MAX {
          result := Panic(ArithmeticOverflow);
        } else {
          result := Return(FactorialReturnValue(a * n));
        }
      } else {
        result := Panic(UnexpectedArguments);
      }
    case FactorialDone =>
      if |vars| >= 2 && vars[0].FactorialReturnValue? && vars[1].FactorialInput? {
        var r, n := vars[0].r, vars[1].n;
        result := Write(FactorialResult(n, r), [State(Completed)]);
      } else {
        result := Panic(UnexpectedArguments);
      }
    case Completed =>
      result := Done;
  }

  /** Pops `count` values off the stack, topmost first. */
  method PopVars(stack: seq<StackEntry>, count: nat) returns (ok: bool, vars: seq<StackValue>, rest: seq<StackEntry>)
    ensures ok == TopAreValues(stack, count)
    ensures ok ==> vars == TopValues(stack, count) && rest == stack[..|stack| - count]
  {
    vars, rest := [], stack;
    for i := 0 to count
      invariant |vars| == i <= |stack|
      invariant rest == stack[..|stack| - i]
      invariant forall j :: 0 <= j < i ==> stack[|stack| - 1 - j] == Value(vars[j])
    {
      if rest == [] || !rest[|rest| - 1].Value? {
        if rest != [] { assert !stack[|stack| - 1 - i].Value?; }
        return false, vars, rest;
      }
      vars, rest := vars + [rest[|rest| - 1].value], rest[..|rest| - 1];
    }
    forall j | |stack| - count <= j < |stack|
      ensures stack[j].Value?
    {
      assert stack[|stack| - 1 - (|stack| - 1 - j)] == Value(vars[|stack| - 1 - j]);
    }
    ok := true;
  }

  /** Pushes the new entries one by one. */
  method PushAll(stack0: seq<StackEntry>, entries: seq<StackEntry>) returns (stack: seq<StackEntry>)
    ensures stack == stack0 + entries
  {
    stack := stack0;
    for i := 0 to |entries|
      invariant stack == stack0 + entries[..i]
    {
      stack := stack + [entries[i]];
    }
  }

  /** What the loop body does with the popped task: its new place in the queue,
      or why the process panicked, and the lines it wrote. */
  method ExecuteStep(task: Task, ts: u64) returns (o: Snapshot)
    ensures o == TaskStep(task, ts)
  {
    var stack := task.stack;
    if stack == [] {
      return Snapshot(Panicked(EmptyStack), []);
    }
    var current := stack[|stack| - 1];
    stack := stack[..|stack| - 1];
    if !current.State? {
      return Snapshot(Panicked(TopIsNotAState), []);
    }
    var ok, vars, rest := PopVars(stack, LocalVarsCount(current.state));
    if !ok {
      return Snapshot(Panicked(VarIsNotAValue), []);
    }
    var result, heap := StepTaskInPlace(current.state, vars, task.heap);
    o := ApplyResult(rest, result, heap, ts);
  }

  method ApplyResult(rest: seq<StackEntry>, result: StepResult, heap: Heap, ts: u64) returns (o: Snapshot)
    ensures o == Apply(rest, result, heap, ts)
  {
    match result
    case Done =>
      o := Snapshot(Over, []);
    case Sleep(ms, entries) =>
      var stack := PushAll(rest, entries);
      if ts + ms > U64_MAX {
        o := Snapshot(Panicked(ArithmeticOverflow), []);
      } else {
        o := Snapshot(Active(Task(stack, heap), ts + ms), []);
      }
    case Write(message, entries) =>
      var stack := PushAll(rest, entries);
      o := Snapshot(Active(Task(stack, heap), ts), [Event(ts, message)]);
    case Next(entries) =>
      var stack := PushAll(rest, entries);
      o := Snapshot(Active(Task(stack, heap), ts), []);
    case Return(value) =>
      if rest == [] {
        o := Snapshot(Panicked(NowhereToReturn), []);
      } else if rest[|rest| - 1].Retrn? {
        var stack := PushAll(rest[..|rest| - 1], [Value(value), State(rest[|rest| - 1].state)]);
        o := Snapshot(Active(Task(stack, heap), ts), []);
      } else {
        o := Snapshot(Panicked(ReturnIntoNonRetrn), []);
      }
    case Panic(reason) =>
      o := Snapshot(Panicked(reason), []);
  }

  datatype Iteration =
    | Idle
    | Progressed(popped: Scheduler.Timestamped)
    | Crashed(popped: Scheduler.Timestamped, reason: PanicReason)

  datatype DrainResult =
    | Drained(iterations: nat)
    | Died(iterations: nat, popped: Scheduler.Timestamped)

  class Runtime {
    var nextTaskId: nat
    var pendingOperations: multiset<Scheduler.Timestamped>
    var activeTasks: map<nat, Task>
    var written: seq<Scheduler.Written>

    /** The abstract state. */
    ghost function View(): Scheduler.Runtime
      reads this
    {
      Scheduler.Runtime(nextTaskId, pendingOperations, activeTasks, written)
    }

    constructor ()
      ensures View() == Scheduler.INITIAL
    {
      nextTaskId := 1;
      pendingOperations := multiset{};
      activeTasks := map[];
      written := [];
    }

    /** `ok` is false where the counter overflows. */
    method NextTaskId() returns (ok: bool, id: nat)
      modifies this`nextTaskId
      ensures ok <==> old(nextTaskId) < U64_MAX
      ensures if ok then id == old(nextTaskId) && nextTaskId == id + 1 else nextTaskId == old(nextTaskId)
    {
      ok, id := nextTaskId < U64_MAX, nextTaskId;
      if ok { nextTaskId := nextTaskId + 1; }
    }

    /** Without an id to hand out the call fails before it changes anything. */
    method Schedule(task: Task, ts: u64) returns (ok: bool)
      modifies this
      ensures ok <==> old(nextTaskId) < U64_MAX
      ensures View() == if ok then Scheduler.Scheduled(old(View()), task, ts) else old(View())
    {
      var id: nat;
      ok, id := NextTaskId();
      if ok {
        activeTasks := activeTasks[id := task];
        pendingOperations := pendingOperations + multiset{Scheduler.Timestamped(ts, id)};
      }
    }

    /** The top of the heap: any entry none is due before. */
    method Peek() returns (p: Scheduler.Timestamped)
      requires pendingOperations != multiset{}
      ensures p in pendingOperations && forall q :: q in pendingOperations ==> p.ts <= q.ts
    {
      EarliestExists(pendingOperations);
      p :| p in pendingOperations && forall q :: q in pendingOperations ==> p.ts <= q.ts;
    }

    /** One iteration of the drain loop, under the lock. */
    method IterateOnce(cutoff: u64) returns (r: Iteration)
      modifies this
      ensures r.Idle? ==> View() == old(View()) && forall p :: p in pendingOperations ==> p.ts > cutoff
      ensures r.Progressed? ==> Scheduler.Transition(old(View()), Scheduler.Iterate(cutoff, r.popped), View())
      ensures r.Crashed? ==> Scheduler.CanPop(old(View()), cutoff, r.popped)
      ensures r.Crashed? ==>
                if r.popped.id in old(activeTasks)
                then TaskStep(old(activeTasks)[r.popped.id], r.popped.ts).phase == Panicked(r.reason)
                else r.reason == TaskNotFound
    {
      hide TaskStep, Scheduler.Stamped, Scheduler.Stepped, Scheduler.Transition;
      ghost var before := View();
      if pendingOperations == multiset{} {
        return Idle;
      }
      var p := Peek();
      if p.ts > cutoff {
        return Idle;
      }
      pendingOperations := pendingOperations - multiset{p};
      if p.id !in activeTasks {
        return Crashed(p, TaskNotFound);
      }
      var task := activeTasks[p.id];
      activeTasks := activeTasks - {p.id};
      var o := ExecuteStep(task, p.ts);
      if o.phase.Panicked? {
        return Crashed(p, o.phase.reason);
      }
      Requeue(p.id, o);
      StepMade(before, cutoff, p, o, View());
      r := Progressed(p);
    }

    /** Emits what the step wrote and puts the task back, unless it is over. */
    method Requeue(id: nat, o: Snapshot)
      requires !o.phase.Panicked? && id !in activeTasks
      modifies this
      ensures nextTaskId == old(nextTaskId)
      ensures written == old(written) + Scheduler.Stamped(id, o.out)
      ensures o.phase.Over? ==> activeTasks == old(activeTasks) && pendingOperations == old(pendingOperations)
      ensures o.phase.Active? ==> activeTasks == old(activeTasks)[id := o.phase.task]
      ensures o.phase.Active? ==>
                pendingOperations == old(pendingOperations) + multiset{Scheduler.Timestamped(o.phase.ts, id)}
    {
      written := written + Scheduler.Stamped(id, o.out);
      if o.phase.Active? {
        activeTasks := activeTasks[id := o.phase.task];
        pendingOperations := pendingOperations + multiset{Scheduler.Timestamped(o.phase.ts, id)};
      }
    }

    /** The handlers that take the lock before the next iteration. */
    method ScheduleAll(requests: seq<(Request, u64)>, ghost t: Service.Trail, ghost from: Scheduler.Runtime,
                       ghost cutoff: u64)
        returns (ghost t': Service.Trail)
      requires Service.GoodTrail(t, from, View(), cutoff)
      modifies this
      ensures Service.GoodTrail(t', from, View(), cutoff) && t'.requests == t.requests + requests
      ensures Service.Iterations(t'.acts) == Service.Iterations(t.acts)
    {
      hide Service.GoodTrail, Service.Iterations, InitialTask, Scheduler.Scheduled;
      t' := t;
      for i := 0 to |requests|
        invariant Service.GoodTrail(t', from, View(), cutoff) && t'.requests == t.requests + requests[..i]
        invariant Service.Iterations(t'.acts) == Service.Iterations(t.acts)
      {
        var (req, ts) := requests[i];
        ghost var before := View();
        assert requests[..i + 1] == requests[..i] + [(req, ts)];
        var ok := Schedule(InitialTask(req), ts);
        if ok {
          t' := Service.ScheduleTrail(t', from, before, cutoff, req, ts);
        } else {
          t' := Service.RefusedTrail(t', from, before, cutoff, req, ts);
        }
      }
      assert requests[..|requests|] == requests;
    }

    /** One turn of the loop: some handlers take the lock, then one iteration;
        `at` is the state before the iteration. */
    method Turn(cutoff: u64, requests: seq<(Request, u64)>, ghost t: Service.Trail, ghost from: Scheduler.Runtime)
        returns (step: Iteration, ghost t': Service.Trail, ghost at: Scheduler.Runtime)
      requires Service.GoodTrail(t, from, View(), cutoff)
      modifies this
      ensures t'.requests == t.requests + requests
      ensures Service.Iterations(t'.acts) == Service.Iterations(t.acts) + (if step.Progressed? then 1 else 0)
      ensures Service.GoodTrail(t', from, if step.Crashed? then at else View(), cutoff)
      ensures step.Progressed? && requests == [] ==> Service.WorkLeft(View()) < old(Service.WorkLeft(View()))
      ensures step.Idle? ==> forall p :: p in pendingOperations ==> p.ts > cutoff
      ensures step.Crashed? ==> Service.DiesOf(at, cutoff, step.popped)
    {
      hide Service.GoodTrail, Service.Iterations, Service.OnTrack, Service.AllFit, Service.AllTyped, Service.WorkLeft;
      hide Scheduler.Transition, Scheduler.Inv, TaskStep;
      if requests == [] { t' := t; } else { t' := ScheduleAll(requests, t, from, cutoff); }
      at := View();
      step := IterateOnce(cutoff);
      match step
      case Idle =>
      case Crashed(p, reason) =>
        TrailEnds(t', from, at, cutoff);
        Service.PopIsSafe(at, cutoff, p);
      case Progressed(p) =>
        t' := Service.IterateTrail(t', from, at, cutoff, p, View());
    }

    /** Turn after turn until nothing is due at the reading of the clock, or a
        step panics. */
    method TurnUntilIdle(timer: nat -> u64, arrivals: seq<seq<(Request, u64)>>, ghost from: Scheduler.Runtime)
        returns (step: Iteration, iterations: nat, ghost t: Service.Trail, ghost at: Scheduler.Runtime)
      requires View() == from && Scheduler.Inv(from) && Service.AllTyped(from) && Monotone(timer)
      modifies this
      ensures !step.Progressed?
      ensures t.requests == Flatten(arrivals, iterations + 1) && Service.Iterations(t.acts) == iterations
      ensures Service.GoodTrail(t, from, if step.Crashed? then at else View(), timer(iterations))
      ensures step.Idle? ==> forall p :: p in pendingOperations ==> p.ts > timer(iterations)
      ensures step.Crashed? ==> Service.DiesOf(at, timer(iterations), step.popped)
    {
      hide Service.GoodTrail, Service.Iterations, Service.AllTyped, Service.WorkLeft, Service.DiesOf;
      hide Scheduler.Inv, Flatten, Monotone, BeforeTurn;
      t := Service.StartTrail(from, timer(0));
      FirstTurn(t, from, timer, arrivals);
      iterations := 0;
      while true
        invariant BeforeTurn(t, from, View(), timer, arrivals, iterations)
        decreases if iterations < |arrivals| then |arrivals| - iterations else 0, Service.WorkLeft(View())
      {
        var requests := if iterations < |arrivals| then arrivals[iterations] else [];
        AtTurn(t, from, View(), timer, arrivals, iterations);
        step, t, at := Turn(timer(iterations), requests, t, from);
        if !step.Progressed? {
          return;
        }
        NextTurn(t, from, View(), timer, arrivals, iterations);
        iterations := iterations + 1;
      }
    }

    /** The drain loop; `timer(i)` is the clock read by iteration i, and the
        handlers of `arrivals[i]` take the lock before it. It ends for every
        clock and all arrivals. Their requests are scheduled in order and once
        each, as long as there are ids. Each iteration makes one step. When
        the loop ends, every task that was there or came has been drained up
        to the last reading of the clock, unless some step overflowed: `dead`
        is the state before it. With requests that fit none does. */
    method ExecutePendingOperationsInner(timer: nat -> u64, arrivals: seq<seq<(Request, u64)>>)
        returns (r: DrainResult, ghost t: Service.Trail, ghost dead: Scheduler.Runtime)
      requires Scheduler.Inv(View()) && Service.AllTyped(View()) && Monotone(timer)
      modifies this
      ensures t.requests == Flatten(arrivals, r.iterations + 1) && Service.Iterations(t.acts) == r.iterations
      ensures Service.GoodTrail(t, old(View()), if r.Died? then dead else View(), timer(r.iterations))
      ensures r.Drained? ==> Service.EndsDrained(t.requests, old(View()), View(), timer(r.iterations))
      ensures r.Drained? && arrivals == [] ==> Scheduler.DrainedTo(old(View()), View(), timer(r.iterations))
      ensures r.Died? ==> Service.DiesOf(dead, timer(r.iterations), r.popped)
      ensures old(Service.OnTrack(View())) && Service.AllFit(t.requests) ==> r.Drained? && Service.OnTrack(View())
    {
      hide Service.GoodTrail, Service.Iterations, Service.OnTrack, Service.AllFit, Service.AllTyped;
      hide Service.EndsDrained;
      hide Scheduler.Inv, Scheduler.DrainedTo, Flatten, Monotone, Service.DiesOf;
      ghost var from := View();
      var step, iterations;
      step, iterations, t, dead := TurnUntilIdle(timer, arrivals, from);
      if step.Crashed? {
        Service.TrackedNeverDies(t, from, dead, timer(iterations), step.popped);
        r := Died(iterations, step.popped);
      } else {
        FlattenMore(arrivals, iterations + 1);
        Service.TrailDrains(t, from, View(), timer(iterations));
        TrailEnds(t, from, View(), timer(iterations));
        r := Drained(iterations);
      }
    }
  }

  /** The clock never goes back. */
  ghost predicate Monotone(timer: nat -> u64) {
    forall i: nat, j: nat :: i <= j ==> timer(i) <= timer(j)
  }

  /** The requests of the first n arrivals, in order. */
  function Flatten(arrivals: seq<seq<(Request, u64)>>, n: nat): seq<(Request, u64)> {
    if n == 0 then [] else Flatten(arrivals, n - 1) + (if n <= |arrivals| then arrivals[n - 1] else [])
  }

  lemma FlattenMore(arrivals: seq<seq<(Request, u64)>>, n: nat)
    ensures Flatten(arrivals, n + 1) == Flatten(arrivals, n) + (if n < |arrivals| then arrivals[n] else [])
    ensures arrivals == [] ==> Flatten(arrivals, n) == []
  {
    if arrivals == [] { NoArrivals(n); }
  }

  lemma {:induction false} NoArrivals(n: nat)
    ensures Flatten([], n) == []
  {
    if n > 0 { NoArrivals(n - 1); }
  }

  /** Where the loop stands before iteration i. */
  ghost predicate BeforeTurn(t: Service.Trail, from: Scheduler.Runtime, to: Scheduler.Runtime, timer: nat -> u64,
                             arrivals: seq<seq<(Request, u64)>>, i: nat) {
    && Service.GoodTrail(t, from, to, timer(i)) && Service.Iterations(t.acts) == i
    && t.requests == Flatten(arrivals, i)
  }

  lemma FirstTurn(t: Service.Trail, from: Scheduler.Runtime, timer: nat -> u64, arrivals: seq<seq<(Request, u64)>>)
    requires Service.GoodTrail(t, from, from, timer(0)) && t.requests == [] && Service.Iterations(t.acts) == 0
    ensures BeforeTurn(t, from, from, timer, arrivals, 0)
  {
    hide Service.GoodTrail, Service.Iterations;
  }

  lemma AtTurn(t: Service.Trail, from: Scheduler.Runtime, to: Scheduler.Runtime, timer: nat -> u64,
               arrivals: seq<seq<(Request, u64)>>, i: nat)
    requires BeforeTurn(t, from, to, timer, arrivals, i)
    ensures Service.GoodTrail(t, from, to, timer(i)) && Service.Iterations(t.acts) == i
    ensures t.requests + (if i < |arrivals| then arrivals[i] else []) == Flatten(arrivals, i + 1)
  {
    hide Service.GoodTrail, Service.Iterations;
    FlattenMore(arrivals, i);
  }

  lemma NextTurn(t: Service.Trail, from: Scheduler.Runtime, to: Scheduler.Runtime, timer: nat -> u64,
                 arrivals: seq<seq<(Request, u64)>>, i: nat)
    requires Service.GoodTrail(t, from, to, timer(i)) && Service.Iterations(t.acts) == i + 1
    requires t.requests == Flatten(arrivals, i + 1) && Monotone(timer)
    ensures BeforeTurn(t, from, to, timer, arrivals, i + 1)
  {
    hide Service.GoodTrail, Service.Iterations, Flatten;
    assert timer(i) <= timer(i + 1);
    Service.LaterTrail(t, from, to, timer(i), timer(i + 1));
  }

  lemma TrailEnds(t: Service.Trail, from: Scheduler.Runtime, to: Scheduler.Runtime, cutoff: u64)
    requires Service.GoodTrail(t, from, to, cutoff)
    ensures Scheduler.Inv(from) && Scheduler.Inv(to) && Service.AllTyped(to)
    ensures Service.OnTrack(from) && Service.AllFit(t.requests) ==> Service.OnTrack(to)
  {
  }

  lemma StepMade(s: Scheduler.Runtime, cutoff: u64, p: Scheduler.Timestamped, o: Snapshot, s': Scheduler.Runtime)
    requires Scheduler.CanPop(s, cutoff, p) && p.id in s.active
    requires o == TaskStep(s.active[p.id], p.ts) && !o.phase.Panicked?
    requires s'.nextId == s.nextId && s'.written == s.written + Scheduler.Stamped(p.id, o.out)
    requires o.phase.Over? ==> s'.active == s.active - {p.id} && s'.pending == s.pending - multiset{p}
    requires o.phase.Active? ==> s'.active == (s.active - {p.id})[p.id := o.phase.task]
    requires o.phase.Active? ==>
               s'.pending == s.pending - multiset{p} + multiset{Scheduler.Timestamped(o.phase.ts, p.id)}
    ensures Scheduler.Transition(s, Scheduler.Iterate(cutoff, p), s')
  {
    hide TaskStep, Scheduler.Stamped;
    if o.phase.Active? {
      assert (s.active - {p.id})[p.id := o.phase.task] == s.active[p.id := o.phase.task];
    }
  }

  lemma {:induction false} EarliestExists(pending: multiset<Scheduler.Timestamped>)
    requires pending != multiset{}
    ensures exists p :: p in pending && forall q :: q in pending ==> p.ts <= q.ts
    decreases |pending|
  {
    var x :| x in pending;
    var rest := pending - multiset{x};
    assert forall q :: q in pending ==> q == x || q in rest;
    if rest != multiset{} {
      EarliestExists(rest);
      var p :| p in rest && forall q :: q in rest ==> p.ts <= q.ts;
      var best := if x.ts < p.ts then x else p;
      assert best in pending && forall q :: q in pending ==> best.ts <= q.ts;
    }
  }
}
