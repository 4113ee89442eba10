/** The four programs compiled by hand into Maroon states: what a task running
    alone writes, when it writes it, how many steps it takes, and for exactly
    which inputs it completes. */
module MaroonPrograms {
  import opened MaroonMachine

  /** What a handler asks the runtime to run. */
  datatype Request =
    | DelayRequest(ms: u64, text: string)
    | DivisorsRequest(n: u64)
    | FibonacciRequest(n: u64)
    | FactorialRequest(n: u64)

  /** The task a handler schedules. */
  function InitialTask(req: Request): Task {
    match req
    case DelayRequest(ms, text) =>
      Task([Value(DelayInputMs(ms)), Value(DelayInputMessage(text)), State(DelayedMessageTaskBegin)], Empty)
    case DivisorsRequest(n) => Task([State(DivisorsTaskBegin)], Divisors(n, n))
    case FibonacciRequest(n) => Task([State(FibonacciTaskBegin)], Fibonacci(n, 0, 0, 0, 0))
    case FactorialRequest(n) => Task([Value(FactorialInput(n)), State(FactorialEntry)], Empty)
  }

  function Start(req: Request, ts: u64): Snapshot {
    Snapshot(Active(InitialTask(req), ts), [])
  }

  // ----- Reference definitions -------------------------------------------

  function Factorial(n: nat): (f: nat)
    ensures f >= 1
  {
    if n == 0 then 1 else n * Factorial(n - 1)
  }

  function Fib(n: nat): nat {
    if n < 2 then n else Fib(n - 1) + Fib(n - 2)
  }

  /** The divisors of n that are at most `upTo`, in descending order. */
  function DivisorsDown(n: nat, upTo: nat): seq<nat> {
    if upTo == 0 then []
    else if n % upTo == 0 then [upTo] + DivisorsDown(n, upTo - 1)
    else DivisorsDown(n, upTo - 1)
  }

  function Sum(s: seq<nat>): nat {
    if s == [] then 0 else s[0] + Sum(s[1..])
  }

  /** 0 + 1 + ... + (n-1). */
  function SumBelow(n: nat): nat {
    if n == 0 then 0 else n - 1 + SumBelow(n - 1)
  }

  /** k + (k-1) + ..., j terms. */
  function SumDown(k: nat, j: nat): nat
    requires j <= k
  {
    if j == 0 then 0 else k + SumDown(k - 1, j - 1)
  }

  /** The time a program takes from its first step to its last. */
  function Duration(req: Request): nat {
    match req
    case DelayRequest(ms, _) => ms
    case DivisorsRequest(n) => 10 * Sum(DivisorsDown(n, n))
    case FibonacciRequest(n) => 5 * SumBelow(n)
    case FactorialRequest(n) => 50 * SumDown(n, n)
  }

  /** Exactly the inputs on which no u64 operation of the whole run overflows. */
  predicate Fits(req: Request, ts: u64) {
    && ts + Duration(req) <= U64_MAX
    && match req
       case DelayRequest(_, _) => true
       case DivisorsRequest(_) => true
       case FibonacciRequest(n) => n <= 93
       case FactorialRequest(n) => n <= 20
  }

  /** The number of steps of a whole run, the final `Done` included. */
  function Steps(req: Request): nat {
    match req
    case DelayRequest(_, _) => 3
    case DivisorsRequest(n) => 2 * |DivisorsDown(n, n)| + 3
    case FibonacciRequest(n) => if n < 2 then 2 else 2 * n + 2
    case FactorialRequest(n) => 4 * (if n == 0 then 1 else n) + 2
  }

  /** Divisor number j is written once 10 * (the divisors up to and including
      it) milliseconds have passed. */
  function DivisorEvents(n: nat, ds: seq<nat>, ts: nat): seq<Event> {
    seq(|ds|, j requires 0 <= j < |ds| => Event(ts + 10 * Sum(ds[..j + 1]), DivisorFound(n, ds[j])))
  }

  function FibonacciEvents(n: nat, ts: nat): seq<Event>
    requires n >= 1
  {
    seq(n - 1, j requires 0 <= j < n - 1 => Event(ts + 5 * SumBelow(j + 1), FibonacciStep(n, j + 1, Fib(j + 1))))
  }

  /** f(k), f(k-1), ..., f(1); call j waits for the sleeps of the calls before it. */
  function FactorialEvents(k: nat, ts: nat): seq<Event> {
    seq(if k == 0 then 1 else k,
        j requires 0 <= j < (if k == 0 then 1 else k) => Event(ts + 50 * SumDown(k, j), FactorialCall(k - j)))
  }

  /** Everything a program writes, with the timestamps. */
  function Trace(req: Request, ts: nat): seq<Event> {
    match req
    case DelayRequest(ms, text) => [Event(ts + ms, Delayed(ms, text))]
    case DivisorsRequest(n) =>
      DivisorEvents(n, DivisorsDown(n, n), ts) + [Event(ts + Duration(req), DivisorsDone(n))]
    case FibonacciRequest(n) =>
      if n < 2 then [Event(ts, FibonacciResult(n, n))]
      else FibonacciEvents(n, ts) + [Event(ts + Duration(req), FibonacciResult(n, Fib(n)))]
    case FactorialRequest(n) =>
      FactorialEvents(n, ts) + [Event(ts + Duration(req), FactorialResult(n, Factorial(n)))]
  }

  /** The meaning of a request: exactly when it fits, it completes after
      exactly `Steps` steps with exactly `Trace` written; otherwise the run
      stops in an overflow. */
  predicate RunsAsSpecified(req: Request, ts: u64) {
    var end := Run(Start(req, ts), Steps(req));
    if Fits(req, ts) then end == Snapshot(Over, Trace(req, ts))
    else end.phase == Panicked(ArithmeticOverflow)
  }

  // ----- Arithmetic behind the bounds ------------------------------------

  lemma MulAtLeast(k: nat, x: nat)
    requires k >= 1
    ensures k * x >= x
  {
    assert k * x == x + (k - 1) * x;
  }

  lemma {:induction false} FactorialMonotone(j: nat, k: nat)
    requires j <= k
    ensures Factorial(j) <= Factorial(k)
    decreases k - j
  {
    if j < k {
      FactorialMonotone(j, k - 1);
      MulAtLeast(k, Factorial(k - 1));
    }
  }

  /** n! fits u64 exactly up to n = 20. */
  lemma FactorialFitsExactly(n: nat)
    ensures Factorial(n) <= U64_MAX <==> n <= 20
  {
    assert Factorial(5) == 120;
    assert Factorial(10) == 3628800;
    assert Factorial(15) == 1307674368000;
    assert Factorial(20) == 2432902008176640000;
    assert Factorial(21) == 21 * Factorial(20);
    if n <= 20 { FactorialMonotone(n, 20); } else { FactorialMonotone(21, n); }
  }

  lemma {:induction false} FibMonotone(j: nat, k: nat)
    requires j <= k
    ensures Fib(j) <= Fib(k)
    decreases k - j
  {
    if j < k { FibMonotone(j, k - 1); }
  }

  /** Ten indices at once. */
  lemma FibSkip(m: nat, x: nat, y: nat)
    requires Fib(m) == x && Fib(m + 1) == y
    ensures Fib(m + 10) == 34 * x + 55 * y && Fib(m + 11) == 55 * x + 89 * y
  {
    assert Fib(m + 2) == y + x && Fib(m + 3) == 2 * y + x && Fib(m + 4) == 3 * y + 2 * x;
    assert Fib(m + 5) == 5 * y + 3 * x && Fib(m + 6) == 8 * y + 5 * x && Fib(m + 7) == 13 * y + 8 * x;
    assert Fib(m + 8) == 21 * y + 13 * x && Fib(m + 9) == 34 * y + 21 * x;
  }

  /** Fib(93) is the last Fibonacci number below 2^64. */
  lemma FibAroundBound(m: nat)
    requires m == 3
    ensures Fib(m + 90) == 12200160415121876738 && Fib(m + 91) == 19740274219868223167
  {
    FibSkip(m, 2, 3);
    FibSkip(m + 10, 233, 377);
    FibSkip(m + 20, 28657, 46368);
    FibSkip(m + 30, 3524578, 5702887);
    FibSkip(m + 40, 433494437, 701408733);
    FibSkip(m + 50, 53316291173, 86267571272);
    FibSkip(m + 60, 6557470319842, 10610209857723);
    FibSkip(m + 70, 806515533049393, 1304969544928657);
    FibSkip(m + 80, 99194853094755497, 160500643816367088);
  }

  /** Fib(n) fits u64 exactly up to n = 93. */
  lemma FibFitsExactly(n: nat)
    ensures Fib(n) <= U64_MAX <==> n <= 93
  {
    hide Fib;
    var m := 3;
    FibAroundBound(m);
    if n <= m + 90 { FibMonotone(n, m + 90); } else { FibMonotone(m + 91, n); }
  }

  lemma {:induction false} SumBelowClosed(n: nat)
    ensures 2 * SumBelow(n) == n * (n - 1)
    ensures n <= 1 ==> SumBelow(n) == 0
  {
    if n > 0 { SumBelowClosed(n - 1); }
  }

  lemma {:induction false} SumDownClosed(k: nat, j: nat)
    requires j <= k
    ensures 2 * SumDown(k, j) == j * (2 * k - j + 1)
    decreases j
  {
    if j > 0 { SumDownClosed(k - 1, j - 1); }
  }

  // ----- Factorial --------------------------------------------------------

  function CallSteps(k: nat): nat {
    if k == 0 then 3 else 4 * k - 1
  }

  /** The sleeps of a call: 50*k + 50*(k-1) + ... + 50. */
  function CallTime(k: nat): nat {
    if k == 0 then 0 else 50 * k + CallTime(k - 1)
  }

  function CallEvents(k: nat, ts: nat): seq<Event>
    decreases k
  {
    [Event(ts, FactorialCall(k))] + (if k <= 1 then [] else CallEvents(k - 1, ts + 50 * k))
  }

  predicate CallFits(k: nat, ts: u64) {
    Factorial(k) <= U64_MAX && ts + CallTime(k) <= U64_MAX
  }

  lemma {:induction false} CallTimeClosed(k: nat)
    ensures CallTime(k) == 50 * SumDown(k, k)
  {
    if k > 0 { CallTimeClosed(k - 1); }
  }

  lemma FactorialEventsAt(k: nat, ts: nat, j: nat)
    requires j < |FactorialEvents(k, ts)|
    ensures FactorialEvents(k, ts)[j] == Event(ts + 50 * SumDown(k, j), FactorialCall(k - j))
  {
  }

  lemma FactorialEventsCount(k: nat, ts: nat)
    ensures |FactorialEvents(k, ts)| == if k == 0 then 1 else k
  {
  }

  lemma FactorialEventsUnfold(k: nat, ts: nat)
    ensures k <= 1 ==> FactorialEvents(k, ts) == [Event(ts, FactorialCall(k))]
    ensures k > 1 ==> FactorialEvents(k, ts) == [Event(ts, FactorialCall(k))] + FactorialEvents(k - 1, ts + 50 * k)
  {
    hide SumDown, FactorialEvents;
    SumDownUnfold(k, 0);
    FactorialEventsCount(k, ts);
    FactorialEventsAt(k, ts, 0);
    var whole := FactorialEvents(k, ts);
    if k <= 1 {
      assert whole == [whole[0]];
    } else {
      FactorialEventsCount(k - 1, ts + 50 * k);
      FactorialEventsTail(k, ts);
      assert whole == [whole[0]] + whole[1..];
    }
  }

  lemma FactorialEventsTail(k: nat, ts: nat)
    requires k > 1 && |FactorialEvents(k, ts)| == k && |FactorialEvents(k - 1, ts + 50 * k)| == k - 1
    ensures FactorialEvents(k, ts)[1..] == FactorialEvents(k - 1, ts + 50 * k)
  {
    hide SumDown, FactorialEvents;
    var tail, rest := FactorialEvents(k, ts)[1..], FactorialEvents(k - 1, ts + 50 * k);
    forall j | 0 <= j < k - 1
      ensures tail[j] == rest[j]
    {
      SumDownUnfold(k, j + 1);
      FactorialEventsAt(k, ts, j + 1);
      FactorialEventsAt(k - 1, ts + 50 * k, j);
    }
  }

  lemma SumDownUnfold(k: nat, j: nat)
    requires j <= k
    ensures SumDown(k, j) == if j == 0 then 0 else k + SumDown(k - 1, j - 1)
  {
  }

  lemma {:induction false} CallEventsClosed(k: nat, ts: nat)
    ensures CallEvents(k, ts) == FactorialEvents(k, ts)
    decreases k
  {
    hide FactorialEvents;
    FactorialEventsUnfold(k, ts);
    if k > 1 { CallEventsClosed(k - 1, ts + 50 * k); }
  }

  function CallStart(below: seq<StackEntry>, s: TaskState, k: u64, ts: u64, out: seq<Event>): Snapshot {
    Snapshot(Active(Task(below + [Retrn(s), Value(FactorialArgument(k)), State(FactorialRecursiveCall)], Empty), ts),
        out)
  }

  function CallEnd(below: seq<StackEntry>, s: TaskState, k: u64, ts: u64, out: seq<Event>): Snapshot
    requires CallFits(k, ts)
  {
    Snapshot(Active(Task(below + [Value(FactorialReturnValue(Factorial(k))), State(s)], Empty), ts + CallTime(k)),
             out + CallEvents(k, ts))
  }

  /** The first two steps of a call: write f(k), sleep 50k. */
  lemma FactorialCallPrologue(below: seq<StackEntry>, s: TaskState, k: u64, ts: u64, out: seq<Event>)
    ensures var base := below + [Retrn(s)];
            var s2 := Run(CallStart(below, s, k, ts, out), 2);
            if ts + k * 50 <= U64_MAX then
              s2 == Snapshot(Active(Task(base + [Value(FactorialArgument(k)), State(FactorialRecursionPostSleep)],
                                         Empty), ts + k * 50), out + [Event(ts, FactorialCall(k))])
            else s2.phase == Panicked(ArithmeticOverflow)
  {
    var base := below + [Retrn(s)];
    var v := FactorialArgument(k);
    var s0 := CallStart(below, s, k, ts, out);
    assert below + [Retrn(s), Value(v), State(FactorialRecursiveCall)]
        == base + [Value(v), State(FactorialRecursiveCall)];
    StepOneVar(base, v, FactorialRecursiveCall, Empty, ts);
    StepOneVar(base, v, FactorialRecursionPostWrite, Empty, ts);
    var s1 := Advance(s0);
    assert s1 == Snapshot(Active(Task(base + [Value(v), State(FactorialRecursionPostWrite)], Empty), ts),
                          out + [Event(ts, FactorialCall(k))]);
    assert Run(s0, 2) == Run(s1, 1) == Run(Advance(s1), 0);
    assert s1.out + [] == s1.out;
  }

  /** The third step: return 1 when k <= 1, call for k-1 otherwise. */
  lemma FactorialCallBranch(below: seq<StackEntry>, s: TaskState, k: u64, ts: u64, out: seq<Event>)
    ensures var base := below + [Retrn(s)];
            var s2 := Snapshot(Active(Task(base + [Value(FactorialArgument(k)), State(FactorialRecursionPostSleep)],
                                           Empty), ts), out);
            Run(s2, 1) ==
              if k <= 1 then
                Snapshot(Active(Task(below + [Value(FactorialReturnValue(1)), State(s)], Empty), ts), out)
              else
                CallStart(base + [Value(FactorialArgument(k))], FactorialRecursionPostRecursiveCall, k - 1, ts, out)
  {
    var base := below + [Retrn(s)];
    var v := FactorialArgument(k);
    var s2 := Snapshot(Active(Task(base + [Value(v), State(FactorialRecursionPostSleep)], Empty), ts), out);
    StepOneVar(base, v, FactorialRecursionPostSleep, Empty, ts);
    assert Run(s2, 1) == Run(Advance(s2), 0);
    assert out + [] == out;
    if k <= 1 {
      assert base[..|base| - 1] == below;
    } else {
      assert base + [Value(v), Retrn(FactorialRecursionPostRecursiveCall), Value(FactorialArgument(k - 1)),
          State(FactorialRecursiveCall)]
          == base + [Value(v)] + [Retrn(FactorialRecursionPostRecursiveCall), Value(FactorialArgument(k - 1)),
              State(FactorialRecursiveCall)];
    }
  }

  /** The last step of a call with k > 1: multiply and return. */
  lemma FactorialCallEpilogue(below: seq<StackEntry>, s: TaskState, k: u64, r: u64, ts: u64, out: seq<Event>)
    ensures var s4 := Snapshot(Active(Task(below + [Retrn(s), Value(FactorialArgument(k))]
                                       + [Value(FactorialReturnValue(r)), State(FactorialRecursionPostRecursiveCall)],
                                           Empty), ts), out);
            if r * k <= U64_MAX then
              Run(s4, 1) == Snapshot(Active(Task(below + [Value(FactorialReturnValue(r * k)), State(s)], Empty), ts),
                  out)
            else Run(s4, 1).phase == Panicked(ArithmeticOverflow)
  {
    var base := below + [Retrn(s)];
    var v, w := FactorialArgument(k), FactorialReturnValue(r);
    var stack := below + [Retrn(s), Value(v)] + [Value(w), State(FactorialRecursionPostRecursiveCall)];
    assert stack == base + [Value(v), Value(w), State(FactorialRecursionPostRecursiveCall)];
    StepTwoVars(base, w, v, FactorialRecursionPostRecursiveCall, Empty, ts);
    assert base[..|base| - 1] == below;
    assert out + [] == out;
    var s4 := Snapshot(Active(Task(stack, Empty), ts), out);
    assert Run(s4, 1) == Run(Advance(s4), 0);
  }

  /** Runs glued end to end. */
  lemma RunChain(s0: Snapshot, j: nat, s1: Snapshot, k: nat, s2: Snapshot)
    requires Run(s0, j) == s1 && Run(s1, k) == s2
    ensures Run(s0, j + k) == s2
  {
    RunAdd(s0, j, k);
  }

  /** Call and return, as a compiler would state it: the call to the factorial
      of k above ANY stack ending in `Retrn(s)` leaves everything below in
      place and arrives at `s` with k! as the return value, having written
      f(k), ..., f(1) on the way. It does so exactly when k! and the clock fit. */
  lemma {:induction false} FactorialCallReturns(below: seq<StackEntry>, s: TaskState, k: u64, ts: u64, out: seq<Event>)
    ensures var s0 := CallStart(below, s, k, ts, out);
            if CallFits(k, ts) then Run(s0, CallSteps(k)) == CallEnd(below, s, k, ts, out)
            else Run(s0, CallSteps(k)).phase == Panicked(ArithmeticOverflow)
    decreases k
  {
    hide TaskStep;
    var s0 := CallStart(below, s, k, ts, out);
    FactorialCallPrologue(below, s, k, ts, out);
    var s2 := Run(s0, 2);
    if ts + k * 50 > U64_MAX {
      RunStuck(s2, CallSteps(k) - 2);
      RunChain(s0, 2, s2, CallSteps(k) - 2, s2);
    } else {
      var out' := out + [Event(ts, FactorialCall(k))];
      FactorialCallBranch(below, s, k, ts + k * 50, out');
      var s3 := Run(s2, 1);
      RunChain(s0, 2, s2, 1, s3);
      if k > 1 {
        var frame := below + [Retrn(s), Value(FactorialArgument(k))];
        assert below + [Retrn(s)] + [Value(FactorialArgument(k))] == frame;
        FactorialCallReturns(frame, FactorialRecursionPostRecursiveCall, k - 1, ts + k * 50, out');
        var s4 := Run(s3, CallSteps(k - 1));
        RunChain(s0, 3, s3, CallSteps(k - 1), s4);
        FactorialCallLast(below, s, k, ts, out, s4);
        RunChain(s0, CallSteps(k) - 1, s4, 1, Run(s4, 1));
      }
    }
  }

  lemma FactorialUnfold(k: nat)
    requires k >= 1
    ensures Factorial(k) == Factorial(k - 1) * k
  {
  }

  /** The last step of a call with k > 1, given how the inner call ended. */
  lemma FactorialCallLast(below: seq<StackEntry>, s: TaskState, k: u64, ts: u64, out: seq<Event>, s4: Snapshot)
    requires k > 1 && ts + k * 50 <= U64_MAX
    requires if CallFits(k - 1, ts + k * 50) then
               s4 == CallEnd(below + [Retrn(s), Value(FactorialArgument(k))], FactorialRecursionPostRecursiveCall,
                             k - 1, ts + k * 50, out + [Event(ts, FactorialCall(k))])
             else s4.phase == Panicked(ArithmeticOverflow)
    ensures if CallFits(k, ts) then Run(s4, 1) == CallEnd(below, s, k, ts, out)
            else Run(s4, 1).phase == Panicked(ArithmeticOverflow)
  {
    hide Run, Factorial;
    FactorialMonotone(k - 1, k);
    FactorialUnfold(k);
    if CallFits(k - 1, ts + k * 50) {
      var out' := out + [Event(ts, FactorialCall(k))];
      var r := Factorial(k - 1);
      FactorialCallEpilogue(below, s, k, r, ts + CallTime(k), out' + CallEvents(k - 1, ts + 50 * k));
      assert out' + CallEvents(k - 1, ts + 50 * k) == out + CallEvents(k, ts);
    } else {
      RunStuck(s4, 1);
    }
  }

  lemma FactorialWholeRun(n: u64, ts: u64)
    ensures var end := Run(Start(FactorialRequest(n), ts), CallSteps(n) + 3);
            if CallFits(n, ts) then
              end == Snapshot(Over, CallEvents(n, ts) + [Event(ts + CallTime(n), FactorialResult(n, Factorial(n)))])
            else end.phase == Panicked(ArithmeticOverflow)
  {
    hide Run, Factorial, CallTime, CallEvents, CallSteps;
    var below := [Value(FactorialInput(n))];
    FactorialBegins(n, ts);
    FactorialCallReturns(below, FactorialDone, n, ts, []);
    var s0, s1 := Start(FactorialRequest(n), ts), CallStart(below, FactorialDone, n, ts, []);
    var s2 := Run(s1, CallSteps(n));
    RunChain(s0, 1, s1, CallSteps(n), s2);
    if CallFits(n, ts) {
      assert [] + CallEvents(n, ts) == CallEvents(n, ts);
      FactorialEnds(n, Factorial(n), ts + CallTime(n), CallEvents(n, ts));
    } else {
      RunStuck(s2, 2);
    }
    RunChain(s0, 1 + CallSteps(n), s2, 2, Run(s2, 2));
  }

  lemma FactorialRuns(n: u64, ts: u64)
    ensures RunsAsSpecified(FactorialRequest(n), ts)
  {
    hide Run, Factorial, FactorialEvents, CallEvents, CallTime, SumDown;
    FactorialWholeRun(n, ts);
    CallTimeClosed(n);
    CallEventsClosed(n, ts);
    FactorialFitsExactly(n);
  }

  /** The entry state calls the factorial of n, to return to FactorialDone. */
  lemma FactorialBegins(n: u64, ts: u64)
    ensures Run(Start(FactorialRequest(n), ts), 1) == CallStart([Value(FactorialInput(n))], FactorialDone, n, ts, [])
  {
    var s0 := Start(FactorialRequest(n), ts);
    var below := [Value(FactorialInput(n))];
    StepOneVar([], FactorialInput(n), FactorialEntry, Empty, ts);
    var s1 := CallStart(below, FactorialDone, n, ts, []);
    assert s0.phase.task.stack == [] + [Value(FactorialInput(n)), State(FactorialEntry)];
    assert s1.phase.task.stack
        == [] + [Value(FactorialInput(n)), Retrn(FactorialDone), Value(FactorialArgument(n)),
            State(FactorialRecursiveCall)];
    assert Run(s0, 1) == Run(Advance(s0), 0);
  }

  /** From the outermost return: write n!=r, then done. */
  lemma FactorialEnds(n: u64, r: u64, ts: u64, out: seq<Event>)
    ensures var stack := [Value(FactorialInput(n))] + [Value(FactorialReturnValue(r)), State(FactorialDone)];
            var s := Snapshot(Active(Task(stack, Empty), ts), out);
            Run(s, 2) == Snapshot(Over, out + [Event(ts, FactorialResult(n, r))])
  {
    var v, w := FactorialInput(n), FactorialReturnValue(r);
    var s := Snapshot(Active(Task([Value(v)] + [Value(w), State(FactorialDone)], Empty), ts), out);
    assert [Value(v)] + [Value(w), State(FactorialDone)] == [] + [Value(v), Value(w), State(FactorialDone)];
    StepTwoVars([], w, v, FactorialDone, Empty, ts);
    var s1 := Snapshot(Active(Task([] + [State(Completed)], Empty), ts), out + [Event(ts, FactorialResult(n, r))]);
    assert Advance(s) == s1;
    StepNoVars([], Completed, Empty, ts);
    assert s1.out + [] == s1.out;
    assert Run(s, 2) == Run(s1, 1) == Run(Advance(s1), 0);
  }

  // ----- Delayed message --------------------------------------------------

  lemma DelayRuns(ms: u64, text: string, ts: u64)
    ensures RunsAsSpecified(DelayRequest(ms, text), ts)
  {
    hide TaskStep;
    var s0 := Start(DelayRequest(ms, text), ts);
    var v, w := DelayInputMs(ms), DelayInputMessage(text);
    assert s0.phase.task.stack == [] + [Value(v), Value(w), State(DelayedMessageTaskBegin)];
    StepTwoVars([], w, v, DelayedMessageTaskBegin, Empty, ts);
    assert Run(s0, 3) == Run(Advance(s0), 2);
    if ts + ms > U64_MAX {
      RunStuck(Advance(s0), 2);
    } else {
      var out := [Event(ts + ms, Delayed(ms, text))];
      StepTwoVars([], w, v, DelayedMessageTaskExecute, Empty, ts + ms);
      var s1 := Snapshot(Active(Task([] + [Value(v), Value(w), State(DelayedMessageTaskExecute)], Empty), ts + ms), []);
      var s2 := Bare(Completed, Empty, ts + ms, out);
      assert [] + [State(Completed)] == [State(Completed)] && [] + out == out;
      assert Advance(s0) == s1 && Advance(s1) == s2;
      StepBare(Completed, Empty, ts + ms, out);
      assert Run(s1, 2) == Run(s2, 1);
    }
  }

  // ----- Divisors ---------------------------------------------------------

  /** A task without local variables, at state `state`. */
  function Bare(state: TaskState, heap: Heap, ts: u64, out: seq<Event>): Snapshot {
    Snapshot(Active(Task([State(state)], heap), ts), out)
  }

  /** A step of such a task, on an otherwise empty stack. */
  function BareOutcome(result: StepResult, heap: Heap, ts: u64, out: seq<Event>): Snapshot {
    match result
    case Done => Snapshot(Over, out)
    case Next(entries) => Snapshot(Active(Task(entries, heap), ts), out)
    case Sleep(ms, entries) =>
      if ts + ms > U64_MAX then Snapshot(Panicked(ArithmeticOverflow), out)
      else Snapshot(Active(Task(entries, heap), ts + ms), out)
    case Write(message, entries) => Snapshot(Active(Task(entries, heap), ts), out + [Event(ts, message)])
    case Return(_) => Snapshot(Panicked(NowhereToReturn), out)
    case Panic(reason) => Snapshot(Panicked(reason), out)
  }

  lemma StepBare(state: TaskState, heap: Heap, ts: u64, out: seq<Event>)
    requires LocalVarsCount(state) == 0
    ensures Run(Bare(state, heap, ts, out), 1)
         == var (result, heap') := GlobalStep(state, [], heap); BareOutcome(result, heap', ts, out)
  {
    hide TaskStep, GlobalStep;
    assert [] + [State(state)] == [State(state)];
    StepNoVars([], state, heap, ts);
    var s := Bare(state, heap, ts, out);
    assert Run(s, 1) == Run(Advance(s), 0);
    var (result, heap') := GlobalStep(state, [], heap);
    assert out + [] == out;
    match result
    case Next(entries) => assert [] + entries == entries;
    case Sleep(_, entries) => assert [] + entries == entries;
    case Write(_, entries) => assert [] + entries == entries;
    case _ =>
  }

  /** The search loop finds the head of the remaining divisors. */
  lemma {:induction false} LargestDivisorIsNext(n: u64, i: u64)
    ensures var d := LargestDivisor(n, i);
            d <= i && DivisorsDown(n, i) == if d == 0 then [] else [d] + DivisorsDown(n, d - 1)
    ensures LargestDivisor(n, i) > 0 ==> n % LargestDivisor(n, i) == 0
    decreases i
  {
    if i > 0 && n % i != 0 { LargestDivisorIsNext(n, i - 1); }
  }

  lemma DivisorEventsUnfold(n: nat, d: nat, ds: seq<nat>, ts: nat)
    ensures DivisorEvents(n, [d] + ds, ts)
            == [Event(ts + 10 * d, DivisorFound(n, d))] + DivisorEvents(n, ds, ts + 10 * d)
    ensures Sum([d] + ds) == d + Sum(ds)
    ensures DivisorEvents(n, [], ts) == [] && Sum([]) == 0
  {
    assert ([d] + ds)[1..] == ds;
    var whole, rest := DivisorEvents(n, [d] + ds, ts), DivisorEvents(n, ds, ts + 10 * d);
    forall j | 0 <= j < |rest|
      ensures whole[j + 1] == rest[j]
    {
      assert ([d] + ds)[..j + 2] == [d] + ds[..j + 1];
      assert ([d] + ds[..j + 1])[1..] == ds[..j + 1];
    }
    assert ([d] + ds)[..1] == [d];
    assert Sum([d]) == d + Sum([d][1..]);
    assert [d][1..] == [];
  }

  lemma DivisorsIterationStep(n: u64, i: u64, ts: u64, out: seq<Event>)
    ensures var d := LargestDivisor(n, i);
            var s := Run(Bare(DivisorsTaskIteration, Divisors(n, i), ts, out), 1);
            if d == 0 then s == Bare(Completed, Divisors(n, i), ts, out + [Event(ts, DivisorsDone(n))])
            else if ts + 10 * d > U64_MAX then s == Snapshot(Panicked(ArithmeticOverflow), out)
            else s == Bare(DivisorsPrintAndMoveOn, Divisors(n, d), ts + 10 * d, out)
  {
    hide Run;
    StepBare(DivisorsTaskIteration, Divisors(n, i), ts, out);
  }

  lemma DivisorsPrintStep(n: u64, d: u64, ts: u64, out: seq<Event>)
    requires d > 0
    ensures Run(Bare(DivisorsPrintAndMoveOn, Divisors(n, d), ts, out), 1)
         == Bare(DivisorsTaskIteration, Divisors(n, d - 1), ts, out + [Event(ts, DivisorFound(n, d))])
  {
    hide Run;
    StepBare(DivisorsPrintAndMoveOn, Divisors(n, d), ts, out);
  }

  lemma DivisorsBeginStep(n: u64, ts: u64)
    ensures Run(Start(DivisorsRequest(n), ts), 1) == Bare(DivisorsTaskIteration, Divisors(n, n), ts, [])
  {
    hide Run;
    StepBare(DivisorsTaskBegin, Divisors(n, n), ts, []);
  }

  lemma CompletedStep(heap: Heap, ts: u64, out: seq<Event>)
    ensures Run(Bare(Completed, heap, ts, out), 1) == Snapshot(Over, out)
  {
    hide Run;
    StepBare(Completed, heap, ts, out);
  }

  /** From any turn of the outer loop: the remaining divisors, then done. */
  lemma {:induction false} DivisorsLoopRuns(n: u64, i: u64, ts: u64, out: seq<Event>)
    ensures var ds := DivisorsDown(n, i);
            var end := Run(Bare(DivisorsTaskIteration, Divisors(n, i), ts, out), 2 * |ds| + 2);
            if ts + 10 * Sum(ds) <= U64_MAX then
              end == Snapshot(Over, out + DivisorEvents(n, ds, ts) + [Event(ts + 10 * Sum(ds), DivisorsDone(n))])
            else end.phase == Panicked(ArithmeticOverflow)
    decreases i
  {
    hide Run, Bare, LargestDivisor, DivisorsDown, DivisorEvents, Sum;
    var ds := DivisorsDown(n, i);
    var s0 := Bare(DivisorsTaskIteration, Divisors(n, i), ts, out);
    var d := LargestDivisor(n, i);
    LargestDivisorIsNext(n, i);
    DivisorEventsUnfold(n, d, if d == 0 then [] else DivisorsDown(n, d - 1), ts);
    DivisorsIterationStep(n, i, ts, out);
    var s1 := Run(s0, 1);
    if d == 0 {
      CompletedStep(Divisors(n, i), ts, out + [Event(ts, DivisorsDone(n))]);
      RunChain(s0, 1, s1, 1, Run(s1, 1));
    } else {
      var rest := DivisorsDown(n, d - 1);
      if ts as int + 10 * (d as int) > U64_MAX {
        RunStuck(s1, 2 * |ds| + 1);
        RunChain(s0, 1, s1, 2 * |ds| + 1, s1);
      } else {
        DivisorsPrintStep(n, d, ts + 10 * d, out);
        var out' := out + [Event(ts + 10 * d, DivisorFound(n, d))];
        var s2 := Run(s1, 1);
        RunChain(s0, 1, s1, 1, s2);
        DivisorsLoopRuns(n, d - 1, ts + 10 * d, out');
        RunChain(s0, 2, s2, 2 * |rest| + 2, Run(s2, 2 * |rest| + 2));
        assert out' + DivisorEvents(n, rest, ts + 10 * d) == out + DivisorEvents(n, ds, ts);
      }
    }
  }

  lemma DivisorsRuns(n: u64, ts: u64)
    ensures RunsAsSpecified(DivisorsRequest(n), ts)
  {
    hide Run, Bare, DivisorsDown, DivisorEvents, Sum;
    var s0 := Start(DivisorsRequest(n), ts);
    DivisorsBeginStep(n, ts);
    var s1 := Bare(DivisorsTaskIteration, Divisors(n, n), ts, []);
    DivisorsLoopRuns(n, n, ts, []);
    var k := 2 * |DivisorsDown(n, n)| + 2;
    RunChain(s0, 1, s1, k, Run(s1, k));
    assert [] + DivisorEvents(n, DivisorsDown(n, n), ts) == DivisorEvents(n, DivisorsDown(n, n), ts);
  }

  /** What is written: every divisor once, in strictly descending order, and
      nothing else. */
  lemma {:induction false} DivisorsDownIsExact(n: nat, upTo: nat)
    ensures forall d :: d in DivisorsDown(n, upTo) <==> 1 <= d <= upTo && n % d == 0
    ensures forall i, j :: 0 <= i < j < |DivisorsDown(n, upTo)| ==> DivisorsDown(n, upTo)[i] > DivisorsDown(n, upTo)[j]
  {
    if upTo > 0 {
      var rest := DivisorsDown(n, upTo - 1);
      DivisorsDownIsExact(n, upTo - 1);
      assert forall j :: 0 <= j < |rest| ==> rest[j] in rest;
    }
  }

  // ----- Fibonacci --------------------------------------------------------

  /** The sleeps between index `i` and index `n`. */
  function FibTime(i: nat, n: nat): nat
    decreases n - i
  {
    if i >= n then 0 else 5 * i + FibTime(i + 1, n)
  }

  function FibEventsFrom(n: nat, i: nat, ts: nat): seq<Event>
    decreases n - i
  {
    if i >= n then [] else [Event(ts, FibonacciStep(n, i, Fib(i)))] + FibEventsFrom(n, i + 1, ts + 5 * i)
  }

  lemma {:induction false} FibTimeSplits(i: nat, n: nat)
    requires i <= n
    ensures FibTime(i, n) + 5 * SumBelow(i) == 5 * SumBelow(n)
    decreases n - i
  {
    if i < n { FibTimeSplits(i + 1, n); }
  }

  lemma {:induction false} FibEventsClosed(n: nat, i: nat, ts: nat)
    requires 1 <= i <= n
    ensures FibEventsFrom(n, i, ts + 5 * SumBelow(i)) == FibonacciEvents(n, ts)[i - 1..]
    decreases n - i
  {
    if i < n {
      FibEventsClosed(n, i + 1, ts);
      assert SumBelow(i + 1) == i + SumBelow(i);
      assert FibonacciEvents(n, ts)[i - 1..] == [FibonacciEvents(n, ts)[i - 1]] + FibonacciEvents(n, ts)[i..];
    }
  }

  lemma FibUnfold(n: nat, i: nat, ts: nat)
    ensures Fib(0) == 0 && Fib(1) == 1 && (i >= 1 ==> Fib(i + 1) == Fib(i - 1) + Fib(i))
    ensures i >= n ==> FibTime(i, n) == 0 && FibEventsFrom(n, i, ts) == []
    ensures i < n ==> FibTime(i, n) == 5 * i + FibTime(i + 1, n)
    ensures i < n ==>
              FibEventsFrom(n, i, ts) == [Event(ts, FibonacciStep(n, i, Fib(i)))] + FibEventsFrom(n, i + 1, ts + 5 * i)
  {
  }

  lemma FibonacciBeginStep(n: u64, ts: u64)
    ensures var s := Run(Start(FibonacciRequest(n), ts), 1);
            if n <= 1 then s == Bare(Completed, Fibonacci(n, 0, 0, 0, 0), ts, [Event(ts, FibonacciResult(n, n))])
            else s == Bare(FibonacciTaskCalculate, Fibonacci(n, 1, 0, 1, 0), ts, [])
  {
    hide Run;
    StepBare(FibonacciTaskBegin, Fibonacci(n, 0, 0, 0, 0), ts, []);
  }

  lemma FibonacciEnds(n: u64, i: u64, a: u64, b: u64, delay: u64, ts: u64, out: seq<Event>)
    requires i >= n
    ensures Run(Bare(FibonacciTaskCalculate, Fibonacci(n, i, a, b, delay), ts, out), 3)
         == Snapshot(Over, out + [Event(ts, FibonacciResult(n, b))])
  {
    hide Run;
    var heap := Fibonacci(n, i, a, b, delay);
    var s0 := Bare(FibonacciTaskCalculate, heap, ts, out);
    StepBare(FibonacciTaskCalculate, heap, ts, out);
    StepBare(FibonacciTaskResult, heap, ts, out);
    var s1 := Bare(FibonacciTaskResult, heap, ts, out);
    var out' := out + [Event(ts, FibonacciResult(n, b))];
    var s2 := Bare(Completed, heap, ts, out');
    CompletedStep(heap, ts, out');
    RunChain(s0, 1, s1, 1, s2);
    RunChain(s0, 2, s2, 1, Snapshot(Over, out'));
  }

  /** One turn of the loop: write b, sleep 5 * index, move the pair on. */
  lemma FibonacciTurn(n: u64, i: u64, a: u64, b: u64, delay: u64, ts: u64, out: seq<Event>)
    requires i < n
    ensures var s := Run(Bare(FibonacciTaskCalculate, Fibonacci(n, i, a, b, delay), ts, out), 2);
            if a + b > U64_MAX || ts + 5 * i > U64_MAX then s.phase == Panicked(ArithmeticOverflow)
            else s == Bare(FibonacciTaskCalculate, Fibonacci(n, i + 1, b, a + b, 5 * i), ts + 5 * i,
                           out + [Event(ts, FibonacciStep(n, i, b))])
  {
    hide Run;
    var s0 := Bare(FibonacciTaskCalculate, Fibonacci(n, i, a, b, delay), ts, out);
    StepBare(FibonacciTaskCalculate, Fibonacci(n, i, a, b, delay), ts, out);
    var s1 := Run(s0, 1);
    if 5 * i > U64_MAX {
      RunStuck(s1, 1);
    } else {
      StepBare(FibonacciTaskStep, Fibonacci(n, i, a, b, 5 * i), ts, out + [Event(ts, FibonacciStep(n, i, b))]);
    }
    RunChain(s0, 1, s1, 1, Run(s1, 1));
  }

  /** From any turn of the loop, with b the current number and a the one before. */
  lemma {:induction false} FibonacciLoopRuns(n: u64, i: u64, a: u64, b: u64, delay: u64, ts: u64, out: seq<Event>)
    requires 1 <= i <= n && a == Fib(i - 1) && b == Fib(i)
    ensures var end := Run(Bare(FibonacciTaskCalculate, Fibonacci(n, i, a, b, delay), ts, out), 2 * (n - i) + 3);
            if ts + FibTime(i, n) <= U64_MAX && Fib(n) <= U64_MAX then
              end == Snapshot(Over, out + FibEventsFrom(n, i, ts)
                  + [Event(ts + FibTime(i, n), FibonacciResult(n, Fib(n)))])
            else end.phase == Panicked(ArithmeticOverflow)
    decreases n - i
  {
    hide Run, Bare, Fib, FibEventsFrom, FibTime;
    FibUnfold(n, i, ts);
    var s0 := Bare(FibonacciTaskCalculate, Fibonacci(n, i, a, b, delay), ts, out);
    if i == n {
      FibonacciEnds(n, i, a, b, delay, ts, out);
      assert out + FibEventsFrom(n, i, ts) == out;
    } else {
      var k := 2 * (n - i) + 1;
      FibonacciTurn(n, i, a, b, delay, ts, out);
      var s2 := Run(s0, 2);
      FibMonotone(i + 1, n);
      if a + b > U64_MAX || ts + 5 * i > U64_MAX {
        RunStuck(s2, k);
      } else {
        var out' := out + [Event(ts, FibonacciStep(n, i, b))];
        FibonacciLoopRuns(n, i + 1, b, a + b, 5 * i, ts + 5 * i, out');
        assert out' + FibEventsFrom(n, i + 1, ts + 5 * i) == out + FibEventsFrom(n, i, ts);
      }
      RunChain(s0, 2, s2, k, Run(s2, k));
    }
  }

  lemma FibonacciSmallRuns(n: u64, ts: u64)
    requires n <= 1
    ensures Run(Start(FibonacciRequest(n), ts), 2) == Snapshot(Over, [Event(ts, FibonacciResult(n, n))])
  {
    hide Run, Bare;
    FibonacciBeginStep(n, ts);
    CompletedStep(Fibonacci(n, 0, 0, 0, 0), ts, [Event(ts, FibonacciResult(n, n))]);
    var s0 := Start(FibonacciRequest(n), ts);
    RunChain(s0, 1, Run(s0, 1), 1, Run(Run(s0, 1), 1));
  }

  lemma FibonacciLargeRuns(n: u64, ts: u64)
    requires n >= 2
    ensures var end := Run(Start(FibonacciRequest(n), ts), 2 * n + 2);
            if ts + 5 * SumBelow(n) <= U64_MAX && n <= 93 then
              end == Snapshot(Over, FibonacciEvents(n, ts) + [Event(ts + 5 * SumBelow(n), FibonacciResult(n, Fib(n)))])
            else end.phase == Panicked(ArithmeticOverflow)
  {
    hide Run, Bare, Fib, SumBelow, FibonacciEvents, FibTime, FibEventsFrom;
    FibonacciBeginStep(n, ts);
    FibUnfold(n, 1, ts);
    FibonacciLoopRuns(n, 1, 0, 1, 0, ts, []);
    var s0 := Start(FibonacciRequest(n), ts);
    var s1 := Run(s0, 1);
    RunChain(s0, 1, s1, 2 * (n - 1) + 3, Run(s1, 2 * (n - 1) + 3));
    SumBelowClosed(1);
    FibTimeSplits(1, n);
    FibEventsClosed(n, 1, ts);
    FibFitsExactly(n);
    assert [] + FibonacciEvents(n, ts)[0..] == FibonacciEvents(n, ts);
  }

  lemma FibonacciRuns(n: u64, ts: u64)
    ensures RunsAsSpecified(FibonacciRequest(n), ts)
  {
    hide Run, Fib, FibonacciEvents;
    if n <= 1 {
      FibonacciSmallRuns(n, ts);
      SumBelowClosed(n);
    } else {
      FibonacciLargeRuns(n, ts);
    }
  }

  // ----- All four ---------------------------------------------------------

  /** Every request, at every timestamp: completion with the exact trace when
      the bounds hold, an overflow and nothing else when they do not. */
  lemma ProgramsRunAsSpecified(req: Request, ts: u64)
    ensures RunsAsSpecified(req, ts)
  {
    match req
    case DelayRequest(ms, text) => DelayRuns(ms, text, ts);
    case DivisorsRequest(n) => DivisorsRuns(n, ts);
    case FibonacciRequest(n) => FibonacciRuns(n, ts);
    case FactorialRequest(n) => FactorialRuns(n, ts);
  }
}
