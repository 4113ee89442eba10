/** The runtime serving the requests of the handlers: no panic, termination
    with an exact measure, and the output each client gets. */
module MaroonService {
  import opened MaroonMachine
  import opened MaroonPrograms
  import opened MaroonTyping
  import opened MaroonScheduler
  import MaroonValidator

  // ----- Termination of the drain ----------------------------------------

  ghost predicate WellTyped(t: Task) {
    exists req :: Typed(req, t)
  }

  ghost predicate AllTyped(s: Runtime) {
    forall id :: id in s.active ==> WellTyped(s.active[id])
  }

  /** The steps all active tasks with an id below `bound` still have to make. */
  function TotalSteps(active: map<nat, Task>, bound: nat): nat {
    if bound == 0 then 0
    else TotalSteps(active, bound - 1) + (if bound - 1 in active then StepsLeft(active[bound - 1]) else 0)
  }

  function WorkLeft(s: Runtime): nat {
    TotalSteps(s.active, s.nextId)
  }

  lemma {:induction false} TotalStepsUpdate(active: map<nat, Task>, active': map<nat, Task>, id: nat, bound: nat)
    requires forall x :: x != id ==> (x in active <==> x in active')
    requires forall x :: x != id && x in active ==> active[x] == active'[x]
    requires id in active
    ensures TotalSteps(active, bound) ==
              TotalSteps(active', bound)
              + if id < bound then StepsLeft(active[id]) - (if id in active' then StepsLeft(active'[id]) else 0) else 0
  {
    hide StepsLeft;
    if bound > 0 { TotalStepsUpdate(active, active', id, bound - 1); }
  }

  /** Each iteration takes exactly one step off the work left, whatever entry
      is popped, so without new tasks the drain loop stops. */
  lemma IterationDoesOneStep(s: Runtime, cutoff: u64, p: Timestamped, s': Runtime)
    requires Inv(s) && AllTyped(s) && Transition(s, Iterate(cutoff, p), s')
    ensures AllTyped(s') && WorkLeft(s) == WorkLeft(s') + 1
  {
    hide Typed, StepsLeft, TaskStep, GoodStep;
    var t := s.active[p.id];
    var req :| Typed(req, t);
    TypedStep(req, t, p.ts);
    StepIsGood(req, t, p.ts);
    TotalStepsUpdate(s.active, s'.active, p.id, s.nextId);
    forall id | id in s'.active
      ensures WellTyped(s'.active[id])
    {
      if id == p.id { assert Typed(req, s'.active[id]); }
    }
  }

  lemma StepIsGood(req: Request, t: Task, ts: u64)
    requires GoodStep(req, t, ts, TaskStep(t, ts).phase)
    ensures var phase := TaskStep(t, ts).phase;
            && (phase.Active? ==> Typed(req, phase.task) && StepsLeft(t) == StepsLeft(phase.task) + 1)
            && (phase.Over? ==> StepsLeft(t) == 1)
            && (phase.Panicked? ==> phase.reason == ArithmeticOverflow)
  {
    hide Typed, StepsLeft, TaskStep;
  }

  lemma ScheduleKeepsTyped(s: Runtime, req: Request, ts: u64)
    requires Inv(s) && AllTyped(s)
    ensures AllTyped(Scheduled(s, InitialTask(req), ts))
  {
    hide Typed;
    InitialTaskTyped(req);
    assert WellTyped(InitialTask(req));
  }

  /** Whatever a well-typed runtime pops: the task exists, and its step meets no
      panic but an overflow. If it is on track it meets none. */
  lemma PopIsSafe(s: Runtime, cutoff: u64, p: Timestamped)
    requires Inv(s) && AllTyped(s) && CanPop(s, cutoff, p)
    ensures p.id in s.active
    ensures var phase := TaskStep(s.active[p.id], p.ts).phase;
            && (phase.Panicked? ==> phase.reason == ArithmeticOverflow)
            && (OnTrack(s) ==> !phase.Panicked?)
  {
    hide TaskStep, Typed, StepsLeft, Inv, GoodStep;
    PendingMatchesActive(s);
    var req :| Typed(req, s.active[p.id]);
    TypedStep(req, s.active[p.id], p.ts);
    StepIsGood(req, s.active[p.id], p.ts);
    if OnTrack(s) {
      assert OnTrackTask(s.active[p.id], p.ts);
      OnTrackStep(s.active[p.id], p.ts);
    }
  }

  /** The task is somewhere on the solo run of a request that fits. */
  ghost predicate OnTrackTask(t: Task, ts: u64) {
    exists req, ts0: u64, k: nat :: Fits(req, ts0) && Run(Start(req, ts0), k).phase == Active(t, ts)
  }

  ghost predicate OnTrack(s: Runtime) {
    Inv(s) && forall id :: id in s.active ==> OnTrackTask(s.active[id], Due(s, id))
  }

  lemma OnTrackStep(t: Task, ts: u64)
    requires OnTrackTask(t, ts)
    ensures !TaskStep(t, ts).phase.Panicked?
    ensures TaskStep(t, ts).phase.Active? ==> OnTrackTask(TaskStep(t, ts).phase.task, TaskStep(t, ts).phase.ts)
  {
    hide TaskStep, Run, Typed, Fits, StepsLeft;
    var req, ts0: u64, k: nat :| Fits(req, ts0) && Run(Start(req, ts0), k).phase == Active(t, ts);
    RunSucc(Start(req, ts0), k);
    NoStructuralPanic(req, ts0, k + 1);
  }

  lemma IterationStaysOnTrack(s: Runtime, cutoff: u64, p: Timestamped, s': Runtime)
    requires OnTrack(s) && Transition(s, Iterate(cutoff, p), s')
    ensures OnTrack(s')
  {
    hide TaskStep, OnTrackTask, Project, Inv;
    SteppedInv(s, p);
    OnTrackStep(s.active[p.id], p.ts);
    NextStep(s, Iterate(cutoff, p), s', 0);
    forall id | id in s'.active
      ensures OnTrackTask(s'.active[id], Due(s', id))
    {
      DuesDomain(s);
      DuesDomain(s');
      if id != p.id { assert OnTrackTask(s.active[id], Due(s, id)); }
    }
  }

  lemma ScheduleStaysOnTrack(s: Runtime, req: Request, ts: u64)
    requires OnTrack(s) && Fits(req, ts)
    ensures OnTrack(Scheduled(s, InitialTask(req), ts))
  {
    hide TaskStep, Fits, Project;
    var s' := Scheduled(s, InitialTask(req), ts);
    assert Run(Start(req, ts), 0) == Start(req, ts);
    ScheduleStep(s, InitialTask(req), ts, s.nextId);
    forall id | id in s'.active
      ensures OnTrackTask(s'.active[id], Due(s', id))
    {
      ScheduleStep(s, InitialTask(req), ts, id);
      if id == s.nextId {
        assert Run(Start(req, ts), 0).phase == Active(s'.active[id], Due(s', id));
      } else {
        assert SnapOf(s', id).phase == SnapOf(s, id).phase;
      }
    }
  }

  // ----- Runs that serve requests ----------------------------------------

  /** Every task in the run was scheduled by one of the handlers. */
  ghost predicate ServesRequests(acts: seq<Action>) {
    forall a :: a in acts && a.Schedule? ==> exists req :: a.task == InitialTask(req)
  }

  /** ... for an input on which nothing overflows. */
  ghost predicate ServesFittingRequests(acts: seq<Action>) {
    forall a :: a in acts && a.Schedule? ==> exists req :: a.task == InitialTask(req) && Fits(req, a.ts)
  }

  /** Every active task was put there by one of the actions before. */
  lemma {:induction false} ActiveTaskWasScheduled(states: seq<Runtime>, acts: seq<Action>, j: nat, id: nat)
      returns (i: nat)
    requires IsRun(states, acts) && states[0] == INITIAL && j < |states| && id in states[j].active
    ensures i < j && acts[i].Schedule? && states[i].nextId == id
    decreases j
  {
    hide TaskStep;
    assert j > 0;
    assert Transition(states[j - 1], acts[j - 1], states[j - 1 + 1]);
    if acts[j - 1].Schedule? && states[j - 1].nextId == id {
      i := j - 1;
    } else {
      i := ActiveTaskWasScheduled(states, acts, j - 1, id);
    }
  }

  /** In a run that serves requests every state is well typed, as the drain
      loop demands. */
  lemma {:induction false} RunStaysTyped(states: seq<Runtime>, acts: seq<Action>, j: nat)
    requires IsRun(states, acts) && states[0] == INITIAL && ServesRequests(acts) && j < |states|
    ensures Inv(states[j]) && AllTyped(states[j])
    decreases j
  {
    hide Inv, WellTyped, Scheduled, Stepped, CanPop;
    InitialInv();
    RunKeepsInv(states, acts, j);
    if j > 0 {
      RunStaysTyped(states, acts, j - 1);
      var s, a := states[j - 1], acts[j - 1];
      assert a in acts && Transition(s, a, states[j - 1 + 1]);
      match a
      case Schedule(task, ts) =>
        var req :| task == InitialTask(req);
        ScheduleKeepsTyped(s, req, ts);
      case Iterate(cutoff, p) => IterationDoesOneStep(s, cutoff, p, states[j]);
    }
  }

  /** If the requests fit, every state is on track, so the drain loop never
      dies. */
  lemma {:induction false} RunStaysOnTrack(states: seq<Runtime>, acts: seq<Action>, j: nat)
    requires IsRun(states, acts) && states[0] == INITIAL && ServesFittingRequests(acts) && j < |states|
    ensures OnTrack(states[j])
    decreases j
  {
    hide Inv, OnTrackTask, Scheduled, Stepped, CanPop, Fits, TaskStep;
    InitialInv();
    if j > 0 {
      RunStaysOnTrack(states, acts, j - 1);
      hide OnTrack;
      var s, a := states[j - 1], acts[j - 1];
      assert a in acts && Transition(s, a, states[j - 1 + 1]);
      match a
      case Schedule(task, ts) =>
        var req :| task == InitialTask(req) && Fits(req, ts);
        ScheduleStaysOnTrack(s, req, ts);
      case Iterate(cutoff, p) => IterationStaysOnTrack(s, cutoff, p, states[j]);
    }
  }

  /** Schedule a request before everything pending, and pop it. */
  lemma ScheduleAndPop(s: Runtime, req: Request, ts: u64, cutoff: u64)
      returns (s': Runtime, p: Timestamped, s'': Runtime)
    requires Fits(req, ts) && ts <= cutoff && forall q :: q in s.pending ==> ts <= q.ts
    ensures Transition(s, Schedule(InitialTask(req), ts), s') && p.ts == ts
    ensures Transition(s', Iterate(cutoff, p), s'') && forall q :: q in s''.pending ==> ts <= q.ts
  {
    hide TaskStep, InitialTask, Fits;
    var task := InitialTask(req);
    FirstStepIsSafe(req, ts);
    StepTime(task, ts);
    s', p := Scheduled(s, task, ts), Timestamped(ts, s.nextId);
    s'' := Stepped(s', p);
  }

  /** Time can go back, whatever is asked for: schedule a request at ts, make
      its first step, then schedule it again at 0. */
  lemma TimeCanGoBack(req: Request, ts: u64) returns (states: seq<Runtime>, acts: seq<Action>)
    requires ts > 0 && Fits(req, ts)
    ensures IsRun(states, acts) && states != [] && states[0] == INITIAL && ServesFittingRequests(acts)
    ensures |acts| == 4 && acts[1].Iterate? && acts[3].Iterate? && acts[3].popped.ts == 0 < acts[1].popped.ts == ts
  {
    FitsEarlier(req, ts, 0);
    hide Transition, InitialTask, Fits, IsRun, ServesFittingRequests;
    var s1, p1, s2 := ScheduleAndPop(INITIAL, req, ts, ts);
    var s3, p3, s4 := ScheduleAndPop(s2, req, 0, ts);
    var a0, a2 := Schedule(InitialTask(req), ts), Schedule(InitialTask(req), 0);
    states, acts := RunOfFour(INITIAL, a0, s1, Iterate(ts, p1), s2, a2, s3, Iterate(ts, p3), s4);
    TwoRequestsServed(req, acts);
  }

  lemma TwoRequestsServed(req: Request, acts: seq<Action>)
    requires |acts| == 4 && acts[0].Schedule? && acts[2].Schedule? && acts[1].Iterate? && acts[3].Iterate?
    requires acts[0].task == acts[2].task == InitialTask(req) && Fits(req, acts[0].ts) && Fits(req, acts[2].ts)
    ensures ServesFittingRequests(acts)
  {
    hide Fits, InitialTask;
  }

  lemma FitsEarlier(req: Request, ts: u64, earlier: u64)
    requires earlier <= ts && Fits(req, ts)
    ensures Fits(req, earlier)
  {
  }

  lemma FirstStepIsSafe(req: Request, ts: u64)
    requires Fits(req, ts)
    ensures !TaskStep(InitialTask(req), ts).phase.Panicked?
  {
    hide TaskStep, Fits;
    assert Run(Start(req, ts), 0) == Start(req, ts);
    assert OnTrackTask(InitialTask(req), ts);
    OnTrackStep(InitialTask(req), ts);
  }

  /** The stack of a task that goes on passes the validator again. */
  lemma NextStackAccepted(req: Request, t: Task, ts: u64)
    requires Typed(req, t) && TaskStep(t, ts).phase.Active?
    ensures MaroonValidator.Accepts(TaskStep(t, ts).phase.task.stack)
  {
    hide TaskStep, Typed, StepsLeft;
    TypedStep(req, t, ts);
    StepIsGood(req, t, ts);
    MaroonValidator.TypedStackAccepted(req, TaskStep(t, ts).phase.task);
  }

  /** In a run that serves requests, at any moment, whatever the heap hands out
      next: its task exists, its stack passes the debug validator before and
      after the step, and the step meets no panic other than an overflow. If the requests fit, it
      meets none at all, so the process never stops. */
  lemma ServiceNeverPanics(states: seq<Runtime>, acts: seq<Action>, j: nat, cutoff: u64, p: Timestamped)
    requires IsRun(states, acts) && states[0] == INITIAL && ServesRequests(acts)
    requires j < |states| && CanPop(states[j], cutoff, p)
    ensures p.id in states[j].active
    ensures MaroonValidator.Accepts(states[j].active[p.id].stack)
    ensures var phase := TaskStep(states[j].active[p.id], p.ts).phase;
            && (phase.Active? ==> MaroonValidator.Accepts(phase.task.stack))
            && (phase.Panicked? ==> phase.reason == ArithmeticOverflow)
            && (ServesFittingRequests(acts) ==> !phase.Panicked?)
  {
    hide TaskStep, Typed, Run, Transition, Inv, Fits;
    InitialInv();
    RunKeepsInv(states, acts, j);
    PendingMatchesActive(states[j]);
    var i := ActiveTaskWasScheduled(states, acts, j, p.id);
    assert acts[i] in acts;
    var req :| acts[i].task == InitialTask(req) && (ServesFittingRequests(acts) ==> Fits(req, acts[i].ts));
    SchedulerRefinesSoloRuns(states, acts, i, j);
    var s, k := Start(req, acts[i].ts), Picks(acts, i + 1, j, p.id);
    assert Run(s, k).phase == Active(states[j].active[p.id], p.ts);
    NoStructuralPanic(req, acts[i].ts, k);
    MaroonValidator.TypedStackAccepted(req, states[j].active[p.id]);
    if TaskStep(states[j].active[p.id], p.ts).phase.Active? { NextStackAccepted(req, states[j].active[p.id], p.ts); }
    RunSucc(s, k);
    NoStructuralPanic(req, acts[i].ts, k + 1);
  }

  /** What the client of a request gets, at any moment of any run: a prefix of
      the program's exact trace, and all of it once the task is gone. */
  lemma ClientGetsTrace(states: seq<Runtime>, acts: seq<Action>, i: nat, j: nat, req: Request)
    requires IsRun(states, acts) && states[0] == INITIAL && i < j < |states|
    requires acts[i].Schedule? && acts[i].task == InitialTask(req) && Fits(req, acts[i].ts)
    ensures var id := states[i].nextId;
            && Project(states[j].written, id) <= Trace(req, acts[i].ts)
            && (id !in states[j].active ==> Project(states[j].written, id) == Trace(req, acts[i].ts))
  {
    hide TaskStep, Run, Transition, Inv, Fits, Trace, Project, Steps, Dues, Picks;
    var id, ts := states[i].nextId, acts[i].ts;
    SchedulerRefinesSoloRuns(states, acts, i, j);
    var s, k, n := Start(req, ts), Picks(acts, i + 1, j, id), Steps(req);
    ProgramsRunAsSpecified(req, ts);
    assert Run(s, n) == Snapshot(Over, Trace(req, ts));
    if k <= n {
      RunAdd(s, k, n - k);
      OutputGrows(Run(s, k), n - k);
      if id !in states[j].active { RunStuck(Run(s, k), n - k); }
    } else {
      RunAdd(s, n, k - n);
      RunStuck(Run(s, n), k - n);
    }
  }

  // ----- When a task is finished -----------------------------------------

  /** The last step before `Completed` writes, and takes no time. */
  lemma LastStepWrites(req: Request, t: Task, ts: u64)
    requires Typed(req, t) && StepsLeft(t) == 2
    ensures var o := TaskStep(t, ts); o.phase.Active? && o.phase.ts == ts && |o.out| == 1 && o.out[0].ts == ts
  {
    hide TaskStep, DivisorsDown, LargestDivisor, Fib, Factorial;
    var m := |t.stack|;
    match t.stack[m - 1].state
    case DelayedMessageTaskExecute =>
      var v, w := t.stack[0].value, t.stack[1].value;
      assert t.stack == [] + [Value(v), Value(w), State(DelayedMessageTaskExecute)];
      StepTwoVars([], w, v, DelayedMessageTaskExecute, t.heap, ts);
    case FactorialDone =>
      var v, w := t.stack[0].value, t.stack[1].value;
      assert t.stack == [] + [Value(v), Value(w), State(FactorialDone)];
      StepTwoVars([], w, v, FactorialDone, t.heap, ts);
    case DivisorsTaskIteration =>
      assert t.stack == [] + [State(DivisorsTaskIteration)];
      StepNoVars([], DivisorsTaskIteration, t.heap, ts);
      LargestDivisorIsNext(t.heap.n, t.heap.i);
    case FibonacciTaskBegin =>
      assert t.stack == [] + [State(FibonacciTaskBegin)];
      StepNoVars([], FibonacciTaskBegin, t.heap, ts);
    case FibonacciTaskResult =>
      assert t.stack == [] + [State(FibonacciTaskResult)];
      StepNoVars([], FibonacciTaskResult, t.heap, ts);
    case _ =>
  }

  /** A running task is never due after its program's end. */
  lemma DueBeforeTheEnd(req: Request, ts: u64, k: nat)
    requires Fits(req, ts) && Run(Start(req, ts), k).phase.Active?
    ensures Run(Start(req, ts), k).phase.ts <= ts + Duration(req)
  {
    hide TaskStep, Typed, Run, Fits, Duration, Steps, StepsLeft, Trace;
    var s, n := Start(req, ts), Steps(req);
    TraceEnds(req, ts);
    NoStructuralPanic(req, ts, k);
    NoStructuralPanic(req, ts, n - 2);
    TypedOverHasNoSteps(req, ts, n - 2);
    var s2 := Run(s, n - 2);
    LastStepWrites(req, s2.phase.task, s2.phase.ts);
    RunSucc(s, n - 2);
    RunSucc(s, n - 1);
    CompletedWritesNothing(req, ts);
    ProgramsRunAsSpecified(req, ts);
    if k <= n - 2 {
      RunAdd(s, k, n - 2 - k);
      TaskTimeOrder(Run(s, k), n - 2 - k);
    } else {
      assert k == n - 1;
    }
  }

  lemma TraceEnds(req: Request, ts: u64)
    ensures Trace(req, ts) != [] && Trace(req, ts)[|Trace(req, ts)| - 1].ts == ts + Duration(req)
    ensures Steps(req) >= 2
  {
    hide DivisorsDown, Sum, Fib, Factorial, SumDown, SumBelow;
    if req.FibonacciRequest? { SumBelowClosed(req.n); }
  }

  /** A task that fits is still active as long as it has made fewer than all
      of its steps. */
  lemma TypedOverHasNoSteps(req: Request, ts: u64, k: nat)
    requires Fits(req, ts) && k < Steps(req)
    ensures Run(Start(req, ts), k).phase.Active?
  {
    hide TaskStep, Typed, Run, Fits, Steps, StepsLeft;
    InitialTaskTyped(req);
    NoStructuralPanic(req, ts, k);
    TypedRun(req, Start(req, ts), k);
  }

  lemma CompletedWritesNothing(req: Request, ts: u64)
    requires Fits(req, ts)
    ensures Steps(req) >= 1 && Run(Start(req, ts), Steps(req)).out == Run(Start(req, ts), Steps(req) - 1).out
  {
    hide Run, Fits, Steps, TaskStep, Typed, StepsLeft;
    TraceEnds(req, ts);
    var s, n := Start(req, ts), Steps(req);
    TypedOverHasNoSteps(req, ts, n - 1);
    NoStructuralPanic(req, ts, n - 1);
    RunSucc(s, n - 1);
    ProgramsRunAsSpecified(req, ts);
    var t := Run(s, n - 1).phase.task;
    OverWritesNothing(t, Run(s, n - 1).phase.ts);
    assert Run(s, n - 1).out + [] == Run(s, n - 1).out;
  }

  lemma OverWritesNothing(t: Task, ts: u64)
    requires TaskStep(t, ts).phase.Over?
    ensures TaskStep(t, ts).out == []
  {
  }

  /** A client is served in full by the time its program ends: once nothing is
      pending at or before that time, its task is gone and it has got exactly
      its trace. */
  lemma ClientServedByEndTime(states: seq<Runtime>, acts: seq<Action>, i: nat, j: nat, req: Request)
    requires IsRun(states, acts) && states[0] == INITIAL && i < j < |states|
    requires acts[i].Schedule? && acts[i].task == InitialTask(req) && Fits(req, acts[i].ts)
    requires forall p :: p in states[j].pending ==> p.ts > acts[i].ts as int + Duration(req)
    ensures states[i].nextId !in states[j].active
    ensures Project(states[j].written, states[i].nextId) == Trace(req, acts[i].ts)
  {
    hide TaskStep, Run, Transition, Fits, Trace, Project, Duration, Picks;
    var id, ts := states[i].nextId, acts[i].ts;
    SchedulerRefinesSoloRuns(states, acts, i, j);
    PendingMatchesActive(states[j]);
    if id in states[j].active {
      DueBeforeTheEnd(req, ts, Picks(acts, i + 1, j, id));
      assert false;
    }
    ClientGetsTrace(states, acts, i, j, req);
  }

  // ----- The drain loop, with handlers in between -------------------------

  /** What the drain loop has done so far: the states it went through with the
      actions between them, and the requests the handlers came with. */
  datatype Trail = Trail(states: seq<Runtime>, acts: seq<Action>, requests: seq<(Request, u64)>)

  function Iterations(acts: seq<Action>): nat {
    if acts == [] then 0 else Iterations(acts[..|acts| - 1]) + (if acts[|acts| - 1].Iterate? then 1 else 0)
  }

  /** The steps that were scheduled on the way. */
  function ScheduledSteps(acts: seq<Action>): nat {
    if acts == [] then 0
    else
      var last := acts[|acts| - 1];
      ScheduledSteps(acts[..|acts| - 1]) + (if last.Schedule? then StepsLeft(last.task) else 0)
  }

  /** The schedules of a run, in order. */
  function Schedules(acts: seq<Action>): seq<Action> {
    if acts == [] then []
    else Schedules(acts[..|acts| - 1]) + (if acts[|acts| - 1].Schedule? then [acts[|acts| - 1]] else [])
  }

  /** What the handlers ask to schedule, in the order they come. */
  function Asked(requests: seq<(Request, u64)>): seq<Action> {
    seq(|requests|, i requires 0 <= i < |requests| => Schedule(InitialTask(requests[i].0), requests[i].1))
  }

  /** How many of n requests get an id when `nextId` is the next one. */
  function Accepted(nextId: nat, n: nat): nat {
    if nextId + n <= U64_MAX then n else if nextId <= U64_MAX then U64_MAX - nextId else 0
  }

  ghost predicate AllFit(requests: seq<(Request, u64)>) {
    forall i :: 0 <= i < |requests| ==> Fits(requests[i].0, requests[i].1)
  }

  /** The run schedules exactly these requests in order, as long as there are
      ids, and hands these out one by one. */
  ghost predicate Admitted(acts: seq<Action>, requests: seq<(Request, u64)>, first: nat, next: nat) {
    && Schedules(acts) == Asked(requests)[..Accepted(first, |requests|)]
    && next == first + |Schedules(acts)|
  }

  ghost predicate RunsTo(states: seq<Runtime>, acts: seq<Action>, from: Runtime, to: Runtime, cutoff: u64) {
    && IsRun(states, acts) && states[0] == from && states[|acts|] == to
    && (forall a :: a in acts && a.Iterate? ==> a.cutoff <= cutoff)
  }

  /** A run that pops up to the cutoff and schedules exactly these requests, each
      once, in order and under consecutive ids, until the ids run out; it
      accounts for every step. */
  ghost predicate GoodTrail(t: Trail, from: Runtime, to: Runtime, cutoff: u64) {
    && RunsTo(t.states, t.acts, from, to, cutoff)
    && Inv(from) && Inv(to) && AllTyped(to)
    && Admitted(t.acts, t.requests, from.nextId, to.nextId)
    && WorkLeft(from) + ScheduledSteps(t.acts) == WorkLeft(to) + Iterations(t.acts)
    && (OnTrack(from) && AllFit(t.requests) ==> OnTrack(to))
  }

  lemma {:induction false} TotalStepsAgree(active: map<nat, Task>, active': map<nat, Task>, bound: nat)
    requires forall id :: id < bound ==> (id in active <==> id in active')
    requires forall id :: id < bound && id in active ==> active[id] == active'[id]
    ensures TotalSteps(active, bound) == TotalSteps(active', bound)
  {
    hide StepsLeft;
    if bound > 0 { TotalStepsAgree(active, active', bound - 1); }
  }

  lemma ScheduleAddsSteps(s: Runtime, task: Task, ts: u64)
    ensures WorkLeft(Scheduled(s, task, ts)) == WorkLeft(s) + StepsLeft(task)
  {
    hide StepsLeft;
    TotalStepsAgree(s.active, s.active[s.nextId := task], s.nextId);
  }

  lemma StartTrail(s: Runtime, cutoff: u64) returns (t: Trail)
    requires Inv(s) && AllTyped(s)
    ensures GoodTrail(t, s, s, cutoff) && t.requests == [] && Iterations(t.acts) == 0
  {
    t := Trail([s], [], []);
  }

  lemma LaterTrail(t: Trail, from: Runtime, to: Runtime, cutoff: u64, cutoff': u64)
    requires GoodTrail(t, from, to, cutoff) && cutoff <= cutoff'
    ensures GoodTrail(t, from, to, cutoff')
  {
  }

  lemma ExtendRun(states: seq<Runtime>, acts: seq<Action>, a: Action, s: Runtime)
    requires IsRun(states, acts) && Transition(states[|acts|], a, s)
    ensures IsRun(states + [s], acts + [a])
  {
    hide Transition;
    var states', acts' := states + [s], acts + [a];
    forall i | 0 <= i < |acts'|
      ensures Transition(states'[i], acts'[i], states'[i + 1])
    {
      if i < |acts| {
        assert states'[i + 1] == states[i + 1];
      }
    }
  }

  lemma RunsOn(states: seq<Runtime>, acts: seq<Action>, from: Runtime, to: Runtime, cutoff: u64, a: Action, s: Runtime)
    requires RunsTo(states, acts, from, to, cutoff) && Transition(to, a, s) && (a.Iterate? ==> a.cutoff <= cutoff)
    ensures RunsTo(states + [s], acts + [a], from, s, cutoff)
  {
    hide Transition;
    ExtendRun(states, acts, a, s);
  }

  lemma AllFitMore(requests: seq<(Request, u64)>, r: (Request, u64))
    ensures AllFit(requests + [r]) ==> AllFit(requests) && Fits(r.0, r.1)
  {
    hide Fits;
    var more := requests + [r];
    if AllFit(more) {
      assert more[|requests|] == r;
      forall i | 0 <= i < |requests|
        ensures Fits(requests[i].0, requests[i].1)
      {
        assert more[i] == requests[i];
      }
    }
  }

  lemma StepsOfMore(acts: seq<Action>, a: Action)
    ensures Iterations(acts + [a]) == Iterations(acts) + (if a.Iterate? then 1 else 0)
    ensures ScheduledSteps(acts + [a]) == ScheduledSteps(acts) + (if a.Schedule? then StepsLeft(a.task) else 0)
  {
    hide StepsLeft;
    assert (acts + [a])[..|acts|] == acts;
  }

  lemma SchedulesMore(acts: seq<Action>, a: Action)
    ensures Schedules(acts + [a]) == Schedules(acts) + (if a.Schedule? then [a] else [])
  {
    assert (acts + [a])[..|acts|] == acts;
  }

  /** One more request is scheduled if there is an id left, and else refused. */
  lemma AskedMore(requests: seq<(Request, u64)>, req: Request, ts: u64, nextId: nat)
    ensures var n, more := |requests|, requests + [(req, ts)];
            var before, after := Asked(requests)[..Accepted(nextId, n)], Asked(more)[..Accepted(nextId, n + 1)];
            after == before + (if nextId + |before| < U64_MAX then [Schedule(InitialTask(req), ts)] else [])
  {
    hide InitialTask;
    var n, more := |requests|, requests + [(req, ts)];
    assert Asked(more)[..n] == Asked(requests);
    assert Asked(more) == Asked(requests) + [Schedule(InitialTask(req), ts)];
  }

  lemma AdmitOneMore(acts: seq<Action>, requests: seq<(Request, u64)>, first: nat, next: nat, req: Request, ts: u64)
    requires Admitted(acts, requests, first, next)
    ensures var more := requests + [(req, ts)];
            if next < U64_MAX then Admitted(acts + [Schedule(InitialTask(req), ts)], more, first, next + 1)
            else Admitted(acts, more, first, next)
  {
    hide InitialTask, Asked, Schedules, Accepted;
    SchedulesMore(acts, Schedule(InitialTask(req), ts));
    AskedMore(requests, req, ts, first);
  }

  /** A handler whose request is refused for want of an id. */
  lemma RefusedTrail(t: Trail, from: Runtime, to: Runtime, cutoff: u64, req: Request, ts: u64) returns (t': Trail)
    requires GoodTrail(t, from, to, cutoff) && to.nextId >= U64_MAX
    ensures GoodTrail(t', from, to, cutoff)
    ensures t'.acts == t.acts && t'.requests == t.requests + [(req, ts)]
  {
    hide IsRun, Inv, AllTyped, OnTrack, AllFit, WorkLeft, Admitted;
    AllFitMore(t.requests, (req, ts));
    AdmitOneMore(t.acts, t.requests, from.nextId, to.nextId, req, ts);
    t' := t.(requests := t.requests + [(req, ts)]);
  }

  lemma ScheduleKeepsState(s: Runtime, req: Request, ts: u64)
    requires Inv(s) && AllTyped(s)
    ensures var s' := Scheduled(s, InitialTask(req), ts);
            && Transition(s, Schedule(InitialTask(req), ts), s') && s'.nextId == s.nextId + 1
            && Inv(s') && AllTyped(s') && WorkLeft(s') == WorkLeft(s) + StepsLeft(InitialTask(req))
            && (OnTrack(s) && Fits(req, ts) ==> OnTrack(s'))
  {
    ScheduleKeepsTyped(s, req, ts);
    ScheduleAddsSteps(s, InitialTask(req), ts);
    hide Inv, AllTyped, OnTrack, WorkLeft, InitialTask, Fits, StepsLeft;
    NextStep(s, Schedule(InitialTask(req), ts), Scheduled(s, InitialTask(req), ts), 0);
    if OnTrack(s) && Fits(req, ts) { ScheduleStaysOnTrack(s, req, ts); }
  }

  lemma ScheduleTrail(t: Trail, from: Runtime, to: Runtime, cutoff: u64, req: Request, ts: u64) returns (t': Trail)
    requires GoodTrail(t, from, to, cutoff) && to.nextId < U64_MAX
    ensures GoodTrail(t', from, Scheduled(to, InitialTask(req), ts), cutoff) && t'.requests == t.requests + [(req, ts)]
    ensures Iterations(t'.acts) == Iterations(t.acts)
  {
    hide Inv, AllTyped, OnTrack, AllFit, WorkLeft, Transition, InitialTask, Fits, Scheduled, StepsLeft;
    hide Iterations, ScheduledSteps, Admitted, RunsTo;
    var a, s := Schedule(InitialTask(req), ts), Scheduled(to, InitialTask(req), ts);
    t' := Trail(t.states + [s], t.acts + [a], t.requests + [(req, ts)]);
    ScheduleKeepsState(to, req, ts);
    RunsOn(t.states, t.acts, from, to, cutoff, a, s);
    StepsOfMore(t.acts, a);
    AllFitMore(t.requests, (req, ts));
    AdmitOneMore(t.acts, t.requests, from.nextId, to.nextId, req, ts);
  }

  lemma IterateTrail(t: Trail, from: Runtime, to: Runtime, cutoff: u64, p: Timestamped, s: Runtime) returns (t': Trail)
    requires GoodTrail(t, from, to, cutoff) && Transition(to, Iterate(cutoff, p), s)
    ensures GoodTrail(t', from, s, cutoff) && t'.requests == t.requests
    ensures Iterations(t'.acts) == Iterations(t.acts) + 1 && WorkLeft(to) == WorkLeft(s) + 1
  {
    var a := Iterate(cutoff, p);
    t' := Trail(t.states + [s], t.acts + [a], t.requests);
    hide Inv, AllTyped, OnTrack, AllFit, WorkLeft, Transition, StepsLeft, Asked, Schedules, Accepted;
    SchedulesMore(t.acts, a);
    NextStep(to, a, s, 0);
    IterationDoesOneStep(to, cutoff, p, s);
    if OnTrack(to) { IterationStaysOnTrack(to, cutoff, p, s); }
    RunsOn(t.states, t.acts, from, to, cutoff, a, s);
    StepsOfMore(t.acts, a);
  }

  /** The task of a request, under this id, has run exactly until it was not due. */
  ghost predicate RequestDrained(to: Runtime, cutoff: u64, id: nat, req: Request, ts: u64)
    requires Inv(to)
  {
    exists k: nat :: DrainSteps(Start(req, ts), cutoff, k) && SnapOf(to, id) == Run(Start(req, ts), k)
  }

  /** Nothing is due any more, and every task that was there at the start, and
      every one that was accepted on the way, has run exactly until it was not
      due. */
  ghost predicate EndsDrained(requests: seq<(Request, u64)>, from: Runtime, to: Runtime, cutoff: u64) {
    && Inv(from) && Inv(to)
    && (forall p :: p in to.pending ==> p.ts > cutoff)
    && (forall id: nat :: id < from.nextId ==> DrainedTask(from, to, cutoff, id))
    && (forall q: nat :: q < Accepted(from.nextId, |requests|) ==>
          RequestDrained(to, cutoff, from.nextId + q, requests[q].0, requests[q].1))
  }

  /** Where the q-th schedule of a run is, and the id it hands out. */
  lemma {:induction false} NthSchedule(states: seq<Runtime>, acts: seq<Action>, n: nat, q: nat) returns (i: nat)
    requires IsRun(states, acts) && n <= |acts| && q < |Schedules(acts[..n])|
    ensures i < n && acts[i].Schedule? && acts[i] == Schedules(acts[..n])[q]
    ensures states[i].nextId == states[0].nextId + q
    decreases n
  {
    hide Transition;
    var before := acts[..n - 1];
    assert acts[..n] == before + [acts[n - 1]];
    SchedulesMore(before, acts[n - 1]);
    if q < |Schedules(before)| {
      i := NthSchedule(states, acts, n - 1, q);
    } else {
      i := n - 1;
      IdsHandedOut(states, acts, n - 1);
    }
  }

  lemma IdHandedOut(s: Runtime, a: Action, s': Runtime)
    requires Transition(s, a, s')
    ensures s'.nextId == s.nextId + (if a.Schedule? then 1 else 0)
  {
    hide TaskStep, CanPop, Stamped;
  }

  lemma {:induction false} IdsHandedOut(states: seq<Runtime>, acts: seq<Action>, n: nat)
    requires IsRun(states, acts) && n <= |acts|
    ensures states[n].nextId == states[0].nextId + |Schedules(acts[..n])|
    decreases n
  {
    hide Transition;
    if n > 0 {
      IdsHandedOut(states, acts, n - 1);
      var s, a, s' := states[n - 1], acts[n - 1], states[n - 1 + 1];
      assert Transition(s, a, s');
      IdHandedOut(s, a, s');
      assert acts[..n] == acts[..n - 1] + [a];
      hide Schedules, IsRun;
      SchedulesMore(acts[..n - 1], a);
    }
  }

  lemma RequestIsDrained(t: Trail, from: Runtime, to: Runtime, cutoff: u64, q: nat)
    requires GoodTrail(t, from, to, cutoff) && forall p :: p in to.pending ==> p.ts > cutoff
    requires q < Accepted(from.nextId, |t.requests|)
    ensures Inv(to) && RequestDrained(to, cutoff, from.nextId + q, t.requests[q].0, t.requests[q].1)
  {
    hide Inv, AllTyped, OnTrack, AllFit, WorkLeft, Transition, ScheduledSteps, Iterations, InitialTask, Schedules;
    hide SnapOf, DrainSteps, Run;
    var n := |t.acts|;
    assert t.acts[..n] == t.acts;
    var i := NthSchedule(t.states, t.acts, n, q);
    var (req, ts) := t.requests[q];
    assert t.acts[i] == Asked(t.requests)[q] == Schedule(InitialTask(req), ts);
    EachArrivalIsDrained(t.states, t.acts, cutoff, i);
    var k: nat :| DrainSteps(Start(req, ts), cutoff, k) && SnapOf(to, from.nextId + q) == Run(Start(req, ts), k);
  }

  lemma NothingScheduled(acts: seq<Action>)
    requires Schedules(acts) == []
    ensures forall a :: a in acts ==> a.Iterate?
  {
    if acts != [] {
      var n := |acts| - 1;
      NothingScheduled(acts[..n]);
      assert acts == acts[..n] + [acts[n]];
    }
  }

  lemma TrailDrains(t: Trail, from: Runtime, to: Runtime, cutoff: u64)
    requires GoodTrail(t, from, to, cutoff) && forall p :: p in to.pending ==> p.ts > cutoff
    ensures EndsDrained(t.requests, from, to, cutoff)
    ensures t.requests == [] ==> DrainedTo(from, to, cutoff)
  {
    hide Inv, AllTyped, OnTrack, AllFit, WorkLeft, Transition, DrainedTask, RequestDrained, ScheduledSteps;
    hide Iterations, Schedules;
    forall id: nat | id < from.nextId
      ensures DrainedTask(from, to, cutoff, id)
    {
      EachTaskIsDrained(t.states, t.acts, cutoff, id);
    }
    forall q: nat | q < Accepted(from.nextId, |t.requests|)
      ensures RequestDrained(to, cutoff, from.nextId + q, t.requests[q].0, t.requests[q].1)
    {
      RequestIsDrained(t, from, to, cutoff, q);
    }
    if t.requests == [] {
      NothingScheduled(t.acts);
      MaximalRunDrains(t.states, t.acts, cutoff);
    }
  }

  /** The process dies of this step: the popped task exists, it is due and first
      in the queue, and its step overflows. */
  ghost predicate DiesOf(dead: Runtime, cutoff: u64, p: Timestamped) {
    && CanPop(dead, cutoff, p) && p.id in dead.active
    && TaskStep(dead.active[p.id], p.ts).phase == Panicked(ArithmeticOverflow)
  }

  lemma TrackedNeverDies(t: Trail, from: Runtime, dead: Runtime, cutoff: u64, p: Timestamped)
    requires GoodTrail(t, from, dead, cutoff) && DiesOf(dead, cutoff, p)
    ensures !(OnTrack(from) && AllFit(t.requests))
  {
    hide TaskStep, OnTrack, AllFit, WorkLeft, ScheduledSteps, Iterations, Schedules, IsRun;
    PopIsSafe(dead, cutoff, p);
  }
}
