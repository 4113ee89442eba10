/** The discrete-event scheduler as a state machine. The heap of pending
    operations is a multiset ordered by timestamp only: among equal timestamps
    any entry may be popped. `Schedule` may happen between any two iterations,
    because each iteration takes the lock anew, and every iteration reads the
    clock for itself. All theorems hold for every tie-break, every
    interleaving and every sequence of clock readings. */
module MaroonScheduler {
  import opened MaroonMachine

  datatype Timestamped = Timestamped(ts: u64, id: nat)

  datatype Written = Written(id: nat, event: Event)

  datatype Runtime = Runtime(
    nextId: nat,
    pending: multiset<Timestamped>,
    active: map<nat, Task>,
    written: seq<Written>)

  const INITIAL := Runtime(1, multiset{}, map[], [])

  datatype Action =
    | Schedule(task: Task, ts: u64)
    | Iterate(cutoff: u64, popped: Timestamped)

  function Scheduled(s: Runtime, task: Task, ts: u64): Runtime {
    Runtime(s.nextId + 1, s.pending + multiset{Timestamped(ts, s.nextId)}, s.active[s.nextId := task], s.written)
  }

  /** An entry the heap may hand out: due, and no entry is due earlier. */
  predicate CanPop(s: Runtime, cutoff: u64, p: Timestamped) {
    p in s.pending && p.ts <= cutoff && forall q :: q in s.pending ==> p.ts <= q.ts
  }

  function Stamped(id: nat, events: seq<Event>): seq<Written> {
    seq(|events|, j requires 0 <= j < |events| => Written(id, events[j]))
  }

  /** The state after the popped task has made its step. */
  function Stepped(s: Runtime, p: Timestamped): Runtime
    requires p.id in s.active
  {
    var o := TaskStep(s.active[p.id], p.ts);
    var rest := s.pending - multiset{p};
    var written := s.written + Stamped(p.id, o.out);
    match o.phase
    case Active(task, ts) =>
      Runtime(s.nextId, rest + multiset{Timestamped(ts, p.id)}, s.active[p.id := task], written)
    case _ => Runtime(s.nextId, rest, s.active - {p.id}, written)
  }

  /** One action of the running process. A panic ends the process, so it is
      not a transition. */
  predicate Transition(s: Runtime, a: Action, s': Runtime) {
    match a
    case Schedule(task, ts) => s' == Scheduled(s, task, ts)
    case Iterate(cutoff, p) =>
      && CanPop(s, cutoff, p)
      && p.id in s.active
      && !TaskStep(s.active[p.id], p.ts).phase.Panicked?
      && s' == Stepped(s, p)
  }

  // ----- The scheduler invariant and one task's view of the state --------

  /** The pending heap holds exactly one entry per active task, at `due`. */
  ghost predicate IsDueMap(s: Runtime, due: map<nat, u64>) {
    && due.Keys == s.active.Keys
    && forall p: Timestamped :: s.pending[p] == if p.id in due && due[p.id] == p.ts then 1 else 0
  }

  /** Pending entries and active tasks match one to one, and every id in use is
      below the next one to be handed out. */
  ghost predicate Inv(s: Runtime) {
    && (exists due: map<nat, u64> :: IsDueMap(s, due))
    && (forall id :: id in s.active ==> id < s.nextId)
    && (forall w :: w in s.written ==> w.id < s.nextId)
  }

  ghost function Dues(s: Runtime): (due: map<nat, u64>)
    requires Inv(s)
    ensures IsDueMap(s, due)
  {
    var due: map<nat, u64> :| IsDueMap(s, due);
    due
  }

  /** When the task is due. */
  ghost function Due(s: Runtime, id: nat): u64
    requires Inv(s) && id in s.active
  {
    Dues(s)[id]
  }

  lemma DuesAreUnique(s: Runtime, due: map<nat, u64>)
    requires Inv(s) && IsDueMap(s, due)
    ensures Dues(s) == due
  {
    forall id | id in due
      ensures Dues(s)[id] == due[id]
    {
      assert s.pending[Timestamped(due[id], id)] == 1;
    }
  }

  /** Conservation, spelled out: no task id is pending twice, and the pending
      ids are exactly the active ones. */
  lemma PendingMatchesActive(s: Runtime)
    requires Inv(s)
    ensures forall p :: p in s.pending ==> s.pending[p] == 1 && p.id in s.active && Due(s, p.id) == p.ts
    ensures forall p, q :: p in s.pending && q in s.pending && p.id == q.id ==> p == q
    ensures forall id :: id in s.active ==> id < s.nextId && Timestamped(Due(s, id), id) in s.pending
  {
    forall id | id in s.active
      ensures Timestamped(Due(s, id), id) in s.pending
    {
      assert s.pending[Timestamped(Due(s, id), id)] == 1;
    }
  }

  /** What one task has written. */
  function Project(written: seq<Written>, id: nat): seq<Event> {
    if written == [] then []
    else
      var last := written[|written| - 1];
      Project(written[..|written| - 1], id) + (if last.id == id then [last.event] else [])
  }

  /** The task's own view: its stack, heap and due time, and its own output. */
  ghost function SnapOf(s: Runtime, id: nat): Snapshot
    requires Inv(s)
  {
    Snapshot(if id in s.active then Active(s.active[id], Due(s, id)) else Over, Project(s.written, id))
  }

  lemma {:induction false} ProjectStamped(written: seq<Written>, id: nat, events: seq<Event>, x: nat)
    ensures Project(written + Stamped(id, events), x) == Project(written, x) + (if x == id then events else [])
    decreases |events|
  {
    if events == [] {
      assert written + Stamped(id, events) == written;
    } else {
      var m := |events| - 1;
      var all := written + Stamped(id, events);
      assert all[..|all| - 1] == written + Stamped(id, events[..m]);
      ProjectStamped(written, id, events[..m], x);
      assert events == events[..m] + [events[m]];
    }
  }

  lemma {:induction false} ProjectFresh(written: seq<Written>, id: nat)
    requires forall w :: w in written ==> w.id != id
    ensures Project(written, id) == []
    decreases |written|
  {
    if written != [] { ProjectFresh(written[..|written| - 1], id); }
  }

  lemma ScheduleStep(s: Runtime, task: Task, ts: u64, x: nat)
    requires Inv(s)
    ensures var s' := Scheduled(s, task, ts);
            Inv(s') && SnapOf(s', x) == if x == s.nextId then Snapshot(Active(task, ts), []) else SnapOf(s, x)
  {
    var s' := Scheduled(s, task, ts);
    var due := Dues(s)[s.nextId := ts];
    assert IsDueMap(s', due);
    DuesAreUnique(s', due);
    if x == s.nextId { ProjectFresh(s.written, x); }
  }

  lemma SteppedInv(s: Runtime, p: Timestamped)
    requires Inv(s) && p in s.pending
    ensures p.id in s.active && Due(s, p.id) == p.ts
    ensures var s' := Stepped(s, p); Inv(s')
    ensures var s', phase := Stepped(s, p), TaskStep(s.active[p.id], p.ts).phase;
            Dues(s') == if phase.Active? then Dues(s)[p.id := phase.ts] else Dues(s) - {p.id}
  {
    hide TaskStep;
    var phase := TaskStep(s.active[p.id], p.ts).phase;
    var s' := Stepped(s, p);
    var due := if phase.Active? then Dues(s)[p.id := phase.ts] else Dues(s) - {p.id};
    assert due.Keys == s'.active.Keys;
    assert IsDueMap(s', due);
    DuesAreUnique(s', due);
  }

  /** The popped task advances by one step of its own; no other task notices. */
  lemma IterateStep(s: Runtime, p: Timestamped, x: nat)
    requires Inv(s) && p in s.pending
    ensures p.id in s.active
    requires !TaskStep(s.active[p.id], p.ts).phase.Panicked?
    ensures var s' := Stepped(s, p);
            Inv(s') && SnapOf(s', x) == if x == p.id then Advance(SnapOf(s, x)) else SnapOf(s, x)
  {
    hide TaskStep, Project;
    SteppedInv(s, p);
    var s', o := Stepped(s, p), TaskStep(s.active[p.id], p.ts);
    ProjectStamped(s.written, p.id, o.out, x);
    if x == p.id {
      assert SnapOf(s, x) == Snapshot(Active(s.active[x], p.ts), Project(s.written, x));
      assert SnapOf(s', x) == Snapshot(o.phase, Project(s.written, x) + o.out);
    } else {
      assert Project(s.written, x) + [] == Project(s.written, x);
    }
  }

  /** Any action of the process, seen from one task. */
  lemma NextStep(s: Runtime, a: Action, s': Runtime, x: nat)
    requires Inv(s) && Transition(s, a, s')
    ensures Inv(s') && s.nextId <= s'.nextId
    ensures a.Schedule? ==> s'.nextId == s.nextId + 1
    ensures a.Schedule? ==> SnapOf(s', x) == if x == s.nextId then Snapshot(Active(a.task, a.ts), []) else SnapOf(s, x)
    ensures a.Iterate? ==> s'.nextId == s.nextId && a.popped.id in s.active && Due(s, a.popped.id) == a.popped.ts
    ensures a.Iterate? ==> SnapOf(s', x) == if x == a.popped.id then Advance(SnapOf(s, x)) else SnapOf(s, x)
  {
    hide TaskStep, SnapOf, IsDueMap;
    match a
    case Schedule(task, ts) => ScheduleStep(s, task, ts, x);
    case Iterate(_, p) => IterateStep(s, p, x); SteppedInv(s, p);
  }

  // ----- Runs -------------------------------------------------------------

  /** Consecutive states of the process, with the actions between them. */
  predicate IsRun(states: seq<Runtime>, acts: seq<Action>) {
    |states| == |acts| + 1 && forall i :: 0 <= i < |acts| ==> Transition(states[i], acts[i], states[i + 1])
  }

  /** How often task `id` was popped in acts[lo..hi]. */
  function Picks(acts: seq<Action>, lo: nat, hi: nat, id: nat): nat
    requires lo <= hi <= |acts|
    decreases hi
  {
    if lo == hi then 0
    else Picks(acts, lo, hi - 1, id) + (if acts[hi - 1].Iterate? && acts[hi - 1].popped.id == id then 1 else 0)
  }

  lemma {:induction false} RunKeepsInv(states: seq<Runtime>, acts: seq<Action>, i: nat)
    requires IsRun(states, acts) && Inv(states[0]) && i < |states|
    ensures Inv(states[i]) && states[0].nextId <= states[i].nextId
  {
    hide Transition, Inv;
    if i > 0 {
      RunKeepsInv(states, acts, i - 1);
      assert Transition(states[i - 1], acts[i - 1], states[i - 1 + 1]);
      NextStep(states[i - 1], acts[i - 1], states[i], 0);
    }
  }

  /** Non-interference: between two moments of any run, a task that was already
      there has made exactly as many solo steps as it was popped. */
  lemma {:induction false} TasksRunAlone(states: seq<Runtime>, acts: seq<Action>, lo: nat, hi: nat, id: nat)
    requires IsRun(states, acts) && Inv(states[0]) && lo <= hi < |states|
    requires Inv(states[lo]) && id < states[lo].nextId
    ensures Inv(states[hi]) && states[lo].nextId <= states[hi].nextId
    ensures SnapOf(states[hi], id) == Run(SnapOf(states[lo], id), Picks(acts, lo, hi, id))
    decreases hi
  {
    hide Transition, Inv, Run, SnapOf;
    if lo == hi {
      RunNoSteps(SnapOf(states[lo], id));
    } else {
      TasksRunAlone(states, acts, lo, hi - 1, id);
      assert Transition(states[hi - 1], acts[hi - 1], states[hi - 1 + 1]);
      NextStep(states[hi - 1], acts[hi - 1], states[hi], id);
      RunSucc(SnapOf(states[lo], id), Picks(acts, lo, hi - 1, id));
    }
  }

  lemma InitialInv()
    ensures Inv(INITIAL)
  {
    assert IsDueMap(INITIAL, map[]);
  }

  lemma RunNoSteps(s: Snapshot)
    ensures Run(s, 0) == s
  {
  }

  /** Scheduler refinement: in every run of the process, whatever the
      tie-breaks, the interleaving and the clock, the task scheduled by action
      i is at every later moment j exactly where its solo run is after as many
      steps as it was popped: same stack, same heap, same due time, and it has
      written exactly what the solo run has. */
  lemma SchedulerRefinesSoloRuns(states: seq<Runtime>, acts: seq<Action>, i: nat, j: nat)
    requires IsRun(states, acts) && states[0] == INITIAL
    requires i < j < |states| && acts[i].Schedule?
    ensures Inv(states[j])
    ensures SnapOf(states[j], states[i].nextId)
         == Run(Snapshot(Active(acts[i].task, acts[i].ts), []), Picks(acts, i + 1, j, states[i].nextId))
  {
    hide Transition, Inv, Run, SnapOf;
    InitialInv();
    RunKeepsInv(states, acts, i);
    assert Transition(states[i], acts[i], states[i + 1]);
    NextStep(states[i], acts[i], states[i + 1], states[i].nextId);
    TasksRunAlone(states, acts, i + 1, j, states[i].nextId);
  }

  /** Output only ever grows. */
  lemma {:induction false} OutputGrows(s: Snapshot, k: nat)
    ensures s.out <= Run(s, k).out
    decreases k
  {
    hide TaskStep;
    if k > 0 { OutputGrows(Advance(s), k - 1); }
  }

  /** Confluence: two tasks scheduled with the same stack, heap and timestamp,
      in two runs that otherwise have nothing in common, never disagree: what
      one has written is a prefix of what the other has, and once both are no
      longer active they have written the same. */
  lemma RunsAreConfluent(
      states1: seq<Runtime>, acts1: seq<Action>, i1: nat, j1: nat,
      states2: seq<Runtime>, acts2: seq<Action>, i2: nat, j2: nat)
    requires IsRun(states1, acts1) && states1[0] == INITIAL && i1 < j1 < |states1|
    requires IsRun(states2, acts2) && states2[0] == INITIAL && i2 < j2 < |states2|
    requires acts1[i1].Schedule? && acts2[i2].Schedule?
    requires acts1[i1].task == acts2[i2].task && acts1[i1].ts == acts2[i2].ts
    ensures var id1, id2 := states1[i1].nextId, states2[i2].nextId;
            var out1, out2 := Project(states1[j1].written, id1), Project(states2[j2].written, id2);
            && (out1 <= out2 || out2 <= out1)
            && (id1 !in states1[j1].active && id2 !in states2[j2].active ==> out1 == out2)
  {
    hide Transition, Inv, Run, Picks, Project, Dues;
    var id1, id2 := states1[i1].nextId, states2[i2].nextId;
    SchedulerRefinesSoloRuns(states1, acts1, i1, j1);
    SchedulerRefinesSoloRuns(states2, acts2, i2, j2);
    var s := Snapshot(Active(acts1[i1].task, acts1[i1].ts), []);
    var k1, k2 := Picks(acts1, i1 + 1, j1, id1), Picks(acts2, i2 + 1, j2, id2);
    if k1 <= k2 {
      RunAdd(s, k1, k2 - k1);
      OutputGrows(Run(s, k1), k2 - k1);
      if id1 !in states1[j1].active { RunStuck(Run(s, k1), k2 - k1); }
    } else {
      RunAdd(s, k2, k1 - k2);
      OutputGrows(Run(s, k2), k1 - k2);
      if id2 !in states2[j2].active { RunStuck(Run(s, k2), k1 - k2); }
    }
  }

  // ----- Draining up to a cutoff -----------------------------------------

  /** The task has nothing to do at or before the cutoff. */
  predicate Stopped(s: Snapshot, cutoff: u64) {
    s.phase.Active? ==> s.phase.ts > cutoff
  }

  /** `k` is the number of steps the task makes up to the cutoff. */
  ghost predicate DrainSteps(s: Snapshot, cutoff: u64, k: nat) {
    Stopped(Run(s, k), cutoff) && forall j: nat :: j < k ==> !Stopped(Run(s, j), cutoff)
  }

  lemma DrainStepsUnique(s: Snapshot, cutoff: u64, j: nat, k: nat)
    requires DrainSteps(s, cutoff, j) && DrainSteps(s, cutoff, k)
    ensures j == k
  {
    hide Run;
  }

  /** b is what draining a up to the cutoff leaves: no task is due any more and
      each one has run exactly until it was not. */
  ghost predicate DrainedTo(a: Runtime, b: Runtime, cutoff: u64) {
    && Inv(a) && Inv(b)
    && a.nextId == b.nextId
    && forall id: nat :: DrainedTask(a, b, cutoff, id)
  }

  ghost predicate DrainedTask(a: Runtime, b: Runtime, cutoff: u64, id: nat)
    requires Inv(a) && Inv(b)
  {
    exists k: nat :: DrainSteps(SnapOf(a, id), cutoff, k) && SnapOf(b, id) == Run(SnapOf(a, id), k)
  }

  /** A sequence of iterations up to a cutoff, whatever entry was popped at each
      tie, whatever smaller cutoffs were read on the way and whatever was
      scheduled in between: once nothing is due, each task that was there at
      the start has run exactly until it was not due. */
  lemma EachTaskIsDrained(states: seq<Runtime>, acts: seq<Action>, cutoff: u64, id: nat)
    requires IsRun(states, acts) && Inv(states[0]) && id < states[0].nextId
    requires forall a :: a in acts && a.Iterate? ==> a.cutoff <= cutoff
    requires forall p :: p in states[|acts|].pending ==> p.ts > cutoff
    ensures Inv(states[|acts|]) && DrainedTask(states[0], states[|acts|], cutoff, id)
  {
    hide Transition, Run, Stepped, IsDueMap;
    var n := |acts|;
    RunKeepsInv(states, acts, n);
    TasksRunAlone(states, acts, 0, n, id);
    var k := Picks(acts, 0, n, id);
    forall j: nat | j < k
      ensures !Stopped(Run(SnapOf(states[0], id), j), cutoff)
    {
      PickedWhileDue(states, acts, n, id, j, cutoff);
    }
    PendingMatchesActive(states[n]);
    assert Stopped(Run(SnapOf(states[0], id), k), cutoff);
    assert DrainSteps(SnapOf(states[0], id), cutoff, k);
  }

  lemma SuffixIsRun(states: seq<Runtime>, acts: seq<Action>, i: nat)
    requires IsRun(states, acts) && i <= |acts|
    ensures IsRun(states[i..], acts[i..])
  {
    hide Transition;
    forall l | 0 <= l < |acts| - i
      ensures Transition(states[i..][l], acts[i..][l], states[i..][l + 1])
    {
      assert Transition(states[i + l], acts[i + l], states[i + l + 1]);
    }
  }

  /** So is each task that was scheduled on the way, from its scheduling on. */
  lemma EachArrivalIsDrained(states: seq<Runtime>, acts: seq<Action>, cutoff: u64, i: nat)
    requires IsRun(states, acts) && Inv(states[0]) && i < |acts| && acts[i].Schedule?
    requires forall a :: a in acts && a.Iterate? ==> a.cutoff <= cutoff
    requires forall p :: p in states[|acts|].pending ==> p.ts > cutoff
    ensures Inv(states[i + 1]) && Inv(states[|acts|])
    ensures SnapOf(states[i + 1], states[i].nextId) == Snapshot(Active(acts[i].task, acts[i].ts), [])
    ensures DrainedTask(states[i + 1], states[|acts|], cutoff, states[i].nextId)
  {
    hide Run, Stepped, IsDueMap, CanPop, SnapOf;
    RunKeepsInv(states, acts, i);
    RunKeepsInv(states, acts, i + 1);
    assert Transition(states[i], acts[i], states[i + 1]);
    NextStep(states[i], acts[i], states[i + 1], states[i].nextId);
    SuffixIsRun(states, acts, i + 1);
    hide Transition;
    EachTaskIsDrained(states[i + 1..], acts[i + 1..], cutoff, states[i].nextId);
  }

  /** A maximal sequence of iterations up to a cutoff drains, whatever entry was
      popped at each tie and whatever smaller cutoffs were read on the way. */
  lemma MaximalRunDrains(states: seq<Runtime>, acts: seq<Action>, cutoff: u64)
    requires IsRun(states, acts) && Inv(states[0])
    requires forall a :: a in acts ==> a.Iterate? && a.cutoff <= cutoff
    requires forall p :: p in states[|acts|].pending ==> p.ts > cutoff
    ensures DrainedTo(states[0], states[|acts|], cutoff)
  {
    hide Transition, Run, Stepped, IsDueMap;
    var n := |acts|;
    RunKeepsInv(states, acts, n);
    IterationsKeepNextId(states, acts, n);
    forall id: nat
      ensures DrainedTask(states[0], states[n], cutoff, id)
    {
      if id < states[0].nextId {
        EachTaskIsDrained(states, acts, cutoff, id);
      } else {
        ProjectFresh(states[0].written, id);
        ProjectFresh(states[n].written, id);
        RunNoSteps(SnapOf(states[0], id));
        assert DrainSteps(SnapOf(states[0], id), cutoff, 0);
      }
    }
  }

  lemma {:induction false} IterationsKeepNextId(states: seq<Runtime>, acts: seq<Action>, i: nat)
    requires IsRun(states, acts) && i < |states|
    requires forall a :: a in acts ==> a.Iterate?
    ensures states[i].nextId == states[0].nextId
  {
    hide TaskStep;
    if i > 0 {
      IterationsKeepNextId(states, acts, i - 1);
      assert Transition(states[i - 1], acts[i - 1], states[i - 1 + 1]);
      assert acts[i - 1] in acts;
    }
  }

  lemma PopIsDue(s: Runtime, a: Action, s': Runtime, cutoff: u64)
    requires Inv(s) && Transition(s, a, s') && a.Iterate? && a.cutoff <= cutoff
    ensures !Stopped(SnapOf(s, a.popped.id), cutoff)
  {
    hide TaskStep, Stepped, Project;
    PendingMatchesActive(s);
  }

  /** Before its j-th step in the run the task was due at or before the cutoff. */
  lemma {:induction false} PickedWhileDue(states: seq<Runtime>, acts: seq<Action>, n: nat, id: nat, j: nat, cutoff: u64)
    requires IsRun(states, acts) && Inv(states[0]) && n <= |acts| && id < states[0].nextId
    requires forall a :: a in acts && a.Iterate? ==> a.cutoff <= cutoff
    requires j < Picks(acts, 0, n, id)
    ensures !Stopped(Run(SnapOf(states[0], id), j), cutoff)
    decreases n
  {
    hide Run, Inv, Transition, SnapOf, Stopped;
    if j < Picks(acts, 0, n - 1, id) {
      PickedWhileDue(states, acts, n - 1, id, j, cutoff);
    } else {
      TasksRunAlone(states, acts, 0, n - 1, id);
      assert Transition(states[n - 1], acts[n - 1], states[n - 1 + 1]);
      assert acts[n - 1] in acts;
      PopIsDue(states[n - 1], acts[n - 1], states[n], cutoff);
    }
  }

  /** The snapshots of all tasks determine the pending heap and the active tasks. */
  lemma SnapshotsDetermineRuntime(b: Runtime, b': Runtime)
    requires Inv(b) && Inv(b') && forall id: nat :: SnapOf(b, id) == SnapOf(b', id)
    ensures b.active == b'.active && b.pending == b'.pending
    ensures forall id: nat :: Project(b.written, id) == Project(b'.written, id)
  {
    hide Inv, IsDueMap, Project;
    DuesDomain(b);
    DuesDomain(b');
    forall id: nat
      ensures id in b.active <==> id in b'.active
      ensures id in b.active ==> b.active[id] == b'.active[id] && Dues(b)[id] == Dues(b')[id]
      ensures Project(b.written, id) == Project(b'.written, id)
    {
      assert SnapOf(b, id) == SnapOf(b', id);
    }
    assert Dues(b) == Dues(b');
    SameDuesSamePending(b, b');
  }

  lemma DuesDomain(s: Runtime)
    requires Inv(s)
    ensures Dues(s).Keys == s.active.Keys
  {
  }

  lemma SameDuesSamePending(b: Runtime, b': Runtime)
    requires Inv(b) && Inv(b') && Dues(b) == Dues(b')
    ensures b.pending == b'.pending
  {
    assert forall p: Timestamped :: b.pending[p] == b'.pending[p];
  }

  /** Draining is deterministic up to the order of writes of different tasks:
      every tie-break leaves the same active tasks, the same pending multiset
      and the same output of every task. */
  lemma DrainIsDeterministic(a: Runtime, b: Runtime, b': Runtime, cutoff: u64)
    requires DrainedTo(a, b, cutoff) && DrainedTo(a, b', cutoff)
    ensures b.active == b'.active && b.pending == b'.pending
    ensures forall id: nat :: Project(b.written, id) == Project(b'.written, id)
    ensures multiset(b.written) == multiset(b'.written)
  {
    hide Run, SnapOf, DrainSteps;
    forall id: nat
      ensures SnapOf(b, id) == SnapOf(b', id)
    {
      assert DrainedTask(a, b, cutoff, id) && DrainedTask(a, b', cutoff, id);
      var k: nat :| DrainSteps(SnapOf(a, id), cutoff, k) && SnapOf(b, id) == Run(SnapOf(a, id), k);
      var k': nat :| DrainSteps(SnapOf(a, id), cutoff, k') && SnapOf(b', id) == Run(SnapOf(a, id), k');
      DrainStepsUnique(SnapOf(a, id), cutoff, k, k');
    }
    SnapshotsDetermineRuntime(b, b');
    SameProjections(b.written, b'.written);
  }

  lemma {:induction false} ProjectCounts(written: seq<Written>, w: Written)
    ensures multiset(written)[w] == multiset(Project(written, w.id))[w.event]
    decreases |written|
  {
    if written != [] {
      var n := |written| - 1;
      var last, before := written[n], written[..n];
      assert written == before + [last];
      ProjectCounts(before, w);
      assert last.id == w.id && last.event == w.event <==> last == w;
    }
  }

  /** What all tasks have written, one by one, is what the process has written,
      up to the order between tasks. */
  lemma SameProjections(written: seq<Written>, written': seq<Written>)
    requires forall id: nat :: Project(written, id) == Project(written', id)
    ensures multiset(written) == multiset(written')
  {
    forall w: Written
      ensures multiset(written)[w] == multiset(written')[w]
    {
      ProjectCounts(written, w);
      ProjectCounts(written', w);
    }
  }

  lemma DrainStepsCompose(s: Snapshot, c1: u64, c2: u64, k1: nat, k2: nat)
    requires c1 <= c2 && DrainSteps(s, c1, k1) && DrainSteps(Run(s, k1), c2, k2)
    ensures DrainSteps(s, c2, k1 + k2)
  {
    RunAdd(s, k1, k2);
    forall j: nat | j < k1 + k2
      ensures !Stopped(Run(s, j), c2)
    {
      hide Run;
      if j < k1 { DueBefore(s, c1, c2, k1, j); } else { DueAfter(s, c2, k1, k2, j); }
    }
  }

  lemma DueBefore(s: Snapshot, c1: u64, c2: u64, k1: nat, j: nat)
    requires c1 <= c2 && DrainSteps(s, c1, k1) && j < k1
    ensures !Stopped(Run(s, j), c2)
  {
    hide Run;
  }

  lemma DueAfter(s: Snapshot, c2: u64, k1: nat, k2: nat, j: nat)
    requires DrainSteps(Run(s, k1), c2, k2) && k1 <= j < k1 + k2
    ensures !Stopped(Run(s, j), c2)
  {
    hide Run, Stopped;
    RunAdd(s, k1, j - k1);
  }

  /** Draining at c1 and then at c2 >= c1 is draining once at c2. */
  lemma DrainsCompose(a: Runtime, b: Runtime, d: Runtime, c1: u64, c2: u64)
    requires c1 <= c2 && DrainedTo(a, b, c1) && DrainedTo(b, d, c2)
    ensures DrainedTo(a, d, c2)
  {
    hide Run, SnapOf, DrainSteps;
    forall id: nat
      ensures DrainedTask(a, d, c2, id)
    {
      assert DrainedTask(a, b, c1, id) && DrainedTask(b, d, c2, id);
      var k1: nat :| DrainSteps(SnapOf(a, id), c1, k1) && SnapOf(b, id) == Run(SnapOf(a, id), k1);
      var k2: nat :| DrainSteps(SnapOf(b, id), c2, k2) && SnapOf(d, id) == Run(SnapOf(b, id), k2);
      DrainStepsCompose(SnapOf(a, id), c1, c2, k1, k2);
      RunAdd(SnapOf(a, id), k1, k2);
    }
  }

  lemma NotActiveAtTheEnd(a: Runtime, b: Runtime, id: nat)
    requires DrainedTo(a, b, U64_MAX)
    ensures id !in b.active
  {
    hide Run, Project;
    assert DrainedTask(a, b, U64_MAX, id);
  }

  /** A drain at the end of time leaves no task. */
  lemma FullDrainLeavesNothing(a: Runtime, b: Runtime)
    requires DrainedTo(a, b, U64_MAX)
    ensures b.active == map[] && b.pending == multiset{}
  {
    hide DrainedTask, Inv;
    forall id
      ensures id !in b.active
    {
      if id >= 0 { NotActiveAtTheEnd(a, b, id); }
    }
    PendingMatchesActive(b);
    assert b.active.Keys == {};
    assert forall p :: p !in b.pending;
  }

  // ----- Time -------------------------------------------------------------

  /** One step of a task never goes back in time, and writes at the time of the step. */
  lemma StepTime(task: Task, ts: u64)
    ensures var o := TaskStep(task, ts);
            (o.phase.Active? ==> ts <= o.phase.ts) && forall e :: e in o.out ==> e.ts == ts
  {
  }

  /** A task's due time never goes back, and it never writes before it. */
  lemma {:induction false} TaskTimeOrder(s: Snapshot, k: nat)
    requires s.phase.Active?
    ensures Run(s, k).phase.Active? ==> s.phase.ts <= Run(s, k).phase.ts
    ensures |s.out| <= |Run(s, k).out| && forall e :: e in Run(s, k).out[|s.out|..] ==> s.phase.ts <= e.ts
    decreases k
  {
    hide TaskStep;
    if k > 0 {
      var s' := Advance(s);
      StepTime(s.phase.task, s.phase.ts);
      OutputGrows(s', k - 1);
      var out := Run(s, k).out;
      if s'.phase.Active? { TaskTimeOrder(s', k - 1); } else { RunStuck(s', k - 1); }
      assert out[|s.out|..] == s'.out[|s.out|..] + out[|s'.out|..];
    }
  }

  /** What a task has written is in time order, and not after its due time. */
  ghost predicate OutInOrder(s: Snapshot) {
    && (forall i, j :: 0 <= i < j < |s.out| ==> s.out[i].ts <= s.out[j].ts)
    && (s.phase.Active? ==> forall e :: e in s.out ==> e.ts <= s.phase.ts)
  }

  lemma AdvanceInOrder(s: Snapshot)
    requires OutInOrder(s)
    ensures OutInOrder(Advance(s))
  {
    if s.phase.Active? {
      StepTime(s.phase.task, s.phase.ts);
      hide TaskStep;
      var o := TaskStep(s.phase.task, s.phase.ts);
      var out := s.out + o.out;
      forall i, j | 0 <= i < j < |out|
        ensures out[i].ts <= out[j].ts
      {
        if i < |s.out| { assert s.out[i] in s.out; } else { assert out[i] in o.out; }
        if j >= |s.out| { assert out[j] in o.out; }
      }
    }
  }

  lemma {:induction false} RunInOrder(s: Snapshot, k: nat)
    requires OutInOrder(s)
    ensures OutInOrder(Run(s, k))
    decreases k
  {
    if k > 0 {
      AdvanceInOrder(s);
      hide OutInOrder, TaskStep;
      RunInOrder(Advance(s), k - 1);
    }
  }

  /** In every run, whatever is scheduled and popped in between, each task
      writes in time order, and never after the time it is due. */
  lemma TaskWritesInOrder(states: seq<Runtime>, acts: seq<Action>, i: nat, j: nat)
    requires IsRun(states, acts) && states[0] == INITIAL
    requires i < j < |states| && acts[i].Schedule?
    ensures Inv(states[j])
    ensures var id := states[i].nextId;
            var out := Project(states[j].written, id);
            && (forall k, l :: 0 <= k < l < |out| ==> out[k].ts <= out[l].ts)
            && (forall e :: e in out ==> acts[i].ts <= e.ts)
            && (id in states[j].active ==> forall e :: e in out ==> e.ts <= Due(states[j], id))
  {
    hide Transition, Inv, Due, Project, Run, TaskStep;
    var start, k := Snapshot(Active(acts[i].task, acts[i].ts), []), Picks(acts, i + 1, j, states[i].nextId);
    SchedulerRefinesSoloRuns(states, acts, i, j);
    RunInOrder(start, k);
    TaskTimeOrder(start, k);
    var out := Run(start, k).out;
    assert out[0..] == out;
  }

  lemma {:induction false} TaskTimeBound(s: Snapshot, k: nat, cutoff: u64)
    requires forall j: nat :: j < k ==> !Stopped(Run(s, j), cutoff)
    ensures |s.out| <= |Run(s, k).out| && forall e :: e in Run(s, k).out[|s.out|..] ==> e.ts <= cutoff
    decreases k
  {
    hide TaskStep;
    OutputGrows(s, k);
    if k > 0 {
      assert !Stopped(Run(s, 0), cutoff);
      var s' := Advance(s);
      forall j: nat | j < k - 1
        ensures !Stopped(Run(s', j), cutoff)
      {
        assert Run(s, j + 1) == Run(s', j);
      }
      TaskTimeBound(s', k - 1, cutoff);
      OutputGrows(s', k - 1);
      StepTime(s.phase.task, s.phase.ts);
      var out := Run(s, k).out;
      assert out[|s.out|..] == s'.out[|s.out|..] + out[|s'.out|..];
    }
  }

  lemma StoppedWritesLater(s: Snapshot, cutoff: u64, m: nat)
    requires Stopped(s, cutoff)
    ensures s.out <= Run(s, m).out && forall e :: e in Run(s, m).out[|s.out|..] ==> e.ts > cutoff
  {
    hide Run;
    OutputGrows(s, m);
    if s.phase.Active? { TaskTimeOrder(s, m); } else { RunStuck(s, m); }
  }

  lemma SoloDrainEmits(s: Snapshot, cutoff: u64, k: nat, m: nat)
    requires DrainSteps(s, cutoff, k) && k <= m
    ensures s.out <= Run(s, k).out <= Run(s, m).out
    ensures forall e :: e in Run(s, k).out[|s.out|..] ==> e.ts <= cutoff
    ensures forall e :: e in Run(s, m).out[|Run(s, k).out|..] ==> e.ts > cutoff
  {
    hide Run, Stopped;
    TaskTimeBound(s, k, cutoff);
    OutputGrows(s, k);
    RunAdd(s, k, m - k);
    StoppedWritesLater(Run(s, k), cutoff, m - k);
  }

  /** A drain emits exactly the writes due at or before the cutoff: what any
      task writes during the drain is at most the cutoff, and whatever it
      writes in any number of steps after that is later. */
  lemma DrainEmitsExactlyWhatIsDue(a: Runtime, b: Runtime, cutoff: u64, id: nat, m: nat)
    requires DrainedTo(a, b, cutoff)
    ensures var before, after := Project(a.written, id), Project(b.written, id);
            var later := Run(SnapOf(b, id), m).out;
            && before <= after <= later
            && (forall e :: e in after[|before|..] ==> e.ts <= cutoff)
            && (forall e :: e in later[|after|..] ==> e.ts > cutoff)
  {
    hide Run, DrainSteps, Due, Inv;
    assert DrainedTask(a, b, cutoff, id);
    var k: nat :| DrainSteps(SnapOf(a, id), cutoff, k) && SnapOf(b, id) == Run(SnapOf(a, id), k);
    SoloDrainEmits(SnapOf(a, id), cutoff, k, k + m);
    RunAdd(SnapOf(a, id), k, m);
  }

  /** The timestamp of the last entry popped before action i, 0 if none was. */
  function LastPopped(acts: seq<Action>, i: nat): u64
    requires i <= |acts|
  {
    if i == 0 then 0
    else if acts[i - 1].Iterate? then acts[i - 1].popped.ts
    else LastPopped(acts, i - 1)
  }

  /** No task that was scheduled for a time already executed is followed by a pop. */
  predicate NoLateSchedule(acts: seq<Action>) {
    forall i, j :: 0 <= i < j < |acts| && acts[i].Schedule? && acts[j].Iterate? ==> LastPopped(acts, i) <= acts[i].ts
  }

  /** Entries are popped in non-decreasing timestamp order. */
  predicate PopsInOrder(acts: seq<Action>) {
    forall i, j :: 0 <= i < j < |acts| && acts[i].Iterate? && acts[j].Iterate?
        ==> acts[i].popped.ts <= acts[j].popped.ts
  }

  predicate InTimeOrder(written: seq<Written>) {
    forall i, j :: 0 <= i < j < |written| ==> written[i].event.ts <= written[j].event.ts
  }

  ghost predicate OnTime(s: Runtime, last: u64) {
    && (forall p :: p in s.pending ==> last <= p.ts)
    && (forall w :: w in s.written ==> w.event.ts <= last)
    && InTimeOrder(s.written)
  }

  lemma IterateOnTime(s: Runtime, cutoff: u64, p: Timestamped, last: u64)
    requires Inv(s) && OnTime(s, last) && CanPop(s, cutoff, p)
    ensures last <= p.ts && OnTime(Stepped(s, p), p.ts)
  {
    hide TaskStep;
    StepTime(s.active[p.id], p.ts);
    var s' := Stepped(s, p);
    var o := TaskStep(s.active[p.id], p.ts);
    assert forall j :: 0 <= j < |o.out| ==> o.out[j] in o.out;
    forall i, j | 0 <= i < j < |s'.written|
      ensures s'.written[i].event.ts <= s'.written[j].event.ts
    {
      assert i < |s.written| ==> s'.written[i] in s.written;
    }
  }

  lemma {:induction false} OnTimeBeforePop(states: seq<Runtime>, acts: seq<Action>, i: nat, j: nat)
    requires IsRun(states, acts) && states[0] == INITIAL && NoLateSchedule(acts)
    requires i <= j < |acts| == |states| - 1 && acts[j].Iterate?
    ensures OnTime(states[i], LastPopped(acts, i))
    ensures i > 0 ==> LastPopped(acts, i - 1) <= LastPopped(acts, i)
    decreases i
  {
    hide TaskStep, Inv;
    if i > 0 {
      OnTimeBeforePop(states, acts, i - 1, j);
      OnTimeStep(states, acts, i - 1);
    }
  }

  lemma OnTimeStep(states: seq<Runtime>, acts: seq<Action>, i: nat)
    requires IsRun(states, acts) && states[0] == INITIAL && i < |acts| == |states| - 1
    requires OnTime(states[i], LastPopped(acts, i))
    requires acts[i].Schedule? ==> LastPopped(acts, i) <= acts[i].ts
    ensures OnTime(states[i + 1], LastPopped(acts, i + 1))
    ensures LastPopped(acts, i) <= LastPopped(acts, i + 1)
  {
    hide TaskStep, Inv;
    InitialInv();
    RunKeepsInv(states, acts, i);
    assert Transition(states[i], acts[i], states[i + 1]);
    match acts[i]
    case Schedule(task, ts) => ScheduleOnTime(states[i], task, ts, LastPopped(acts, i));
    case Iterate(cutoff, p) => IterateOnTime(states[i], cutoff, p, LastPopped(acts, i));
  }

  lemma ScheduleOnTime(s: Runtime, task: Task, ts: u64, last: u64)
    requires OnTime(s, last) && last <= ts
    ensures OnTime(Scheduled(s, task, ts), last)
  {
  }

  /** Global time order: lines are written in non-decreasing timestamp order,
      across all tasks, if no late schedule is followed by a pop. */
  lemma {:induction false} RunIsInTimeOrder(states: seq<Runtime>, acts: seq<Action>, i: nat)
    requires IsRun(states, acts) && states[0] == INITIAL && i <= |acts| == |states| - 1 && NoLateSchedule(acts)
    ensures InTimeOrder(states[i].written)
    decreases i
  {
    if i > 0 {
      hide IsRun, OnTime, NoLateSchedule, LastPopped, InTimeOrder;
      if acts[i - 1].Schedule? {
        RunIsInTimeOrder(states, acts, i - 1);
        ScheduleWritesNothing(states, acts, i - 1);
      } else {
        OnTimeBeforePop(states, acts, i - 1, i - 1);
        OnTimeStep(states, acts, i - 1);
        OnTimeWritten(states[i], LastPopped(acts, i));
      }
    }
  }

  lemma OnTimeWritten(s: Runtime, last: u64)
    requires OnTime(s, last)
    ensures InTimeOrder(s.written)
  {
  }

  lemma ScheduleWritesNothing(states: seq<Runtime>, acts: seq<Action>, i: nat)
    requires IsRun(states, acts) && i < |acts| && acts[i].Schedule?
    ensures states[i + 1].written == states[i].written
  {
    hide Stepped, CanPop;
    assert Transition(states[i], acts[i], states[i + 1]);
  }

  lemma {:induction false} PoppedUpTo(states: seq<Runtime>, acts: seq<Action>, h: nat, i: nat, j: nat)
    requires IsRun(states, acts) && states[0] == INITIAL && NoLateSchedule(acts)
    requires h < i <= j < |acts| == |states| - 1 && acts[h].Iterate? && acts[j].Iterate?
    ensures acts[h].popped.ts <= LastPopped(acts, i)
    decreases i
  {
    hide IsRun, OnTime, NoLateSchedule;
    if i > h + 1 {
      PoppedUpTo(states, acts, h, i - 1, j);
      OnTimeBeforePop(states, acts, i, j);
    }
  }

  /** The pop behind `LastPopped`. */
  lemma {:induction false} LastPop(acts: seq<Action>, i: nat) returns (h: nat)
    requires i <= |acts| && LastPopped(acts, i) > 0
    ensures h < i && acts[h].Iterate? && acts[h].popped.ts == LastPopped(acts, i)
    decreases i
  {
    if acts[i - 1].Iterate? { h := i - 1; } else { h := LastPop(acts, i - 1); }
  }

  /** Up to the next pop an entry stays in the heap, and nothing else is popped. */
  lemma {:induction false} StaysPending(states: seq<Runtime>, acts: seq<Action>, i: nat, m: nat)
    requires IsRun(states, acts) && i < m <= |acts| == |states| - 1
    requires forall l :: i <= l < m ==> acts[l].Schedule?
    ensures Timestamped(acts[i].ts, states[i].nextId) in states[m].pending
    ensures LastPopped(acts, m) == LastPopped(acts, i)
    decreases m
  {
    hide IsRun;
    var q := Timestamped(acts[i].ts, states[i].nextId);
    ScheduleKeepsEntries(states, acts, m - 1, q);
    if m > i + 1 { StaysPending(states, acts, i, m - 1); }
  }

  lemma ScheduleKeepsEntries(states: seq<Runtime>, acts: seq<Action>, m: nat, q: Timestamped)
    requires IsRun(states, acts) && m < |acts| == |states| - 1 && acts[m].Schedule?
    ensures q in states[m].pending || q == Timestamped(acts[m].ts, states[m].nextId) ==> q in states[m + 1].pending
  {
    hide Stepped, CanPop;
    assert Transition(states[m], acts[m], states[m + 1]);
  }

  lemma {:induction false} NextPop(acts: seq<Action>, i: nat, j: nat) returns (m: nat)
    requires i < j < |acts| && acts[i].Schedule? && acts[j].Iterate?
    ensures i < m <= j && acts[m].Iterate? && forall l :: i <= l < m ==> acts[l].Schedule?
    decreases j - i
  {
    if acts[i + 1].Iterate? { m := i + 1; } else { m := NextPop(acts, i + 1, j); }
  }

  /** After a late schedule the next pop, however many tasks are scheduled
      before it and whichever entry the heap hands out, goes back in time. */
  lemma LateScheduleGoesBack(states: seq<Runtime>, acts: seq<Action>, i: nat, j: nat) returns (h: nat, m: nat)
    requires IsRun(states, acts) && i < j < |acts| && acts[i].Schedule? && acts[j].Iterate?
    requires acts[i].ts < LastPopped(acts, i)
    ensures h < i < m <= j && acts[h].Iterate? && acts[m].Iterate?
    ensures acts[m].popped.ts < acts[h].popped.ts
  {
    hide TaskStep;
    h := LastPop(acts, i);
    m := NextPop(acts, i, j);
    StaysPending(states, acts, i, m);
    assert Transition(states[m], acts[m], states[m + 1]);
  }

  /** A run of two schedules, each with a pop after it. */
  lemma RunOfFour(s0: Runtime, a0: Action, s1: Runtime, a1: Action, s2: Runtime, a2: Action, s3: Runtime, a3: Action,
                  s4: Runtime)
      returns (states: seq<Runtime>, acts: seq<Action>)
    requires Transition(s0, a0, s1) && Transition(s1, a1, s2) && Transition(s2, a2, s3) && Transition(s3, a3, s4)
    ensures IsRun(states, acts) && states != [] && states[0] == s0
    ensures |acts| == 4 && acts[0] == a0 && acts[1] == a1 && acts[2] == a2 && acts[3] == a3
  {
    hide Transition;
    states, acts := [s0, s1, s2, s3, s4], [a0, a1, a2, a3];
  }

  /** The pops of a run are in time order if and only if no late schedule is
      followed by a pop. */
  lemma PopsInOrderExactly(states: seq<Runtime>, acts: seq<Action>)
    requires IsRun(states, acts) && states[0] == INITIAL
    ensures PopsInOrder(acts) <==> NoLateSchedule(acts)
  {
    hide TaskStep, Inv, OnTime, Transition, Stepped;
    if NoLateSchedule(acts) {
      forall h, j | 0 <= h < j < |acts| && acts[h].Iterate? && acts[j].Iterate?
        ensures acts[h].popped.ts <= acts[j].popped.ts
      {
        PoppedUpTo(states, acts, h, j, j);
        OnTimeBeforePop(states, acts, j, j);
        OnTimePop(states, acts, j);
      }
    } else {
      var i, j :| 0 <= i < j < |acts| && acts[i].Schedule? && acts[j].Iterate? && acts[i].ts < LastPopped(acts, i);
      var h, m := LateScheduleGoesBack(states, acts, i, j);
    }
  }

  lemma OnTimePop(states: seq<Runtime>, acts: seq<Action>, j: nat)
    requires IsRun(states, acts) && j < |acts| && acts[j].Iterate? && OnTime(states[j], LastPopped(acts, j))
    ensures LastPopped(acts, j) <= acts[j].popped.ts
  {
    hide TaskStep;
    assert Transition(states[j], acts[j], states[j + 1]);
  }
}
