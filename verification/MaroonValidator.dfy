/** The debug validator of the call stack: the index loop, exactly what it
    accepts, and why every stack of a scheduled task passes it. */
module MaroonValidator {
  import opened MaroonMachine
  import opened MaroonPrograms
  import opened MaroonTyping

  /** How many values belong below an entry that is a state or a return point. */
  function FrameSize(e: StackEntry): nat
    requires !e.Value?
  {
    match e
    case State(s) => LocalVarsCount(s)
    case Retrn(s) => ReturnLocalVarsCount(s)
  }

  /** The validator's verdict on a non-empty stack, walking down from the top.
      It stops as soon as it stands on entry 0, without looking at it. */
  predicate AcceptsBelow(stk: seq<StackEntry>)
    requires stk != []
    decreases |stk|
  {
    var i := |stk| - 1;
    i == 0
    || (&& !stk[i].Value?
        && TopAreValues(stk[..i], FrameSize(stk[i]))
        && (FrameSize(stk[i]) == i || AcceptsBelow(stk[..i - FrameSize(stk[i])])))
  }

  predicate Accepts(stk: seq<StackEntry>) {
    stk != [] && AcceptsBelow(stk)
  }

  /** `ok` is false where the program panics. */
  method DebugValidateMaroonStack(stk: seq<StackEntry>) returns (ok: bool)
    ensures ok == Accepts(stk)
  {
    var stackDepth := |stk|;
    if stackDepth == 0 {
      return false;
    }
    var i := stackDepth - 1;
    assert stk[..i + 1] == stk;
    while i > 0
      invariant 0 <= i < stackDepth
      invariant Accepts(stk) == AcceptsBelow(stk[..i + 1])
    {
      ghost var rest := stk[..i + 1];
      assert rest[..i] == stk[..i];
      if stk[i].Value? {
        return false;
      }
      var n := FrameSize(stk[i]);
      if n > i {
        return false;
      }
      ghost var top := i;
      for k := 0 to n
        invariant i == top - k
        invariant forall j :: top - k <= j < top ==> stk[j].Value?
      {
        i := i - 1;
        if !stk[i].Value? {
          assert !TopAreValues(stk[..top], n);
          return false;
        }
      }
      assert TopAreValues(stk[..top], n);
      if i == 0 {
        break;
      } else {
        i := i - 1;
        assert rest[..top - n] == stk[..i + 1];
      }
    }
    assert stk[..1] == [stk[0]];
    return true;
  }

  // ----- What the validator checks, declaratively ------------------------

  /** The variables of an activation, with the state or return point above them. */
  datatype Frame = Frame(vars: seq<StackValue>, header: StackEntry)

  predicate GoodFrame(f: Frame) {
    !f.header.Value? && |f.vars| == FrameSize(f.header)
  }

  function Entries(f: Frame): seq<StackEntry> {
    seq(|f.vars|, j requires 0 <= j < |f.vars| => Value(f.vars[j])) + [f.header]
  }

  /** Frames laid out from the bottom of the stack up. */
  function Layout(fs: seq<Frame>): seq<StackEntry> {
    if fs == [] then [] else Layout(fs[..|fs| - 1]) + Entries(fs[|fs| - 1])
  }

  ghost predicate LaidOut(stk: seq<StackEntry>, bottom: seq<StackEntry>, fs: seq<Frame>) {
    |bottom| <= 1 && (forall f :: f in fs ==> GoodFrame(f)) && stk == bottom + Layout(fs)
  }

  /** The frame an accepted stack ends in. */
  lemma TopFrame(stk: seq<StackEntry>) returns (below: seq<StackEntry>, f: Frame)
    requires Accepts(stk) && |stk| > 1
    ensures GoodFrame(f) && stk == below + Entries(f)
    ensures below == [] || Accepts(below)
  {
    var i := |stk| - 1;
    var n := FrameSize(stk[i]);
    below := stk[..i - n];
    assert forall j :: i - n <= j < i ==> stk[..i][j].Value?;
    f := Frame(seq(n, j requires 0 <= j < n => stk[i - n + j].value), stk[i]);
    var top, entries := stk[i - n..], Entries(f);
    assert |top| == |entries| == n + 1;
    forall j | 0 <= j < n + 1
      ensures top[j] == entries[j]
    {
      assert top[j] == stk[i - n + j];
      if j < n { assert stk[..i][i - n + j].Value?; }
    }
    assert top == entries;
  }

  lemma LayOutOneMore(below: seq<StackEntry>, bottom: seq<StackEntry>, fs: seq<Frame>, f: Frame)
    requires LaidOut(below, bottom, fs) && GoodFrame(f)
    ensures LaidOut(below + Entries(f), bottom, fs + [f])
  {
    hide Entries;
    var fs' := fs + [f];
    assert fs'[..|fs|] == fs;
    assert bottom + Layout(fs') == bottom + Layout(fs) + Entries(f);
  }

  lemma {:induction false} AcceptedIsLaidOut(stk: seq<StackEntry>) returns (bottom: seq<StackEntry>, fs: seq<Frame>)
    requires Accepts(stk)
    ensures LaidOut(stk, bottom, fs)
    decreases |stk|
  {
    hide AcceptsBelow, GoodFrame;
    if |stk| == 1 {
      bottom, fs := stk, [];
    } else {
      var below, f := TopFrame(stk);
      bottom, fs := [], [];
      if below != [] { bottom, fs := AcceptedIsLaidOut(below); }
      LayOutOneMore(below, bottom, fs, f);
      fs := fs + [f];
    }
  }

  lemma PushFrameAccepted(below: seq<StackEntry>, vars: seq<StackEntry>, header: StackEntry)
    requires below == [] || Accepts(below)
    requires !header.Value? && |vars| == FrameSize(header) && forall v :: v in vars ==> v.Value?
    ensures Accepts(below + vars + [header])
  {
    var stk := below + vars + [header];
    var i := |stk| - 1;
    assert stk[..i] == below + vars;
    assert stk[..i - |vars|] == below;
    assert forall j :: |below| <= j < i ==> stk[j] == vars[j - |below|];
  }

  lemma {:induction false} LaidOutIsAccepted(stk: seq<StackEntry>, bottom: seq<StackEntry>, fs: seq<Frame>)
    requires stk != [] && LaidOut(stk, bottom, fs)
    ensures Accepts(stk)
    decreases |fs|
  {
    if fs != [] {
      hide Accepts;
      var f := fs[|fs| - 1];
      var vars := seq(|f.vars|, j requires 0 <= j < |f.vars| => Value(f.vars[j]));
      var below := bottom + Layout(fs[..|fs| - 1]);
      assert GoodFrame(f);
      if below != [] { LaidOutIsAccepted(below, bottom, fs[..|fs| - 1]); }
      PushFrameAccepted(below, vars, f.header);
      assert stk == below + vars + [f.header];
    }
  }

  /** The validator accepts a stack exactly when it is a sequence of complete
      frames on top of at most one entry of any kind, which is never inspected. */
  lemma ValidatorChecksFramesAboveEntryZero(stk: seq<StackEntry>)
    ensures Accepts(stk) <==> stk != [] && exists bottom, fs :: LaidOut(stk, bottom, fs)
  {
    if Accepts(stk) {
      var bottom, fs := AcceptedIsLaidOut(stk);
    }
    if stk != [] && exists bottom, fs :: LaidOut(stk, bottom, fs) {
      var bottom, fs :| LaidOut(stk, bottom, fs);
      LaidOutIsAccepted(stk, bottom, fs);
    }
  }

  /** So it is weaker than the typing: a stray value below a divisors task
      passes, and no request has such a stack. */
  lemma ValidatorMissesEntryZero(v: StackValue, heap: Heap, req: Request)
    ensures var stk := [Value(v), State(DivisorsTaskBegin)]; Accepts(stk) && !Typed(req, Task(stk, heap))
  {
    var stk := [Value(v), State(DivisorsTaskBegin)];
    assert stk[..1] == [Value(v)];
  }

  // ----- Typed stacks pass ------------------------------------------------

  lemma {:induction false} FramesAccepted(base: seq<StackEntry>, n: u64, k: u64)
    requires FactorialFrames(base, n, k)
    ensures Accepts(base)
    decreases n - k
  {
    var m := |base|;
    if k == n {
      PushFrameAccepted([], [Value(FactorialInput(n))], Retrn(FactorialDone));
      assert base == [] + [Value(FactorialInput(n))] + [Retrn(FactorialDone)];
    } else {
      assert base[2 * (n - k)] == Value(FactorialArgument(k + 1));
      var below := base[..m - 2];
      FramesAccepted(below, n, k + 1);
      PushFrameAccepted(below, [Value(FactorialArgument(k + 1))], Retrn(FactorialRecursionPostRecursiveCall));
      assert base == below + [Value(FactorialArgument(k + 1))] + [Retrn(FactorialRecursionPostRecursiveCall)];
    }
  }

  lemma FactorialStackAccepted(n: u64, t: Task)
    requires Typed(FactorialRequest(n), t) && |t.stack| > 1
    ensures Accepts(t.stack)
  {
    hide Factorial, Accepts;
    var stk, m := t.stack, |t.stack|;
    var state := stk[m - 1].state;
    if state == FactorialRecursionPostRecursiveCall {
      var k: u64 :| AfterInnerCall(t, n, k);
      FramesAccepted(stk[..m - 3], n, k);
      PushFrameAccepted(stk[..m - 3], [stk[m - 3], stk[m - 2]], State(state));
      assert stk == stk[..m - 3] + [stk[m - 3], stk[m - 2]] + [State(state)];
    } else if state != FactorialEntry && state != FactorialDone {
      var k: u64 :| InFactorialCall(t, n, k);
      FramesAccepted(stk[..m - 2], n, k);
      PushFrameAccepted(stk[..m - 2], [stk[m - 2]], State(state));
      assert stk == stk[..m - 2] + [stk[m - 2]] + [State(state)];
    } else {
      PushFrameAccepted([], stk[..m - 1], State(state));
      assert stk == [] + stk[..m - 1] + [State(state)];
    }
  }

  /** Every well-typed stack passes, whatever the request and the state. */
  lemma TypedStackAccepted(req: Request, t: Task)
    requires Typed(req, t)
    ensures Accepts(t.stack)
  {
    var stk := t.stack;
    if |stk| > 1 {
      if req.FactorialRequest? {
        FactorialStackAccepted(req.n, t);
      } else {
        hide Accepts;
        PushFrameAccepted([], stk[..2], stk[2]);
        assert stk == [] + stk[..2] + [stk[2]];
      }
    }
  }

  /** Returning into a frame keeps any accepted stack accepted for the states
      whose frame grows by one when `Retrn` turns into `State`; both states the
      program returns to are of that kind. */
  lemma ReturnKeepsStackAccepted(rest: seq<StackEntry>, s: TaskState, v: StackValue)
    requires Accepts(rest + [Retrn(s)])
    requires |rest| >= 1
    requires LocalVarsCount(s) == ReturnLocalVarsCount(s) + 1
    ensures Accepts(rest + [Value(v), State(s)])
  {
    var before, after := rest + [Retrn(s)], rest + [Value(v), State(s)];
    var n := ReturnLocalVarsCount(s);
    assert before[..|rest|] == rest;
    assert TopAreValues(rest, n);
    assert after[..|rest| + 1] == rest + [Value(v)];
    assert TopAreValues(rest + [Value(v)], n + 1);
    assert before[..|rest| - n] == after[..|rest| - n];
  }

  /** For no other states: each of them breaks some stack. */
  lemma ReturnKeepsStacksAcceptedExactly(s: TaskState)
    ensures LocalVarsCount(s) == ReturnLocalVarsCount(s) + 1
       <==> forall rest: seq<StackEntry>, v: StackValue ::
              |rest| >= 1 && Accepts(rest + [Retrn(s)]) ==> Accepts(rest + [Value(v), State(s)])
  {
    if LocalVarsCount(s) == ReturnLocalVarsCount(s) + 1 {
      forall rest: seq<StackEntry>, v: StackValue | |rest| >= 1 && Accepts(rest + [Retrn(s)])
        ensures Accepts(rest + [Value(v), State(s)])
      {
        ReturnKeepsStackAccepted(rest, s, v);
      }
    } else {
      var c, v := State(DivisorsTaskBegin), DelayInputMs(0);
      ReturnBreaksStack(s, c, v);
      assert Accepts([c, c] + [Retrn(s)]) && !Accepts([c, c] + [Value(v), State(s)]);
    }
  }

  lemma ReturnBreaksStack(s: TaskState, c: StackEntry, v: StackValue)
    requires LocalVarsCount(s) != ReturnLocalVarsCount(s) + 1 && c == State(DivisorsTaskBegin)
    ensures Accepts([c, c] + [Retrn(s)]) && !Accepts([c, c] + [Value(v), State(s)])
  {
    var before, after := [c, c] + [Retrn(s)], [c, c] + [Value(v), State(s)];
    assert ReturnLocalVarsCount(s) == 0;
    assert before[..2] == [c, c];
    assert [c, c][..1] == [c] && Accepts([c]) && Accepts([c, c]);
    var below := [c, c, Value(v)];
    assert after[..3] == below;
    assert !AcceptsBelow(below) && !TopAreValues(below, 2) by { assert below[1] == c; }
  }

  lemma FrameReturnPoints(base: seq<StackEntry>, n: u64, k: u64, j: nat)
    requires FactorialFrames(base, n, k) && j < |base|
    ensures base[j].Value? || base[j] in {Retrn(FactorialDone), Retrn(FactorialRecursionPostRecursiveCall)}
  {
    var q := j / 2;
    if q >= 1 { assert base[2 * q].Value? && base[2 * q + 1] == Retrn(FactorialRecursionPostRecursiveCall); }
  }

  lemma ReturnPointsGrowByOne(n: u64, t: Task, j: nat)
    requires Typed(FactorialRequest(n), t) && j < |t.stack| && t.stack[j].Retrn?
    ensures LocalVarsCount(t.stack[j].state) == ReturnLocalVarsCount(t.stack[j].state) + 1
  {
    hide Factorial, FactorialFrames;
    var m := |t.stack|;
    var state := t.stack[m - 1].state;
    if state == FactorialRecursionPostRecursiveCall {
      var k: u64 :| AfterInnerCall(t, n, k);
      FrameReturnPoints(t.stack[..m - 3], n, k, j);
    } else if state in {FactorialRecursiveCall, FactorialRecursionPostWrite, FactorialRecursionPostSleep} {
      var k: u64 :| InFactorialCall(t, n, k);
      FrameReturnPoints(t.stack[..m - 2], n, k, j);
    }
  }
}
