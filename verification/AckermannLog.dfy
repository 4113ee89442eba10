/** The recursive Ackermann handler against the reference function: its result,
    the bound on everything it computes on the way, and the shape of its log. */
module AckermannLog {

  const I64_MAX: int := 0x7FFF_FFFF_FFFF_FFFF

  /** The reference implementation. */
  function Ackermann(m: nat, n: nat): nat
    decreases m, n
  {
    if m == 0 then n + 1
    else if n == 0 then Ackermann(m - 1, 1)
    else Ackermann(m - 1, Ackermann(m, n - 1))
  }

  /** "ack(m,n) ..." and "ack(m,n) = value", with their indentation. */
  datatype Line =
    | Opening(indent: nat, m: nat, n: nat)
    | Closing(indent: nat, m: nat, n: nat, value: nat)

  /** Returned is the value together with the lines written; Overflowed is the
      overflow panic of `n + 1`, with the lines written before it. */
  datatype Outcome =
    | Returned(value: nat, log: seq<Line>)
    | Overflowed(log: seq<Line>)

  function AsyncAck(m: nat, n: nat, indent: nat): Outcome
    decreases m, n
  {
    if m == 0 then
      if n + 1 > I64_MAX then Overflowed([]) else Returned(n + 1, [Closing(indent, m, n, n + 1)])
    else
      var opening := [Opening(indent, m, n)];
      if n == 0 then
        match AsyncAck(m - 1, 1, indent + 2)
        case Overflowed(log) => Overflowed(opening + log)
        case Returned(r, log) => Returned(r, opening + log + [Closing(indent, m, n, r)])
      else
        match AsyncAck(m, n - 1, indent + 2)
        case Overflowed(log) => Overflowed(opening + log)
        case Returned(inner, innerLog) =>
          match AsyncAck(m - 1, inner, indent + 2)
          case Overflowed(log) => Overflowed(opening + innerLog + log)
          case Returned(r, log) => Returned(r, opening + innerLog + log + [Closing(indent, m, n, r)])
  }

  lemma {:induction false} AckermannExceedsArgument(m: nat, n: nat)
    ensures Ackermann(m, n) > n
    decreases m, n
  {
    if m > 0 {
      if n == 0 {
        AckermannExceedsArgument(m - 1, 1);
      } else {
        AckermannExceedsArgument(m, n - 1);
        AckermannExceedsArgument(m - 1, Ackermann(m, n - 1));
      }
    }
  }

  lemma {:induction false} AckermannStrictlyMonotone(m: nat, j: nat, k: nat)
    requires j < k
    ensures Ackermann(m, j) < Ackermann(m, k)
    decreases k
  {
    if m > 0 { AckermannExceedsArgument(m - 1, Ackermann(m, k - 1)); }
    if j < k - 1 { AckermannStrictlyMonotone(m, j, k - 1); }
  }

  /** The handler returns the reference value exactly when it fits i64, and
      overflows exactly when it does not: no intermediate `n + 1` overflows
      unless the final one must. */
  lemma {:induction false} AsyncAckIsAckermann(m: nat, n: nat, indent: nat)
    ensures var o := AsyncAck(m, n, indent);
            if Ackermann(m, n) <= I64_MAX then o.Returned? && o.value == Ackermann(m, n) else o.Overflowed?
    decreases m, n
  {
    if m > 0 {
      if n == 0 {
        AsyncAckIsAckermann(m - 1, 1, indent + 2);
      } else {
        AsyncAckIsAckermann(m, n - 1, indent + 2);
        AsyncAckIsAckermann(m - 1, Ackermann(m, n - 1), indent + 2);
        AckermannStrictlyMonotone(m, n - 1, n);
      }
    }
  }

  // ----- One call, unfolded ----------------------------------------------

  /** The lines of the inner calls, in order. */
  function CallBody(m: nat, n: nat, indent: nat): seq<Line>
    requires m > 0
  {
    if n == 0 then AsyncAck(m - 1, 1, indent + 2).log
    else AsyncAck(m, n - 1, indent + 2).log + AsyncAck(m - 1, Ackermann(m, n - 1), indent + 2).log
  }

  function Wrapped(indent: nat, m: nat, n: nat, body: seq<Line>): seq<Line> {
    [Opening(indent, m, n)] + body + [Closing(indent, m, n, Ackermann(m, n))]
  }

  lemma AckermannUnfold(m: nat, n: nat)
    requires m > 0
    ensures Ackermann(m, n) == Ackermann(m - 1, if n == 0 then 1 else Ackermann(m, n - 1))
  {
  }

  lemma AsyncAckUnfold(m: nat, n: nat, indent: nat, inner: nat, innerLog: seq<Line>, r: nat, log: seq<Line>)
    requires m > 0 && AsyncAck(m - 1, inner, indent + 2) == Returned(r, log)
    requires if n == 0 then inner == 1 && innerLog == []
             else AsyncAck(m, n - 1, indent + 2) == Returned(inner, innerLog)
    ensures AsyncAck(m, n, indent)
         == Returned(r, [Opening(indent, m, n)] + (innerLog + log) + [Closing(indent, m, n, r)])
  {
    if n == 0 {
      assert innerLog + log == log;
    } else {
      assert [Opening(indent, m, n)] + innerLog + log == [Opening(indent, m, n)] + (innerLog + log);
    }
  }

  lemma LogIsWrappedBody(m: nat, n: nat, indent: nat)
    requires m > 0 && Ackermann(m, n) <= I64_MAX
    ensures AsyncAck(m, n, indent) == Returned(Ackermann(m, n), Wrapped(indent, m, n, CallBody(m, n, indent)))
    ensures n > 0 ==> Ackermann(m, n - 1) < Ackermann(m, n)
  {
    hide Ackermann, AsyncAck;
    AckermannUnfold(m, n);
    if n == 0 {
      AsyncAckIsAckermann(m - 1, 1, indent + 2);
      var o := AsyncAck(m - 1, 1, indent + 2);
      AsyncAckUnfold(m, n, indent, 1, [], o.value, o.log);
      assert [] + o.log == o.log;
    } else {
      AckermannStrictlyMonotone(m, n - 1, n);
      AsyncAckIsAckermann(m, n - 1, indent + 2);
      var i := AsyncAck(m, n - 1, indent + 2);
      AsyncAckIsAckermann(m - 1, i.value, indent + 2);
      var o := AsyncAck(m - 1, i.value, indent + 2);
      AsyncAckUnfold(m, n, indent, i.value, i.log, o.value, o.log);
    }
  }

  lemma {:induction false} BoundedIfItFits(m: nat, n: nat, indent: nat)
    requires Ackermann(m, n) <= I64_MAX
    ensures AsyncAck(m, n, indent).Returned?
    ensures forall l :: l in AsyncAck(m, n, indent).log && l.Closing? ==> l.value <= Ackermann(m, n)
    decreases m, n
  {
    if m > 0 {
      hide Ackermann, AsyncAck;
      LogIsWrappedBody(m, n, indent);
      AckermannUnfold(m, n);
      if n == 0 {
        BoundedIfItFits(m - 1, 1, indent + 2);
      } else {
        BoundedIfItFits(m, n - 1, indent + 2);
        BoundedIfItFits(m - 1, Ackermann(m, n - 1), indent + 2);
      }
    }
  }

  ghost predicate ValuesFit(log: seq<Line>) {
    forall l :: l in log && l.Closing? ==> l.value <= I64_MAX
  }

  lemma {:induction false} LoggedValuesFit(m: nat, n: nat, indent: nat)
    ensures ValuesFit(AsyncAck(m, n, indent).log)
    ensures AsyncAck(m, n, indent).Returned? ==> AsyncAck(m, n, indent).value <= I64_MAX
    decreases m, n
  {
    if m > 0 {
      hide ValuesFit;
      var opening := [Opening(indent, m, n)];
      NoValues(opening[0]);
      if n == 0 {
        LoggedValuesFit(m - 1, 1, indent + 2);
        FitTogether(opening, [], AsyncAck(m - 1, 1, indent + 2), indent, m, n);
        assert opening + [] == opening;
      } else {
        LoggedValuesFit(m, n - 1, indent + 2);
        var o := AsyncAck(m, n - 1, indent + 2);
        FitTogether(opening, [], o, indent, m, n);
        assert opening + [] == opening;
        if o.Returned? {
          LoggedValuesFit(m - 1, o.value, indent + 2);
          FitTogether(opening, o.log, AsyncAck(m - 1, o.value, indent + 2), indent, m, n);
        }
      }
    }
  }

  lemma NoValues(l: Line)
    requires l.Opening?
    ensures ValuesFit([l]) && ValuesFit([])
  {
  }

  lemma FitTogether(opening: seq<Line>, innerLog: seq<Line>, o: Outcome, indent: nat, m: nat, n: nat)
    requires ValuesFit(opening) && ValuesFit(innerLog) && ValuesFit(o.log) && (o.Returned? ==> o.value <= I64_MAX)
    ensures ValuesFit(opening + innerLog + o.log)
    ensures o.Returned? ==> ValuesFit(opening + innerLog + o.log + [Closing(indent, m, n, o.value)])
  {
  }

  /** Every value computed anywhere in the recursion is at most the result, and
      fits i64, even where the result itself does not and the call overflows. */
  lemma IntermediateValuesAreBounded(m: nat, n: nat, indent: nat)
    ensures forall l :: l in AsyncAck(m, n, indent).log && l.Closing? ==>
                          l.value <= Ackermann(m, n) && l.value <= I64_MAX
  {
    hide Ackermann, AsyncAck;
    LoggedValuesFit(m, n, indent);
    if Ackermann(m, n) <= I64_MAX { BoundedIfItFits(m, n, indent); }
  }

  /** Lines i and j bracket a call: same indentation, same arguments, the value
      of the function, and only deeper lines in between. */
  ghost predicate Brackets(log: seq<Line>, i: int, j: int) {
    && 0 <= i < j < |log|
    && log[i].Opening?
    && log[j] == Closing(log[i].indent, log[i].m, log[i].n, Ackermann(log[i].m, log[i].n))
    && forall l :: i < l < j ==> log[l].indent >= log[i].indent + 2
  }

  lemma ClosingIsUnique(log: seq<Line>, i: int, j: int, k: int)
    requires Brackets(log, i, j) && Brackets(log, i, k)
    ensures j == k
  {
  }

  /** An opening line is closed; a closing line states the value of the
      function and, unless it is a leaf (m = 0), closes an opening line. */
  ghost predicate LineInTree(log: seq<Line>, i: int)
    requires 0 <= i < |log|
  {
    var line := log[i];
    if line.Opening? then line.m > 0 && exists j :: Brackets(log, i, j)
    else line.value == Ackermann(line.m, line.n) && (line.m > 0 ==> exists j :: Brackets(log, j, i))
  }

  ghost predicate WellNested(log: seq<Line>) {
    forall i :: 0 <= i < |log| ==> LineInTree(log, i)
  }

  lemma BracketsShift(before: seq<Line>, log: seq<Line>, after: seq<Line>, i: int, j: int)
    requires Brackets(log, i, j)
    ensures Brackets(before + log + after, |before| + i, |before| + j)
  {
    var all := before + log + after;
    assert forall l :: 0 <= l < |log| ==> all[|before| + l] == log[l];
    forall l | |before| + i < l < |before| + j
      ensures all[l].indent >= all[|before| + i].indent + 2
    {
      assert all[l] == log[l - |before|];
    }
  }

  lemma LineInTreeShift(before: seq<Line>, log: seq<Line>, after: seq<Line>, i: int)
    requires 0 <= i < |log| && LineInTree(log, i)
    ensures LineInTree(before + log + after, |before| + i)
  {
    hide Ackermann, Brackets;
    var all := before + log + after;
    assert all[|before| + i] == log[i];
    if log[i].Opening? {
      var j :| Brackets(log, i, j);
      BracketsShift(before, log, after, i, j);
    } else if log[i].m > 0 {
      var j :| Brackets(log, j, i);
      BracketsShift(before, log, after, j, i);
    }
  }

  lemma WellNestedAppend(a: seq<Line>, b: seq<Line>)
    requires WellNested(a) && WellNested(b)
    ensures WellNested(a + b)
  {
    hide LineInTree;
    assert [] + a + b == a + b && a + b + [] == a + b;
    forall i | 0 <= i < |a + b|
      ensures LineInTree(a + b, i)
    {
      if i < |a| { LineInTreeShift([], a, b, i); } else { LineInTreeShift(a, b, [], i - |a|); }
    }
  }

  lemma WrapBrackets(indent: nat, m: nat, n: nat, body: seq<Line>)
    requires forall l :: l in body ==> l.indent >= indent + 2
    ensures Brackets(Wrapped(indent, m, n, body), 0, |body| + 1)
  {
    hide Ackermann;
    var log := Wrapped(indent, m, n, body);
    assert forall l :: 0 < l < |body| + 1 ==> log[l] == body[l - 1];
  }

  lemma WellNestedWrap(indent: nat, m: nat, n: nat, body: seq<Line>)
    requires m > 0 && WellNested(body) && forall l :: l in body ==> l.indent >= indent + 2
    ensures WellNested(Wrapped(indent, m, n, body))
  {
    hide Ackermann, Brackets;
    var log := Wrapped(indent, m, n, body);
    WrapBrackets(indent, m, n, body);
    forall i | 0 <= i < |log|
      ensures LineInTree(log, i)
    {
      if 0 < i < |log| - 1 {
        LineInTreeShift([Opening(indent, m, n)], body, [Closing(indent, m, n, Ackermann(m, n))], i - 1);
      }
    }
  }

  /** The log of a whole call: well nested, all at the call's indentation or
      deeper, and either the leaf's single line or bracketed by the opening and
      closing line of the call itself. */
  ghost predicate IsCallTree(log: seq<Line>, m: nat, n: nat, indent: nat) {
    && WellNested(log)
    && (forall l :: l in log ==> l.indent >= indent)
    && if m == 0 then log == [Closing(indent, m, n, n + 1)]
       else Brackets(log, 0, |log| - 1) && log[0] == Opening(indent, m, n)
  }

  lemma WrappedIsCallTree(m: nat, n: nat, indent: nat, body: seq<Line>)
    requires m > 0 && WellNested(body) && forall l :: l in body ==> l.indent >= indent + 2
    ensures IsCallTree(Wrapped(indent, m, n, body), m, n, indent)
  {
    hide Ackermann, WellNested, Brackets;
    WellNestedWrap(indent, m, n, body);
    WrapBrackets(indent, m, n, body);
  }

  lemma {:induction false} LogIsWellNestedTree(m: nat, n: nat, indent: nat)
    requires Ackermann(m, n) <= I64_MAX
    ensures AsyncAck(m, n, indent).Returned? && IsCallTree(AsyncAck(m, n, indent).log, m, n, indent)
    decreases m, n
  {
    hide Ackermann, AsyncAck, Wrapped, IsCallTree, CallBody;
    if m == 0 {
      LeafIsCallTree(n, indent);
    } else {
      AckermannUnfold(m, n);
      LogIsWrappedBody(m, n, indent);
      if n == 0 {
        LogIsWellNestedTree(m - 1, 1, indent + 2);
      } else {
        LogIsWellNestedTree(m, n - 1, indent + 2);
        LogIsWellNestedTree(m - 1, Ackermann(m, n - 1), indent + 2);
      }
      BodyIsNested(m, n, indent);
      WrappedIsCallTree(m, n, indent, CallBody(m, n, indent));
    }
  }

  lemma BodyIsNested(m: nat, n: nat, indent: nat)
    requires m > 0
    requires n == 0 ==> IsCallTree(AsyncAck(m - 1, 1, indent + 2).log, m - 1, 1, indent + 2)
    requires n > 0 ==> IsCallTree(AsyncAck(m, n - 1, indent + 2).log, m, n - 1, indent + 2)
    requires n > 0 ==>
               IsCallTree(AsyncAck(m - 1, Ackermann(m, n - 1), indent + 2).log, m - 1, Ackermann(m, n - 1), indent + 2)
    ensures WellNested(CallBody(m, n, indent)) && forall l :: l in CallBody(m, n, indent) ==> l.indent >= indent + 2
  {
    hide Ackermann, AsyncAck, WellNested, Brackets;
    if n > 0 {
      WellNestedAppend(AsyncAck(m, n - 1, indent + 2).log, AsyncAck(m - 1, Ackermann(m, n - 1), indent + 2).log);
    }
  }

  lemma LeafIsCallTree(n: nat, indent: nat)
    requires Ackermann(0, n) <= I64_MAX
    ensures AsyncAck(0, n, indent).Returned? && IsCallTree(AsyncAck(0, n, indent).log, 0, n, indent)
  {
    LeafIsWellNested(n, indent);
    hide WellNested;
  }

  lemma LeafIsWellNested(n: nat, indent: nat)
    ensures WellNested([Closing(indent, 0, n, n + 1)])
  {
  }

  // ----- The log line by line ------------------------------------------------

  /** The first line of the call (m, n) at this indentation. */
  predicate Starts(l: Line, indent: nat, m: nat, n: nat) {
    if m == 0 then l == Closing(indent, 0, n, n + 1) else l == Opening(indent, m, n)
  }

  /** After the beginning of (m, n) comes its first inner call, (m-1, 1) or
      (m, n-1). After the end of a call with value v comes either the second
      inner call of its caller, (m-1, v), or the end of its caller, with v. */
  predicate MayFollow(l: Line, next: Line) {
    match l
    case Opening(d, m, n) => m > 0 && (if n == 0 then Starts(next, d + 2, m - 1, 1) else Starts(next, d + 2, m, n - 1))
    case Closing(d, m, n, v) =>
      || (m > 0 && Starts(next, d, m - 1, v))
      || (next.Closing? && next.indent + 2 == d && next.value == v)
  }

  ghost predicate Steps(log: seq<Line>) {
    forall i :: 0 <= i < |log| - 1 ==> MayFollow(log[i], log[i + 1])
  }

  lemma StepsAppend(a: seq<Line>, b: seq<Line>)
    requires Steps(a) && Steps(b) && (a != [] && b != [] ==> MayFollow(a[|a| - 1], b[0]))
    ensures Steps(a + b)
  {
    hide MayFollow;
    var all := a + b;
    forall i | 0 <= i < |all| - 1
      ensures MayFollow(all[i], all[i + 1])
    {
      if i >= |a| { assert MayFollow(b[i - |a|], b[i - |a| + 1]); }
    }
  }

  /** How the log of a call begins and ends. */
  ghost predicate Framed(o: Outcome, m: nat, n: nat, indent: nat) {
    && Steps(o.log)
    && (o.log != [] ==> Starts(o.log[0], indent, m, n))
    && (o.Returned? ==> o.log != [] && o.log[|o.log| - 1] == Closing(indent, m, n, o.value))
  }

  /** A call whose only inner call is this one. */
  lemma FramedByOne(m: nat, indent: nat, o: Outcome)
    requires m > 0 && Framed(o, m - 1, 1, indent + 2)
    ensures var opening := [Opening(indent, m, 0)];
            && Framed(Overflowed(opening + o.log), m, 0, indent)
            && (o.Returned? ==>
                  Framed(Returned(o.value, opening + o.log + [Closing(indent, m, 0, o.value)]), m, 0, indent))
  {
    var opening := [Opening(indent, m, 0)];
    StepsAppend(opening, o.log);
    if o.Returned? {
      StepsAppend(opening + o.log, [Closing(indent, m, 0, o.value)]);
      assert (opening + o.log)[0] == opening[0];
    }
  }

  lemma FramedByFirst(m: nat, n: nat, indent: nat, first: Outcome)
    requires m > 0 && n > 0 && Framed(first, m, n - 1, indent + 2)
    ensures Framed(Overflowed([Opening(indent, m, n)] + first.log), m, n, indent)
  {
    StepsAppend([Opening(indent, m, n)], first.log);
  }

  lemma FramedByTwo(m: nat, n: nat, indent: nat, first: Outcome, second: Outcome)
    requires m > 0 && n > 0 && first.Returned? && Framed(first, m, n - 1, indent + 2)
    requires Framed(second, m - 1, first.value, indent + 2)
    ensures var opening := [Opening(indent, m, n)];
            && Framed(Overflowed(opening + first.log + second.log), m, n, indent)
            && (second.Returned? ==>
                  var log := opening + first.log + second.log + [Closing(indent, m, n, second.value)];
                  Framed(Returned(second.value, log), m, n, indent))
  {
    var opening := [Opening(indent, m, n)];
    var begun := opening + first.log;
    StepsAppend(opening, first.log);
    assert begun[|begun| - 1] == first.log[|first.log| - 1] && begun[0] == opening[0];
    hide Steps;
    StepsAppend(begun, second.log);
    if second.Returned? {
      var inner := begun + second.log;
      assert inner[|inner| - 1] == second.log[|second.log| - 1] && inner[0] == begun[0];
      OneLine(Closing(indent, m, n, second.value));
      StepsAppend(inner, [Closing(indent, m, n, second.value)]);
    }
  }

  lemma OneLine(l: Line)
    ensures Steps([l])
  {
  }

  lemma {:induction false} LogIsFramed(m: nat, n: nat, indent: nat)
    ensures Framed(AsyncAck(m, n, indent), m, n, indent)
    decreases m, n
  {
    hide Framed;
    if m == 0 {
      LeafIsFramed(n, indent);
    } else if n == 0 {
      LogIsFramed(m - 1, 1, indent + 2);
      FramedByOne(m, indent, AsyncAck(m - 1, 1, indent + 2));
    } else {
      var first := AsyncAck(m, n - 1, indent + 2);
      LogIsFramed(m, n - 1, indent + 2);
      FramedByFirst(m, n, indent, first);
      if first.Returned? {
        LogIsFramed(m - 1, first.value, indent + 2);
        FramedByTwo(m, n, indent, first, AsyncAck(m - 1, first.value, indent + 2));
      }
    }
  }

  lemma LeafIsFramed(n: nat, indent: nat)
    ensures Framed(AsyncAck(0, n, indent), 0, n, indent)
  {
  }

  /** Whether the call returns or overflows, its log begins with its own first
      line, each line is followed by what the recursion does next, and it ends
      with its own last line if it returns. */
  lemma LogFollowsTheRecursion(m: nat, n: nat, indent: nat)
    ensures var o := AsyncAck(m, n, indent);
            && (forall i :: 0 <= i < |o.log| - 1 ==> MayFollow(o.log[i], o.log[i + 1]))
            && (o.log != [] ==> Starts(o.log[0], indent, m, n))
            && (o.Returned? ==> o.log != [] && o.log[|o.log| - 1] == Closing(indent, m, n, o.value))
  {
    hide AsyncAck;
    LogIsFramed(m, n, indent);
  }
}
