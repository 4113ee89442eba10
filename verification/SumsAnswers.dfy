/** What the `/sums` handler answers, exactly: the answer of a client is fixed
    by its request, the kind of build and the response its check was given, and
    that response is the one the worker served, unless the worker stopped before
    it could answer. */
module SumsAnswers {
  import opened SumsDatabase
  import opened SumsProtocol

  /** The answer that goes with a request and what the client was told. */
  predicate AnswerFits(checked: bool, req: SumRequest, told: Option<Response>, answer: HttpAnswer) {
    var sumFits := -0x8000_0000 <= req.a + req.b < 0x8000_0000;
    var sumIsRight := (req.a + req.b - req.c) % 0x1_0000_0000 == 0;
    && (answer == EmptyId <==> req.id == "")
    && (answer == Conflict <==> req.id != "" && told == Some(Duplicate))
    && (answer == OK <==> req.id != "" && told == Some(Unique) && sumIsRight && (checked ==> sumFits))
    && (answer == WrongSum <==> req.id != "" && told == Some(Unique) && !sumIsRight && (checked ==> sumFits))
    && (answer == HandlerPanicked <==> req.id != "" && told == Some(Unique) && checked && !sumFits)
    && (answer == InternalError <==> req.id != "" && (told == None || told == Some(Error)))
  }

  /** How a client's stage goes with what it was told. */
  predicate LocalAgrees(checked: bool, client: Client) {
    match client.stage
    case Arrived => client.told == None
    case AwaitingCheck => client.told == None && client.req.id != ""
    case Checked(r) => client.told == Some(r) && r in {Unique, Duplicate, Error} && client.req.id != ""
    case AwaitingAdd => client.told == Some(Unique) && client.req.id != "" && RightSum(checked, client.req)
    case Answered(a) => AnswerFits(checked, client.req, client.told, a)
    case Dropped => true
  }

  lemma RightSumInNumbers(checked: bool, req: SumRequest)
    ensures RightSum(checked, req) <==>
              (req.a + req.b - req.c) % 0x1_0000_0000 == 0 && (checked ==> -0x8000_0000 <= req.a + req.b < 0x8000_0000)
    ensures req.c == WrapI32(req.a + req.b) <==> (req.a + req.b - req.c) % 0x1_0000_0000 == 0
    ensures FitsI32(req.a + req.b) <==> -0x8000_0000 <= req.a + req.b < 0x8000_0000
  {
  }

  ghost predicate AllLocal(s: System) {
    forall c :: c in s.clients ==> LocalAgrees(s.checked, s.clients[c])
  }

  lemma CheckIsAnswered(db: Db, id: string)
    ensures Handle(db, CheckAndStoreId(id)).1 in {Unique, Duplicate}
  {
  }

  lemma DeliverIsLocal(s: System, m: Message, response: Response, c: nat)
    requires AllLocal(s) && c in s.clients && (m.req.CheckAndStoreId? ==> response in {Unique, Duplicate, Error})
    ensures c in Deliver(s.clients, m, response) && LocalAgrees(s.checked, Deliver(s.clients, m, response)[c])
  {
    var client := s.clients[c];
    assert LocalAgrees(s.checked, client);
    RightSumInNumbers(s.checked, client.req);
    hide RightSum;
  }

  lemma GiveUpIsLocal(checked: bool, client: Client)
    requires LocalAgrees(checked, client)
    ensures LocalAgrees(checked, GiveUp(client)) && LocalAgrees(checked, client.(stage := Forget(client.stage)))
  {
    RightSumInNumbers(checked, client.req);
    hide RightSum;
  }

  /** The handler goes on with an answer, or sends its entry. */
  lemma ContinueCases(s: System, c: nat, timestampUs: nat, s': System)
    requires c in s.clients && s.clients[c].stage.Checked? && ContinueStep(s, c, timestampUs, s')
    ensures c in s'.clients
    ensures var req, stage := s.clients[c].req, s'.clients[c].stage;
            var quiet := s.(clients := SetStage(s, c, stage));
            || (stage.Answered? && s' == quiet)
            || (stage == AwaitingAdd
                && s' == Send(quiet, Message(Some(c), AddToJournal(Entry(req.id, req.a, req.b, req.c, timestampUs)))))
  {
    hide WrapI32, FitsI32;
  }

  /** The answer of each case. */
  lemma ContinueAnswers(s: System, c: nat, timestampUs: nat, s': System)
    requires c in s.clients && s.clients[c].stage.Checked? && LocalAgrees(s.checked, s.clients[c])
    requires ContinueStep(s, c, timestampUs, s') && c in s'.clients && s'.clients[c].stage.Answered?
    ensures AnswerFits(s.checked, s.clients[c].req, s.clients[c].told, s'.clients[c].stage.answer)
  {
    RightSumInNumbers(s.checked, s.clients[c].req);
    hide WrapI32, FitsI32;
  }

  lemma ContinueSendsRightSum(s: System, c: nat, timestampUs: nat, s': System)
    requires c in s.clients && s.clients[c].stage.Checked? && LocalAgrees(s.checked, s.clients[c])
    requires ContinueStep(s, c, timestampUs, s') && c in s'.clients && !s'.clients[c].stage.Answered?
    ensures s.clients[c].told == Some(Unique) && s.clients[c].req.id != "" && RightSum(s.checked, s.clients[c].req)
  {
    hide WrapI32, FitsI32;
  }

  lemma ContinueIsLocal(s: System, c: nat, timestampUs: nat, s': System)
    requires c in s.clients && s.clients[c].stage.Checked? && LocalAgrees(s.checked, s.clients[c])
    requires ContinueStep(s, c, timestampUs, s')
    ensures s'.checked == s.checked && s'.clients.Keys == s.clients.Keys && LocalAgrees(s.checked, s'.clients[c])
    ensures forall x :: x in s.clients && x != c ==> s'.clients[x] == s.clients[x]
  {
    ContinueCases(s, c, timestampUs, s');
    if s'.clients[c].stage.Answered? {
      ContinueAnswers(s, c, timestampUs, s');
    } else {
      ContinueSendsRightSum(s, c, timestampUs, s');
    }
    hide ContinueStep, AnswerFits, RightSum;
  }

  lemma NextIsLocal(s: System, a: Action, s': System)
    requires AllLocal(s) && Next(s, a, s')
    ensures AllLocal(s')
  {
    match a
    case Continue(c, timestampUs) =>
      hide ContinueStep, LocalAgrees;
      ContinueIsLocal(s, c, timestampUs, s');
    case Serve(fails) =>
      var m := s.queue[0];
      var response := if fails then Error else Handle(s.db, m.req).1;
      if m.req.CheckAndStoreId? { CheckIsAnswered(s.db, m.req.id); }
      hide Handle, LocalAgrees, Deliver;
      forall c | c in s'.clients
        ensures LocalAgrees(s'.checked, s'.clients[c])
      {
        DeliverKeepsClients(s.clients, m, response);
        DeliverIsLocal(s, m, response, c);
      }
    case Stop(midway) => AllGiveUp(s, s');
    case Restart => AllGiveUp(s, s');
    case _ =>
  }

  lemma AllGiveUp(s: System, s': System)
    requires AllLocal(s) && s'.checked == s.checked && s'.clients.Keys == s.clients.Keys
    requires (forall c :: c in s.clients ==> s'.clients[c] == GiveUp(s.clients[c]))
          || (forall c :: c in s.clients ==> s'.clients[c] == s.clients[c].(stage := Forget(s.clients[c].stage)))
    ensures AllLocal(s')
  {
    hide LocalAgrees, GiveUp, Forget;
    forall c | c in s'.clients
      ensures LocalAgrees(s'.checked, s'.clients[c])
    {
      GiveUpIsLocal(s.checked, s.clients[c]);
    }
  }

  // ----- The messages of a client, and what was served --------------------

  /** A client that ever sent a message has an id and is past its arrival. */
  ghost predicate Sender(s: System, m: Message) {
    m.from.Some? ==> var c := m.from.value; c in s.clients && s.clients[c].req.id != "" && s.clients[c].stage != Arrived
  }

  /** A check that is queued is still waited for, unless its client is gone. */
  ghost predicate Awaited(s: System, m: Message) {
    m.from.Some? && m.req.CheckAndStoreId? ==>
      m.from.value in s.clients && s.clients[m.from.value].stage in {AwaitingCheck, Dropped}
  }

  /** The response of a served check has reached its client, unless the client
      is gone, or the worker stopped and the client was given an error. */
  ghost predicate Reached(s: System, sv: Served) {
    sv.message.from.Some? && sv.message.req.CheckAndStoreId? ==>
      && sv.message.from.value in s.clients
      && var client := s.clients[sv.message.from.value];
         client.told == Some(sv.response) || client.stage == Dropped || (s.stopped && client.told == Some(Error))
  }

  /** What a client was told, other than an error, was served to it. */
  ghost predicate ToldIsServed(s: System, c: nat)
    requires c in s.clients
  {
    var told := s.clients[c].told;
    told.Some? && told.value != Error ==> WasTold(s, c, told.value)
  }

  ghost predicate AnswersInv(s: System) {
    && AllLocal(s)
    && (forall m :: m in s.past.all ==> Sender(s, m))
    && (forall m :: m in s.queue ==> Awaited(s, m))
    && (forall sv :: sv in s.served ==> Reached(s, sv))
    && (forall c :: c in s.clients ==> ToldIsServed(s, c))
  }

  /** Clients that move on without sending, being told, or being served anything. */
  ghost predicate Quiet(s: System, s': System) {
    && s'.past == s.past && s'.queue == s.queue && s'.served == s.served && s'.stopped == s.stopped
    && s.clients.Keys <= s'.clients.Keys
    && (forall c :: c in s.clients ==>
          && s'.clients[c].req == s.clients[c].req && s'.clients[c].told == s.clients[c].told
          && (s'.clients[c].stage == s.clients[c].stage
              || (&& s'.clients[c].stage != Arrived && s.clients[c].stage != Dropped
                  && (s.clients[c].stage != AwaitingCheck || s'.clients[c].stage == Dropped))))
    && (forall c :: c in s'.clients && c !in s.clients ==> s'.clients[c].told == None)
  }

  lemma QuietKeeps(s: System, s': System)
    requires AnswersInv(s) && AllLocal(s') && Quiet(s, s')
    ensures AnswersInv(s')
  {
    hide AllLocal;
    forall m | m in s'.past.all
      ensures Sender(s', m)
    {
      assert Sender(s, m);
    }
    forall m | m in s'.queue
      ensures Awaited(s', m)
    {
      assert Awaited(s, m);
    }
    forall sv | sv in s'.served
      ensures Reached(s', sv)
    {
      assert Reached(s, sv);
    }
    forall c | c in s'.clients
      ensures ToldIsServed(s', c)
    {
      if c in s.clients { assert ToldIsServed(s, c); }
    }
  }

  /** A message is sent by a client that waits for it. */
  lemma SendKeeps(s: System, m: Message, s': System)
    requires AnswersInv(s) && AllLocal(s') && s' == Send(s.(clients := s'.clients), m)
    requires Quiet(s, s.(clients := s'.clients))
          || (&& m.req.CheckAndStoreId? && m.from.Some? && m.from.value in s.clients
              && s.clients[m.from.value].stage == Arrived
              && s'.clients == SetStage(s, m.from.value, AwaitingCheck))
    requires Sender(s', m) && Awaited(s', m)
    ensures AnswersInv(s')
  {
    hide AllLocal;
    forall k | k in s'.past.all
      ensures Sender(s', k)
    {
      if k != m { assert k in s.past.all && Sender(s, k); }
    }
    forall k | k in s'.queue
      ensures Awaited(s', k)
    {
      if k != m { assert k in s.queue && Awaited(s, k); }
    }
    forall sv | sv in s'.served
      ensures Reached(s', sv)
    {
      assert Reached(s, sv);
    }
    forall c | c in s'.clients
      ensures ToldIsServed(s', c)
    {
      if c in s.clients { assert ToldIsServed(s, c); }
    }
  }

  lemma SameButClients(s: System, c: nat, stage: Stage, s': System)
    requires AnswersInv(s) && AllLocal(s') && c in s.clients && s' == s.(clients := SetStage(s, c, stage))
    requires stage != Arrived && s.clients[c].stage != AwaitingCheck && s.clients[c].stage != Dropped
    ensures AnswersInv(s')
  {
    hide AllLocal, AnswersInv;
    QuietKeeps(s, s');
  }

  lemma CheckKeeps(s: System, c: nat, s': System)
    requires AnswersInv(s) && AllLocal(s') && Next(s, Check(c), s')
    ensures AnswersInv(s')
  {
    hide AllLocal, AnswersInv;
    var req := s.clients[c].req;
    if req.id == "" {
      SameButClients(s, c, Answered(EmptyId), s');
    } else if !s.alive {
      SameButClients(s, c, Answered(InternalError), s');
    } else {
      SendKeeps(s, Message(Some(c), CheckAndStoreId(req.id)), s');
    }
  }

  lemma ContinueKeeps(s: System, c: nat, timestampUs: nat, s': System)
    requires AnswersInv(s) && AllLocal(s') && Next(s, Continue(c, timestampUs), s')
    ensures AnswersInv(s')
  {
    assert LocalAgrees(s.checked, s.clients[c]);
    ContinueCases(s, c, timestampUs, s');
    hide AnswersInv, AllLocal, Next;
    var req, stage := s.clients[c].req, s'.clients[c].stage;
    if stage.Answered? {
      SameButClients(s, c, stage, s');
    } else {
      SendKeeps(s, Message(Some(c), AddToJournal(Entry(req.id, req.a, req.b, req.c, timestampUs))), s');
    }
  }

  lemma ReadKeeps(s: System, n: nat, s': System)
    requires AnswersInv(s) && Next(s, Read(n), s')
    ensures AnswersInv(s')
  {
    assert AllLocal(s');
    hide AnswersInv, AllLocal;
    SendKeeps(s, Message(None, GetJournal(n)), s');
  }

  /** Serving: the check served is the only one of its client. */
  lemma ServeKeeps(s: System, fails: bool, s': System)
    requires Inv(s) && AnswersInv(s) && AllLocal(s') && Next(s, Serve(fails), s')
    ensures AnswersInv(s')
  {
    var m := s.queue[0];
    var response := s'.served[|s.served|].response;
    OneCheckEach(s);
    HeadIsSent(s);
    hide Handle, AllLocal, Inv;
    assert s'.clients == Deliver(s.clients, m, response) && s'.served == s.served + [Served(m, response)];
    forall k | k in s'.past.all
      ensures Sender(s', k)
    {
      assert Sender(s, k);
    }
    forall k | k in s'.queue
      ensures Awaited(s', k)
    {
      var i :| 0 <= i < |s'.queue| && s'.queue[i] == k;
      assert s.queue[i + 1] == k && Awaited(s, k);
    }
    forall sv | sv in s'.served
      ensures Reached(s', sv)
    {
      if sv in s.served { DeliverKeepsReached(s, m, response, s', sv); } else { assert Awaited(s, m); }
    }
    forall c | c in s'.clients
      ensures ToldIsServed(s', c)
    {
      DeliverKeepsTold(s, m, response, s', c);
    }
  }

  lemma HeadIsSent(s: System)
    requires Inv(s) && s.queue != []
    ensures s.queue[0] in s.sent && OwnMessage(s, s.queue[0])
  {
    assert s.sent[|Messages(s.served)|] == s.queue[0];
  }

  lemma DeliverKeepsReached(s: System, m: Message, response: Response, s': System, sv: Served)
    requires Reached(s, sv) && s'.clients == Deliver(s.clients, m, response) && s'.stopped == s.stopped
    requires sv.message.from.Some? && sv.message.req.CheckAndStoreId? && m.req.CheckAndStoreId? ==>
               sv.message.from != m.from
    ensures Reached(s', sv)
  {
  }

  lemma DeliverKeepsTold(s: System, m: Message, response: Response, s': System, c: nat)
    requires c in s.clients && ToldIsServed(s, c) && OwnMessage(s, m)
    requires s'.clients == Deliver(s.clients, m, response) && s'.served == s.served + [Served(m, response)]
    ensures c in s'.clients && ToldIsServed(s', c)
  {
    assert s'.served[|s.served|] == Served(m, response);
    var told := s.clients[c].told;
    if told.Some? && WasTold(s, c, told.value) { ToldGrows(s, s', c, told.value); }
  }

  lemma ToldGrows(s: System, s': System, c: nat, response: Response)
    requires c in s.clients && c in s'.clients && s'.clients[c].req == s.clients[c].req && s.served <= s'.served
    requires WasTold(s, c, response)
    ensures WasTold(s', c, response)
  {
    var check := Message(Some(c), CheckAndStoreId(s.clients[c].req.id));
    var i :| 0 <= i < |s.served| && s.served[i] == Served(check, response);
    assert s'.served[i] == s.served[i];
  }

  /** No other check of the client whose check is next, served or queued. */
  lemma OneCheckEach(s: System)
    requires Inv(s) && s.queue != []
    ensures var m := s.queue[0];
            m.from.Some? && m.req.CheckAndStoreId? ==>
              && (forall sv :: sv in s.served && sv.message.req.CheckAndStoreId? ==> sv.message.from != m.from)
              && (forall i :: 0 < i < |s.queue| && s.queue[i].req.CheckAndStoreId? ==> s.queue[i].from != m.from)
  {
    hide Replay, Consistent, OwnMessage, Justified, StageAgrees;
    var n := |s.served|;
    assert forall i :: 0 <= i < n ==> s.sent[i] == s.served[i].message;
    assert forall i :: 0 <= i < |s.queue| ==> s.sent[n + i] == s.queue[i];
    forall sv | && sv in s.served && sv.message.req.CheckAndStoreId?
                && s.queue[0].from.Some? && s.queue[0].req.CheckAndStoreId?
      ensures sv.message.from != s.queue[0].from
    {
      var i :| 0 <= i < n && s.served[i] == sv;
      assert s.sent[i] == sv.message && s.sent[n] == s.queue[0];
    }
    forall i | && 0 < i < |s.queue| && s.queue[i].req.CheckAndStoreId?
               && s.queue[0].from.Some? && s.queue[0].req.CheckAndStoreId?
      ensures s.queue[i].from != s.queue[0].from
    {
      assert s.sent[n] == s.queue[0] && s.sent[n + i] == s.queue[i];
    }
  }

  /** The end of the worker, or of the process. */
  lemma LossKeeps(s: System, s': System)
    requires AnswersInv(s) && AllLocal(s') && s'.queue == [] && s'.past.all == s.past.all
    requires s.served <= s'.served && s'.clients.Keys == s.clients.Keys && (s.stopped ==> s'.stopped)
    requires forall c :: c in s.clients ==>
               || (s'.stopped && s'.clients[c] == GiveUp(s.clients[c]))
               || s'.clients[c] == s.clients[c].(stage := Forget(s.clients[c].stage))
    requires forall sv :: sv in s'.served && sv !in s.served ==> s'.stopped && Reached(s', sv)
    ensures AnswersInv(s')
  {
    hide AllLocal;
    forall m | m in s'.past.all
      ensures Sender(s', m)
    {
      assert Sender(s, m);
    }
    forall sv | sv in s'.served
      ensures Reached(s', sv)
    {
      if sv in s.served { LossKeepsReached(s, s', sv); }
    }
    forall c | c in s'.clients
      ensures ToldIsServed(s', c)
    {
      assert ToldIsServed(s, c);
      var told := s.clients[c].told;
      if told.Some? && told.value != Error { ToldGrows(s, s', c, told.value); }
    }
  }

  lemma LossKeepsReached(s: System, s': System, sv: Served)
    requires AllLocal(s) && Reached(s, sv) && s'.clients.Keys == s.clients.Keys && (s.stopped ==> s'.stopped)
    requires forall c :: c in s.clients ==>
               || (s'.stopped && s'.clients[c] == GiveUp(s.clients[c]))
               || s'.clients[c] == s.clients[c].(stage := Forget(s.clients[c].stage))
    ensures Reached(s', sv)
  {
    if sv.message.from.Some? && sv.message.req.CheckAndStoreId? {
      assert LocalAgrees(s.checked, s.clients[sv.message.from.value]);
    }
  }

  lemma StopKeeps(s: System, midway: bool, s': System)
    requires Inv(s) && AnswersInv(s) && AllLocal(s') && Next(s, Stop(midway), s')
    ensures AnswersInv(s')
  {
    if midway {
      var m := s.queue[0];
      assert Awaited(s, m);
      if m.from.Some? { assert m.from.value in s.clients by { HeadIsSent(s); } }
      if m.from.Some? && m.req.CheckAndStoreId? { assert LocalAgrees(s.checked, s.clients[m.from.value]); }
    }
    hide Handle, Inv, AllLocal, LocalAgrees;
    assert forall sv :: sv in s'.served && sv !in s.served ==> Reached(s', sv);
    hide AnswersInv, Reached;
    LossKeeps(s, s');
  }

  lemma NextKeepsAnswers(s: System, a: Action, s': System)
    requires Inv(s) && AnswersInv(s) && Next(s, a, s')
    ensures AnswersInv(s')
  {
    assert AllLocal(s);
    hide Inv, AnswersInv, AllLocal;
    NextIsLocal(s, a, s');
    match a
    case Check(c) => hide Next; CheckKeeps(s, c, s');
    case Read(n) => hide Next; ReadKeeps(s, n, s');
    case Continue(c, timestampUs) => hide Next; ContinueKeeps(s, c, timestampUs, s');
    case Serve(fails) => hide Next; ServeKeeps(s, fails, s');
    case Stop(midway) => hide Next; StopKeeps(s, midway, s');
    case Restart => hide Next; RestartKeeps(s, s');
    case Arrive(c, req) => hide Next; ArriveKeeps(s, c, req, s');
    case Drop(c) => hide Next; DropKeeps(s, c, s');
  }

  lemma RestartKeeps(s: System, s': System)
    requires AnswersInv(s) && AllLocal(s') && Next(s, Restart, s')
    ensures AnswersInv(s')
  {
    hide AnswersInv, AllLocal, Reached;
    LossKeeps(s, s');
  }

  lemma ArriveKeeps(s: System, c: nat, req: SumRequest, s': System)
    requires AnswersInv(s) && AllLocal(s') && Next(s, Arrive(c, req), s')
    ensures AnswersInv(s')
  {
    hide AnswersInv, AllLocal;
    QuietKeeps(s, s');
  }

  lemma DropKeeps(s: System, c: nat, s': System)
    requires AnswersInv(s) && AllLocal(s') && Next(s, Drop(c), s')
    ensures AnswersInv(s')
  {
    hide AnswersInv, AllLocal;
    QuietKeeps(s, s');
  }

  lemma {:induction false} RunKeepsAnswers(states: seq<System>, acts: seq<Action>, i: nat)
    requires IsRun(states, acts) && i < |states|
    ensures AnswersInv(states[i]) && states[i].checked == states[0].checked
  {
    hide Next;
    if i > 0 {
      hide Inv, AnswersInv;
      RunKeepsAnswers(states, acts, i - 1);
      RunKeepsInv(states, acts, i - 1);
      assert Next(states[i - 1], acts[i - 1], states[i - 1 + 1]);
      NextKeepsAnswers(states[i - 1], acts[i - 1], states[i]);
      SameBuild(states[i - 1], acts[i - 1], states[i]);
    }
  }

  lemma SameBuild(s: System, a: Action, s': System)
    requires Next(s, a, s')
    ensures s'.checked == s.checked
  {
    hide Handle, Deliver, WrapI32, FitsI32;
  }

  // ----- The answers ------------------------------------------------------

  /** Every client that is answered gets exactly the answer of its case: an
      empty id, told the id is a duplicate, told it is unique with a right sum,
      a wrong one, or one that overflows in a build that checks; and an error
      for anything else. With an empty id it has never sent anything. */
  lemma AnswersAreExact(states: seq<System>, acts: seq<Action>, i: nat, c: nat)
    requires IsRun(states, acts) && i < |states| && c in states[i].clients && states[i].clients[c].stage.Answered?
    ensures var client, checked := states[i].clients[c], states[0].checked;
            var id, told, answer := client.req.id, client.told, client.stage.answer;
            var fits := -0x8000_0000 <= client.req.a + client.req.b < 0x8000_0000;
            var right := (client.req.a + client.req.b - client.req.c) % 0x1_0000_0000 == 0;
            && (answer == EmptyId <==> id == "")
            && (answer == Conflict <==> id != "" && told == Some(Duplicate))
            && (answer == OK <==> id != "" && told == Some(Unique) && right && (checked ==> fits))
            && (answer == WrongSum <==> id != "" && told == Some(Unique) && !right && (checked ==> fits))
            && (answer == HandlerPanicked <==> id != "" && told == Some(Unique) && checked && !fits)
            && (answer == InternalError <==> id != "" && (told == None || told == Some(Error)))
    ensures states[i].clients[c].req.id == "" ==> forall m :: m in states[i].past.all ==> m.from != Some(c)
  {
    hide Next, Reached, Awaited;
    RunKeepsAnswers(states, acts, i);
    assert LocalAgrees(states[i].checked, states[i].clients[c]);
  }

  /** What a client was told is what its check was served with; and a check that
      was served has told its client so, unless the client is gone, or the
      worker stopped before it could answer. */
  lemma ToldIsWhatWasServed(states: seq<System>, acts: seq<Action>, i: nat, c: nat, response: Response)
    requires IsRun(states, acts) && i < |states| && c in states[i].clients
    ensures var s := states[i]; var client := s.clients[c];
            var served := Served(Message(Some(c), CheckAndStoreId(client.req.id)), response) in s.served;
            && (client.told == Some(response) && response != Error ==> served)
            && (served ==>
                  client.told == Some(response) || client.stage == Dropped || (s.stopped && client.told == Some(Error)))
  {
    hide Next, AllLocal, Awaited, Sender;
    RunKeepsAnswers(states, acts, i);
    var s := states[i];
    assert ToldIsServed(s, c);
    var sv := Served(Message(Some(c), CheckAndStoreId(s.clients[c].req.id)), response);
    if sv in s.served { assert Reached(s, sv); }
  }

  /** Every response is the database's own, none is a failure. */
  ghost predicate AllHandled(served: seq<Served>) {
    forall k :: 0 <= k < |served| ==> served[k].response == Handle(Replay(served[..k]), served[k].message.req).1
  }

  lemma HandledMore(served: seq<Served>, sv: Served)
    requires AllHandled(served) && sv.response == Handle(Replay(served), sv.message.req).1
    ensures AllHandled(served + [sv])
  {
    hide Handle, Replay;
    var all := served + [sv];
    forall k | 0 <= k < |all|
      ensures all[k].response == Handle(Replay(all[..k]), all[k].message.req).1
    {
      assert all[..k] == served[..k];
      assert served[..|served|] == served;
    }
  }

  lemma ServedInStep(s: System, a: Action, s': System)
    requires Next(s, a, s') && a != Serve(true)
    ensures || s'.served == s.served
            || (s.queue != [] && s'.served == s.served + [Served(s.queue[0], Handle(s.db, s.queue[0].req).1)])
  {
    hide Handle, Deliver, WrapI32, FitsI32;
  }

  lemma {:induction false} RunHandles(states: seq<System>, acts: seq<Action>, i: nat)
    requires IsRun(states, acts) && i < |states|
    requires forall l :: 0 <= l < i ==> acts[l] != Serve(true)
    ensures AllHandled(states[i].served)
  {
    hide Next;
    if i > 0 {
      hide AllHandled;
      RunHandles(states, acts, i - 1);
      RunKeepsInv(states, acts, i - 1);
      var s, s' := states[i - 1], states[i];
      assert Next(s, acts[i - 1], states[i - 1 + 1]) && s.db == Replay(s.served);
      hide Inv;
      ServedInStep(s, acts[i - 1], s');
      if s'.served != s.served { HandledMore(s.served, s'.served[|s.served|]); }
    }
  }

  ghost predicate WasChecked(served: seq<Served>, k: nat, id: string)
    requires k <= |served|
  {
    exists j :: 0 <= j < k && served[j].message.req == CheckAndStoreId(id)
  }

  /** As long as no request fails in the database, an id is unique exactly the
      first time it is checked, entries are added, and a journal read is an
      error exactly before the first entry. */
  lemma NoFailureNoError(states: seq<System>, acts: seq<Action>, i: nat, k: nat)
    requires IsRun(states, acts) && i < |states| && k < |states[i].served|
    requires forall l :: 0 <= l < i ==> acts[l] != Serve(true)
    ensures var served := states[i].served;
            match served[k].message.req
            case CheckAndStoreId(id) => served[k].response == if WasChecked(served, k, id) then Duplicate else Unique
            case AddToJournal(_) => served[k].response == Added
            case GetJournal(_) => served[k].response == Error <==> Log(served[..k]) == []
  {
    hide Next, Log, Inv, AllHandled, Handle, Replay, WasChecked, Represents;
    RunHandles(states, acts, i);
    var served := states[i].served;
    HandledAt(served, k);
    match served[k].message.req
    case CheckAndStoreId(id) =>
      ProcessedIffChecked(served, k, id);
      CheckAnswer(Replay(served[..k]), id);
    case AddToJournal(entry) => AddAnswer(Replay(served[..k]), entry);
    case GetJournal(n) =>
      ReplayRepresentsLog(served[..k]);
      JournalAnswer(Replay(served[..k]), Log(served[..k]), n);
  }

  lemma HandledAt(served: seq<Served>, k: nat)
    requires AllHandled(served) && k < |served|
    ensures served[k].response == Handle(Replay(served[..k]), served[k].message.req).1
  {
  }

  lemma CheckAnswer(db: Db, id: string)
    ensures Handle(db, CheckAndStoreId(id)).1 == if id in db.processedIds then Duplicate else Unique
  {
  }

  lemma AddAnswer(db: Db, entry: Entry)
    ensures Handle(db, AddToJournal(entry)).1 == Added
  {
  }

  lemma ProcessedInStep(db: Db, req: Request, id: string)
    ensures id in Handle(db, req).0.processedIds <==> id in db.processedIds || req == CheckAndStoreId(id)
    ensures Handle(db, req).1 == Error ==> Handle(db, req).0 == db
  {
  }

  lemma ReplayStep(served: seq<Served>, k: nat)
    requires AllHandled(served) && k < |served|
    ensures Replay(served[..k + 1]) == Handle(Replay(served[..k]), served[k].message.req).0
  {
    HandledAt(served, k);
    assert served[..k + 1][..k] == served[..k];
    ProcessedInStep(Replay(served[..k]), served[k].message.req, "");
    hide Handle;
  }

  lemma CheckedOnce(served: seq<Served>, k: nat, id: string)
    requires k < |served|
    ensures WasChecked(served, k + 1, id) <==> WasChecked(served, k, id) || served[k].message.req == CheckAndStoreId(id)
    ensures !WasChecked(served, 0, id)
  {
  }

  lemma NothingReplayed(served: seq<Served>, id: string)
    ensures id !in Replay(served[..0]).processedIds && !WasChecked(served, 0, id)
  {
    assert served[..0] == [];
  }

  lemma {:induction false} ProcessedIffChecked(served: seq<Served>, k: nat, id: string)
    requires AllHandled(served) && k <= |served|
    ensures id in Replay(served[..k]).processedIds <==> WasChecked(served, k, id)
  {
    hide AllHandled, Handle, Replay, WasChecked;
    if k == 0 {
      NothingReplayed(served, id);
    } else {
      ProcessedIffChecked(served, k - 1, id);
      ReplayStep(served, k - 1);
      CheckedOnce(served, k - 1, id);
      ProcessedInStep(Replay(served[..k - 1]), served[k - 1].message.req, id);
    }
  }

  lemma NewEntry(s: System, a: Action, s': System, m: Message)
    requires Next(s, a, s') && m in s'.past.all && m !in s.past.all && m.req.AddToJournal?
    ensures a.Continue? && a.client in s.clients && m.from == Some(a.client)
    ensures var req := s.clients[a.client].req;
            m.req.entry == Entry(req.id, req.a, req.b, req.c, a.timestampUs)
  {
    if a.Continue? {
      ContinueCases(s, a.client, a.timestampUs, s');
      hide ContinueStep;
    }
    hide Handle, Deliver;
  }

  /** An entry is sent once its client goes on, with the client's own numbers
      and the time it read then. */
  lemma {:induction false} EntryIsOfItsClient(states: seq<System>, acts: seq<Action>, i: nat, m: Message)
      returns (l: nat)
    requires IsRun(states, acts) && i < |states| && m in states[i].past.all && m.req.AddToJournal?
    ensures l < i && acts[l].Continue? && m.from == Some(acts[l].client) && acts[l].client in states[l].clients
    ensures var req := states[l].clients[acts[l].client].req;
            m.req.entry == Entry(req.id, req.a, req.b, req.c, acts[l].timestampUs)
  {
    hide Next;
    assert i > 0;
    if m in states[i - 1].past.all {
      l := EntryIsOfItsClient(states, acts, i - 1, m);
    } else {
      l := i - 1;
      assert Next(states[l], acts[l], states[l + 1]);
      NewEntry(states[l], acts[l], states[l + 1], m);
    }
  }

  /** A client that knows the answer to its check can go on, unless the queue is
      full: it is answered, or sends its entry. */
  lemma ClientGoesOn(s: System, c: nat, timestampUs: nat)
    requires c in s.clients && s.clients[c].stage.Checked? && (|s.queue| < 32 || !s.alive)
    ensures exists s' :: Next(s, Continue(c, timestampUs), s')
                      && (s'.clients[c].stage.Answered? || s'.clients[c].stage == AwaitingAdd)
  {
    var req, response := s.clients[c].req, s.clients[c].stage.response;
    var m := Message(Some(c), AddToJournal(Entry(req.id, req.a, req.b, req.c, timestampUs)));
    var s' :=
      match response
      case Unique =>
        if s.checked && !FitsI32(req.a + req.b) then s.(clients := SetStage(s, c, Answered(HandlerPanicked)))
        else if req.c != WrapI32(req.a + req.b) then s.(clients := SetStage(s, c, Answered(WrongSum)))
        else if s.alive then Send(s.(clients := SetStage(s, c, AwaitingAdd)), m)
        else s.(clients := SetStage(s, c, Answered(OK)))
      case Duplicate => s.(clients := SetStage(s, c, Answered(Conflict)))
      case _ => s.(clients := SetStage(s, c, Answered(InternalError)));
    hide FitsI32, WrapI32;
    assert Next(s, Continue(c, timestampUs), s');
  }
}
