/** Any number of `/sums` clients and journal readers, one FIFO channel, one
    worker. A client is not atomic: it checks its id in one request and
    journals its entry in another, and other clients come in between. Clients
    may be dropped at any await, requests may fail in the database, the worker
    may stop, and the process may restart on the database it left behind. */
module SumsProtocol {
  import opened SumsDatabase

  const QUEUE_SIZE: nat := 32

  datatype SumRequest = SumRequest(id: string, a: i32, b: i32, c: i32)

  datatype HttpAnswer =
    | OK
    | EmptyId
    | WrongSum
    | Conflict
    | InternalError
    | HandlerPanicked

  datatype Stage =
    | Arrived
    | AwaitingCheck
    | Checked(response: Response)
    | AwaitingAdd
    | Answered(answer: HttpAnswer)
    | Dropped

  /** `told` is the response that reached the client for its check, if any did. */
  datatype Client = Client(req: SumRequest, stage: Stage, told: Option<Response>)

  /** A request in the channel; `from` is None for a journal reader. */
  datatype Message = Message(from: Option<nat>, req: Request)

  datatype Served = Served(message: Message, response: Response)

  /** Every message ever sent, and which of them, by position, were not lost
      with the worker or the process. */
  datatype Past = Past(all: seq<Message>, kept: seq<nat>)

  /** The system, with four histories: every message sent and not lost, every
      message served with its response, whether the worker ever stopped, and
      what was sent in all. `checked` says whether the build checks for
      overflow; `alive` is the worker. */
  datatype System = System(
    db: Db,
    queue: seq<Message>,
    clients: map<nat, Client>,
    sent: seq<Message>,
    served: seq<Served>,
    checked: bool,
    alive: bool,
    stopped: bool,
    past: Past)

  function Initial(checked: bool): System {
    System(EMPTY_DB, [], map[], [], [], checked, true, false, Past([], []))
  }

  datatype Action =
    | Arrive(client: nat, req: SumRequest)
    | Check(client: nat)
    | Read(n: nat)
    | Serve(fails: bool)
    | Continue(client: nat, timestampUs: nat)
    | Drop(client: nat)
    | Stop(midway: bool)
    | Restart

  function SetStage(s: System, c: nat, stage: Stage): map<nat, Client>
    requires c in s.clients
  {
    s.clients[c := s.clients[c].(stage := stage)]
  }

  function Send(s: System, m: Message): System {
    s.(queue := s.queue + [m], sent := s.sent + [m], past := Past(s.past.all + [m], s.past.kept + [|s.past.all|]))
  }

  /** All but the first n messages sent are lost. */
  function Lose(past: Past, n: nat): Past {
    past.(kept := past.kept[..Min(n, |past.kept|)])
  }

  /** The response reaches the client, if it still waits for it. */
  function Deliver(clients: map<nat, Client>, m: Message, response: Response): map<nat, Client> {
    if m.from.Some? && m.from.value in clients then
      var c := m.from.value;
      if m.req.CheckAndStoreId? && clients[c].stage == AwaitingCheck then
        clients[c := clients[c].(stage := Checked(response), told := Some(response))]
      else if m.req.AddToJournal? && clients[c].stage == AwaitingAdd then
        clients[c := clients[c].(stage := Answered(OK))]
      else clients
    else clients
  }

  function Messages(served: seq<Served>): seq<Message> {
    seq(|served|, i requires 0 <= i < |served| => served[i].message)
  }

  function FitsI32(x: int): bool {
    -0x8000_0000 <= x < 0x8000_0000
  }

  /** Addition in a build without overflow checks. */
  function WrapI32(x: int): i32 {
    (x + 0x8000_0000) % 0x1_0000_0000 - 0x8000_0000
  }

  /** The handler's comparison of c with a + b comes out true. */
  predicate SumAccepted(checked: bool, a: i32, b: i32, c: i32) {
    c == WrapI32(a + b) && (checked ==> FitsI32(a + b))
  }

  predicate RightSum(checked: bool, req: SumRequest) {
    SumAccepted(checked, req.a, req.b, req.c)
  }

  /** The channel takes a message when the worker is there and has room. */
  predicate CanSend(s: System) {
    s.alive && |s.queue| < QUEUE_SIZE
  }

  /** What the worker's end means to a client that waits for it: an error, and
      the error of the second request is ignored. */
  function GiveUp(client: Client): Client {
    match client.stage
    case AwaitingCheck => client.(stage := Checked(Error), told := Some(Error))
    case AwaitingAdd => client.(stage := Answered(OK))
    case _ => client
  }

  /** What a restart means to a client. */
  function Forget(stage: Stage): Stage {
    if stage.Answered? then stage else Dropped
  }

  /** The worker stops, between two requests or having handled one it does not
      get to answer. What is queued is lost. */
  function StopStep(s: System, midway: bool): System
    requires midway ==> s.queue != []
  {
    var (db, served) :=
      if midway then var (db, response) := Handle(s.db, s.queue[0].req); (db, s.served + [Served(s.queue[0], response)])
      else (s.db, s.served);
    System(db, [], map c | c in s.clients :: GiveUp(s.clients[c]),
           Messages(served), served, s.checked, false, true, Lose(s.past, |served|))
  }

  /** What the handler does once it knows the answer to its check. */
  predicate ContinueStep(s: System, c: nat, timestampUs: nat, s': System)
    requires c in s.clients && s.clients[c].stage.Checked?
  {
    var req := s.clients[c].req;
    match s.clients[c].stage.response
    case Unique =>
      if s.checked && !FitsI32(req.a + req.b) then s' == s.(clients := SetStage(s, c, Answered(HandlerPanicked)))
      else if req.c == WrapI32(req.a + req.b) then
        if !s.alive then s' == s.(clients := SetStage(s, c, Answered(OK)))
        else
          && CanSend(s)
          && s' == Send(s.(clients := SetStage(s, c, AwaitingAdd)),
                        Message(Some(c), AddToJournal(Entry(req.id, req.a, req.b, req.c, timestampUs))))
      else s' == s.(clients := SetStage(s, c, Answered(WrongSum)))
    case Duplicate => s' == s.(clients := SetStage(s, c, Answered(Conflict)))
    case _ => s' == s.(clients := SetStage(s, c, Answered(InternalError)))
  }

  predicate Next(s: System, a: Action, s': System) {
    match a
    case Arrive(c, req) => c !in s.clients && s' == s.(clients := s.clients[c := Client(req, Arrived, None)])
    case Check(c) =>
      && c in s.clients && s.clients[c].stage == Arrived
      && var req := s.clients[c].req;
         if req.id == "" then s' == s.(clients := SetStage(s, c, Answered(EmptyId)))
         else if !s.alive then s' == s.(clients := SetStage(s, c, Answered(InternalError)))
         else
           && CanSend(s)
           && s' == Send(s.(clients := SetStage(s, c, AwaitingCheck)), Message(Some(c), CheckAndStoreId(req.id)))
    case Read(n) => CanSend(s) && s' == Send(s, Message(None, GetJournal(n)))
    case Serve(fails) =>
      && s.queue != []
      && var m := s.queue[0];
         var (db, response) := if fails then (s.db, Error) else Handle(s.db, m.req);
         s' == s.(db := db, queue := s.queue[1..], clients := Deliver(s.clients, m, response),
                  served := s.served + [Served(m, response)])
    case Continue(c, timestampUs) =>
      c in s.clients && s.clients[c].stage.Checked? && ContinueStep(s, c, timestampUs, s')
    case Drop(c) =>
      c in s.clients && !s.clients[c].stage.Answered? && s' == s.(clients := SetStage(s, c, Dropped))
    case Stop(midway) => s.alive && (midway ==> s.queue != []) && s' == StopStep(s, midway)
    case Restart =>
      s' == s.(queue := [], sent := Messages(s.served), alive := true, past := Lose(s.past, |s.served|),
               clients := map c | c in s.clients :: s.clients[c].(stage := Forget(s.clients[c].stage)))
  }

  // ----- The database as a function of what was served -------------------

  function Replay(served: seq<Served>): Db {
    if served == [] then EMPTY_DB
    else
      var last := served[|served| - 1];
      var db := Replay(served[..|served| - 1]);
      if last.response == Error then db else Handle(db, last.message.req).0
  }

  /** Every response was right for the database at its moment, or an error. */
  ghost predicate Consistent(served: seq<Served>) {
    forall i :: 0 <= i < |served| ==>
      served[i].response == Error || served[i].response == Handle(Replay(served[..i]), served[i].message.req).1
  }

  function Log(served: seq<Served>): seq<Entry> {
    if served == [] then []
    else
      var last := served[|served| - 1];
      Log(served[..|served| - 1])
      + (if last.response != Error && last.message.req.AddToJournal? then [last.message.req.entry] else [])
  }

  lemma OthersLeaveJournal(db: Db, log: seq<Entry>, req: Request)
    requires Represents(db, log)
    ensures !req.AddToJournal? ==> Represents(Handle(db, req).0, log)
  {
    assert !req.AddToJournal? ==> Handle(db, req).0.journal == db.journal && Handle(db, req).0.idx == db.idx;
  }

  lemma {:induction false} ReplayRepresentsLog(served: seq<Served>)
    ensures Represents(Replay(served), Log(served))
    decreases |served|
  {
    if served != [] {
      var last, before := served[|served| - 1], served[..|served| - 1];
      ReplayRepresentsLog(before);
      if last.response != Error && last.message.req.AddToJournal? {
        AddAppends(Replay(before), Log(before), last.message.req.entry);
      } else {
        assert Log(served) == Log(before);
        OthersLeaveJournal(Replay(before), Log(before), last.message.req);
      }
    }
  }

  predicate IsUnique(sv: Served, id: string) {
    sv.response == Unique && sv.message.req == CheckAndStoreId(id)
  }

  lemma {:induction false} ProcessedIffUniqueAnswer(served: seq<Served>, id: string)
    requires Consistent(served)
    ensures id in Replay(served).processedIds <==> exists i :: 0 <= i < |served| && IsUnique(served[i], id)
    decreases |served|
  {
    if served != [] {
      var n := |served| - 1;
      var last, before := served[n], served[..n];
      assert Consistent(before) by {
        assert forall i :: 0 <= i < n ==> before[..i] == served[..i];
      }
      ProcessedIffUniqueAnswer(before, id);
      assert last.response == Error || last.response == Handle(Replay(served[..n]), last.message.req).1;
      if id in Replay(before).processedIds {
        var i :| 0 <= i < n && IsUnique(before[i], id);
        assert IsUnique(served[i], id);
      } else if id in Replay(served).processedIds {
        assert IsUnique(served[n], id);
      } else {
        forall i | 0 <= i < |served|
          ensures !IsUnique(served[i], id)
        {
          if i < n { assert !IsUnique(before[i], id); }
        }
      }
    }
  }

  /** Each id gets at most one Unique answer, ever. */
  lemma UniqueOnlyOnce(served: seq<Served>, i: nat, j: nat, id: string)
    requires Consistent(served) && i < j < |served|
    requires IsUnique(served[i], id)
    ensures !IsUnique(served[j], id)
  {
    var before := served[..j];
    assert Consistent(before) by {
      assert forall l :: 0 <= l < j ==> before[..l] == served[..l];
    }
    assert IsUnique(before[i], id);
    ProcessedIffUniqueAnswer(before, id);
  }

  // ----- The inductive invariant -----------------------------------------

  predicate IsAddOf(m: Message, c: nat, req: SumRequest) {
    && m.from == Some(c) && m.req.AddToJournal?
    && m.req.entry.id == req.id && m.req.entry.a == req.a && m.req.entry.b == req.b && m.req.entry.c == req.c
  }

  /** A message from a client is its check or its entry. */
  ghost predicate OwnMessage(s: System, m: Message) {
    m.from.Some? ==>
      var c := m.from.value;
      c in s.clients && (m.req == CheckAndStoreId(s.clients[c].req.id) || IsAddOf(m, c, s.clients[c].req))
  }

  /** An entry was sent after its own client had been told its id is unique,
      with a non-empty id and the right sum. */
  ghost predicate Justified(checked: bool, served: seq<Served>, m: Message) {
    m.req.AddToJournal? ==>
      && m.from.Some?
      && m.req.entry.id != "" && SumAccepted(checked, m.req.entry.a, m.req.entry.b, m.req.entry.c)
      && exists i :: 0 <= i < |served| && served[i].message.from == m.from && IsUnique(served[i], m.req.entry.id)
  }

  /** The client's check was served with this response. */
  ghost predicate WasTold(s: System, c: nat, response: Response)
    requires c in s.clients
  {
    var check := Message(Some(c), CheckAndStoreId(s.clients[c].req.id));
    exists i :: 0 <= i < |s.served| && s.served[i] == Served(check, response)
  }

  /** The client's request for an entry was answered, possibly by an error. */
  ghost predicate AddWasServed(s: System, c: nat)
    requires c in s.clients
  {
    exists i :: 0 <= i < |s.served| && IsAddOf(s.served[i].message, c, s.clients[c].req)
  }

  /** What a client's stage says about the messages it has sent and the
      response it was given. */
  ghost predicate StageAgrees(s: System, c: nat)
    requires c in s.clients
  {
    match s.clients[c].stage
    case Arrived => forall m :: m in s.sent ==> m.from != Some(c)
    case AwaitingCheck =>
      && s.clients[c].req.id != ""
      && forall m :: m in s.sent && m.from == Some(c) ==> m.req.CheckAndStoreId?
    case Checked(response) =>
      && s.clients[c].req.id != ""
      && (forall m :: m in s.sent && m.from == Some(c) ==> m.req.CheckAndStoreId?)
      && (response != Error ==> WasTold(s, c, response))
    case AwaitingAdd => WasTold(s, c, Unique) && RightSum(s.checked, s.clients[c].req)
    case Answered(OK) =>
      WasTold(s, c, Unique) && RightSum(s.checked, s.clients[c].req) && (s.stopped || AddWasServed(s, c))
    case Answered(Conflict) => WasTold(s, c, Duplicate)
    case _ => true
  }

  ghost predicate InOrder(sent: seq<Message>) {
    forall i, j :: 0 <= i < j < |sent| && sent[i].from.Some? && sent[i].from == sent[j].from ==>
      sent[i].req.CheckAndStoreId? && sent[j].req.AddToJournal?
  }

  ghost predicate Inv(s: System) {
    && s.db == Replay(s.served) && Consistent(s.served)
    && s.sent == Messages(s.served) + s.queue
    && |s.queue| <= QUEUE_SIZE
    && (!s.alive ==> s.stopped)
    && InOrder(s.sent)
    && (forall m :: m in s.sent ==> OwnMessage(s, m) && Justified(s.checked, s.served, m))
    && (forall c :: c in s.clients ==> StageAgrees(s, c))
  }

  lemma ConsistentExtend(served: seq<Served>, sv: Served)
    requires Consistent(served)
    requires sv.response == Error || sv.response == Handle(Replay(served), sv.message.req).1
    ensures Consistent(served + [sv])
    ensures Replay(served + [sv])
         == if sv.response == Error then Replay(served) else Handle(Replay(served), sv.message.req).0
    ensures Log(served + [sv]) == Log(served)
            + (if sv.response != Error && sv.message.req.AddToJournal? then [sv.message.req.entry] else [])
  {
    var all := served + [sv];
    assert all[..|served|] == served;
    assert forall i :: 0 <= i < |served| ==> all[..i] == served[..i];
  }

  lemma JustifiedGrows(checked: bool, served: seq<Served>, sv: Served, m: Message)
    requires Justified(checked, served, m)
    ensures Justified(checked, served + [sv], m)
  {
    if m.req.AddToJournal? {
      var i :| 0 <= i < |served| && served[i].message.from == m.from && IsUnique(served[i], m.req.entry.id);
      assert (served + [sv])[i] == served[i];
    }
  }

  /** A change of one client's stage that sends nothing. */
  lemma StageChangeKeepsInv(s: System, c: nat, stage: Stage)
    requires Inv(s) && c in s.clients
    requires stage.Dropped? || stage.Answered?
    requires stage == Answered(OK) ==> s.stopped && WasTold(s, c, Unique) && RightSum(s.checked, s.clients[c].req)
    requires stage == Answered(Conflict) ==> WasTold(s, c, Duplicate)
    ensures Inv(s.(clients := SetStage(s, c, stage)))
  {
    var s' := s.(clients := SetStage(s, c, stage));
    forall m | m in s'.sent
      ensures OwnMessage(s', m)
    {
      assert OwnMessage(s, m);
    }
    forall x | x in s'.clients
      ensures StageAgrees(s', x)
    {
      if x != c { assert StageAgrees(s, x); }
    }
  }

  lemma ArriveKeepsInv(s: System, c: nat, req: SumRequest)
    requires Inv(s) && c !in s.clients
    ensures Inv(s.(clients := s.clients[c := Client(req, Arrived, None)]))
  {
    var s' := s.(clients := s.clients[c := Client(req, Arrived, None)]);
    forall m | m in s'.sent
      ensures OwnMessage(s', m) && m.from != Some(c)
    {
      assert OwnMessage(s, m);
    }
    forall x | x in s'.clients
      ensures StageAgrees(s', x)
    {
      if x != c { assert StageAgrees(s, x); }
    }
  }

  /** Sending a message that is allowed to its client at this point. */
  lemma SendKeepsInv(s: System, clients: map<nat, Client>, m: Message)
    requires Inv(s) && CanSend(s)
    requires clients.Keys == s.clients.Keys && forall x :: x in clients ==> clients[x].req == s.clients[x].req
    requires forall x :: x in clients && m.from != Some(x) ==> clients[x] == s.clients[x]
    requires var s' := Send(s.(clients := clients), m);
             && OwnMessage(s', m) && Justified(s.checked, s.served, m)
             && (m.from.Some? ==> StageAgrees(s', m.from.value))
    requires m.from.Some? ==> m.req.AddToJournal? || forall k :: k in s.sent ==> k.from != m.from
    requires m.from.Some? ==> forall k :: k in s.sent && k.from == m.from ==> k.req.CheckAndStoreId?
    ensures Inv(Send(s.(clients := clients), m))
  {
    var s' := Send(s.(clients := clients), m);
    assert s'.sent == Messages(s.served) + (s.queue + [m]);
    hide InOrder, OwnMessage, Justified, StageAgrees, Replay, Consistent, Messages;
    forall k | k in s'.sent
      ensures OwnMessage(s', k) && Justified(s'.checked, s'.served, k)
    {
      if k in s.sent { OwnMessageStable(s, s', k); } else { assert k == m; }
    }
    SendKeepsOrder(s.sent, m);
    forall x | x in s'.clients
      ensures StageAgrees(s', x)
    {
      if m.from != Some(x) { SendKeepsStage(s, s', m, x); }
    }
  }

  lemma SendKeepsOrder(sent: seq<Message>, m: Message)
    requires InOrder(sent)
    requires m.from.Some? ==> m.req.AddToJournal? || forall k :: k in sent ==> k.from != m.from
    requires m.from.Some? ==> forall k :: k in sent && k.from == m.from ==> k.req.CheckAndStoreId?
    ensures InOrder(sent + [m])
  {
    var all := sent + [m];
    forall i, j | 0 <= i < j < |all| && all[i].from.Some? && all[i].from == all[j].from
      ensures all[i].req.CheckAndStoreId? && all[j].req.AddToJournal?
    {
      assert all[i] == sent[i] && sent[i] in sent;
      if j < |sent| { assert all[j] == sent[j]; }
    }
  }

  lemma SendKeepsStage(s: System, s': System, m: Message, x: nat)
    requires x in s.clients && x in s'.clients && s'.clients[x] == s.clients[x] && StageAgrees(s, x)
    requires s'.sent == s.sent + [m] && m.from != Some(x)
    requires s'.served == s.served && s'.checked == s.checked && s'.stopped == s.stopped
    ensures StageAgrees(s', x)
  {
  }

  lemma CheckKeepsInv(s: System, c: nat, s': System)
    requires Inv(s) && Next(s, Check(c), s')
    ensures Inv(s')
  {
    hide Consistent, Replay, InOrder, Messages, WasTold;
    var req := s.clients[c].req;
    assert StageAgrees(s, c);
    if req.id == "" {
      StageChangeKeepsInv(s, c, Answered(EmptyId));
    } else if !s.alive {
      StageChangeKeepsInv(s, c, Answered(InternalError));
    } else {
      SendKeepsInv(s, SetStage(s, c, AwaitingCheck), Message(Some(c), CheckAndStoreId(req.id)));
    }
  }

  /** What a client that may send its entry has to show for it. */
  lemma MayAdd(s: System, c: nat)
    requires Inv(s) && c in s.clients && s.clients[c].stage == Checked(Unique)
    ensures var req := s.clients[c].req;
            && req.id != "" && WasTold(s, c, Unique)
            && (forall m :: m in s.sent && m.from == Some(c) ==> m.req.CheckAndStoreId?)
            && exists i :: 0 <= i < |s.served| && s.served[i].message.from == Some(c) && IsUnique(s.served[i], req.id)
  {
    hide Consistent, Replay, InOrder, Messages;
    assert StageAgrees(s, c);
  }

  lemma SendAddKeepsInv(s: System, c: nat, timestampUs: nat)
    requires Inv(s) && CanSend(s) && c in s.clients && s.clients[c].stage == Checked(Unique)
    requires RightSum(s.checked, s.clients[c].req)
    ensures var req := s.clients[c].req;
            Inv(Send(s.(clients := SetStage(s, c, AwaitingAdd)),
                     Message(Some(c), AddToJournal(Entry(req.id, req.a, req.b, req.c, timestampUs)))))
  {
    MayAdd(s, c);
    var req := s.clients[c].req;
    var m := Message(Some(c), AddToJournal(Entry(req.id, req.a, req.b, req.c, timestampUs)));
    assert Justified(s.checked, s.served, m);
    var s' := Send(s.(clients := SetStage(s, c, AwaitingAdd)), m);
    assert StageAgrees(s', c) by { assert WasTold(s', c, Unique) by { hide Inv; } }
    hide Inv, Justified, StageAgrees;
    SendKeepsInv(s, SetStage(s, c, AwaitingAdd), m);
  }

  lemma ContinueKeepsInv(s: System, c: nat, timestampUs: nat, s': System)
    requires Inv(s) && Next(s, Continue(c, timestampUs), s')
    ensures Inv(s')
  {
    var response := s.clients[c].stage.response;
    if response == Unique && RightSum(s.checked, s.clients[c].req) {
      RightSumKeepsInv(s, c, timestampUs, s');
    } else {
      OtherAnswerKeepsInv(s, c, timestampUs, s');
    }
  }

  lemma RightSumKeepsInv(s: System, c: nat, timestampUs: nat, s': System)
    requires Inv(s) && c in s.clients && s.clients[c].stage == Checked(Unique) && RightSum(s.checked, s.clients[c].req)
    requires ContinueStep(s, c, timestampUs, s')
    ensures Inv(s')
  {
    if s.alive {
      hide Inv;
      SendAddKeepsInv(s, c, timestampUs);
    } else {
      WasToldItsResponse(s, c);
      hide Inv, WasTold, ContinueStep;
      StageChangeKeepsInv(s, c, Answered(OK));
    }
  }

  /** A wrong sum, an overflow, a duplicate or an error. */
  lemma OtherAnswerKeepsInv(s: System, c: nat, timestampUs: nat, s': System)
    requires Inv(s) && c in s.clients && s.clients[c].stage.Checked? && ContinueStep(s, c, timestampUs, s')
    requires s.clients[c].stage.response == Unique ==> !RightSum(s.checked, s.clients[c].req)
    ensures Inv(s')
  {
    WasToldItsResponse(s, c);
    hide Inv, WasTold;
    match s.clients[c].stage.response
    case Unique => WrongSumKeepsInv(s, c, timestampUs, s');
    case Duplicate => StageChangeKeepsInv(s, c, Answered(Conflict));
    case _ => StageChangeKeepsInv(s, c, Answered(InternalError));
  }

  lemma WrongSumKeepsInv(s: System, c: nat, timestampUs: nat, s': System)
    requires Inv(s) && c in s.clients && s.clients[c].stage == Checked(Unique) && ContinueStep(s, c, timestampUs, s')
    requires !RightSum(s.checked, s.clients[c].req)
    ensures Inv(s')
  {
    hide Inv;
    if s.checked && !FitsI32(s.clients[c].req.a + s.clients[c].req.b) {
      StageChangeKeepsInv(s, c, Answered(HandlerPanicked));
    } else {
      StageChangeKeepsInv(s, c, Answered(WrongSum));
    }
  }

  lemma WasToldItsResponse(s: System, c: nat)
    requires Inv(s) && c in s.clients && s.clients[c].stage.Checked?
    ensures var response := s.clients[c].stage.response; response != Error ==> WasTold(s, c, response)
    ensures !s.alive ==> s.stopped
  {
    hide Consistent, Replay, InOrder, Messages, WasTold;
    assert StageAgrees(s, c);
  }

  lemma MessagesMove(served: seq<Served>, sv: Served, queue: seq<Message>)
    requires queue != [] && sv.message == queue[0]
    ensures Messages(served + [sv]) + queue[1..] == Messages(served) + queue
  {
    assert Messages(served + [sv]) == Messages(served) + [sv.message];
    assert queue == [sv.message] + queue[1..];
  }

  lemma ServeKeepsInv(s: System, fails: bool, s': System)
    requires Inv(s) && Next(s, Serve(fails), s')
    ensures Inv(s')
  {
    hide Replay, InOrder, Handle, OwnMessage, Justified, StageAgrees, Consistent, Deliver;
    var m := s.queue[0];
    var (db, response) := if fails then (s.db, Error) else Handle(s.db, m.req);
    var sv := Served(m, response);
    ConsistentExtend(s.served, sv);
    ErrorHasNoEffect(s.db, m.req);
    MessagesMove(s.served, sv, s.queue);
    assert m in s.sent;
    hide Messages;
    DeliverKeepsClients(s.clients, m, response);
    forall k | k in s'.sent
      ensures OwnMessage(s', k) && Justified(s'.checked, s'.served, k)
    {
      OwnMessageStable(s, s', k);
      JustifiedGrows(s.checked, s.served, sv, k);
    }
    forall c | c in s'.clients
      ensures StageAgrees(s', c)
    {
      DeliverKeepsStage(s, m, response, s', c);
    }
  }

  lemma DeliverKeepsClients(clients: map<nat, Client>, m: Message, response: Response)
    ensures var clients' := Deliver(clients, m, response);
            clients'.Keys == clients.Keys && forall c :: c in clients ==> clients'[c].req == clients[c].req
  {
  }

  lemma OwnMessageStable(s: System, s': System, m: Message)
    requires OwnMessage(s, m)
    requires s'.clients.Keys == s.clients.Keys && forall c :: c in s.clients ==> s'.clients[c].req == s.clients[c].req
    ensures OwnMessage(s', m)
  {
  }

  lemma ErrorHasNoEffect(db: Db, req: Request)
    ensures Handle(db, req).1 == Error ==> Handle(db, req).0 == db
  {
  }

  lemma DeliverKeepsStage(s: System, m: Message, response: Response, s': System, c: nat)
    requires m in s.sent && OwnMessage(s, m) && c in s.clients && StageAgrees(s, c)
    requires s' == s.(db := s'.db, queue := s'.queue, clients := Deliver(s.clients, m, response),
                      served := s.served + [Served(m, response)])
    ensures c in s'.clients && StageAgrees(s', c)
  {
    assert s'.served[|s.served|] == Served(m, response);
    forall r | WasTold(s, c, r)
      ensures WasTold(s', c, r)
    {
      var i :| 0 <= i < |s.served| && s.served[i] == Served(Message(Some(c), CheckAndStoreId(s.clients[c].req.id)), r);
      assert s'.served[i] == s.served[i];
    }
    if AddWasServed(s, c) {
      var i :| 0 <= i < |s.served| && IsAddOf(s.served[i].message, c, s.clients[c].req);
      assert s'.served[i] == s.served[i];
    }
  }

  lemma RestartKeepsInv(s: System, s': System)
    requires Inv(s) && Next(s, Restart, s')
    ensures Inv(s')
  {
    hide Replay, Consistent;
    assert s'.sent == s.sent[..|s.served|];
    assert forall m :: m in s'.sent ==> m in s.sent;
    forall m | m in s'.sent
      ensures OwnMessage(s', m)
    {
      assert OwnMessage(s, m);
    }
    assert forall i :: 0 <= i < |s'.sent| ==> s'.sent[i] == s.sent[i];
  }

  /** The worker gets no further than the messages served. */
  lemma StopKeepsInv(s: System, midway: bool, s': System)
    requires Inv(s) && Next(s, Stop(midway), s')
    ensures Inv(s')
  {
    hide Replay, Consistent, InOrder, Handle, OwnMessage, Justified, StageAgrees;
    assert s'.served == s.served
        || (midway && s'.served == s.served + [Served(s.queue[0], Handle(s.db, s.queue[0].req).1)]);
    if midway {
      var sv := Served(s.queue[0], Handle(s.db, s.queue[0].req).1);
      ConsistentExtend(s.served, sv);
      ErrorHasNoEffect(s.db, s.queue[0].req);
      MessagesMove(s.served, sv, s.queue);
    }
    assert s'.sent <= s.sent;
    SentPrefix(s.sent, s'.sent);
    forall m | m in s'.sent
      ensures OwnMessage(s', m) && Justified(s'.checked, s'.served, m)
    {
      OwnMessageStable(s, s', m);
      if midway { JustifiedGrows(s.checked, s.served, s'.served[|s.served|], m); }
    }
    forall c | c in s'.clients
      ensures StageAgrees(s', c)
    {
      StopKeepsStage(s, s', c);
    }
  }

  lemma SentPrefix(sent: seq<Message>, sent': seq<Message>)
    requires sent' <= sent
    ensures InOrder(sent) ==> InOrder(sent')
    ensures forall m :: m in sent' ==> m in sent
  {
    assert forall i :: 0 <= i < |sent'| ==> sent'[i] == sent[i];
  }

  lemma StopKeepsStage(s: System, s': System, c: nat)
    requires c in s.clients && StageAgrees(s, c)
    requires s'.clients == map x | x in s.clients :: GiveUp(s.clients[x])
    requires s.served <= s'.served && s'.sent <= s.sent && s'.checked == s.checked && s'.stopped
    ensures StageAgrees(s', c)
  {
    SentPrefix(s.sent, s'.sent);
    forall r | WasTold(s, c, r)
      ensures WasTold(s', c, r)
    {
      var i :| 0 <= i < |s.served| && s.served[i] == Served(Message(Some(c), CheckAndStoreId(s.clients[c].req.id)), r);
      assert s'.served[i] == s.served[i];
    }
  }

  /** Every action keeps the invariant. */
  lemma NextKeepsInv(s: System, a: Action, s': System)
    requires Inv(s) && Next(s, a, s')
    ensures Inv(s')
  {
    hide Inv;
    match a
    case Arrive(c, req) => ArriveKeepsInv(s, c, req);
    case Check(c) => CheckKeepsInv(s, c, s');
    case Read(n) => ReadKeepsInv(s, n, s');
    case Serve(fails) => ServeKeepsInv(s, fails, s');
    case Continue(c, timestampUs) => ContinueKeepsInv(s, c, timestampUs, s');
    case Drop(c) => StageChangeKeepsInv(s, c, Dropped);
    case Stop(midway) => StopKeepsInv(s, midway, s');
    case Restart => RestartKeepsInv(s, s');
  }

  lemma ReadKeepsInv(s: System, n: nat, s': System)
    requires Inv(s) && Next(s, Read(n), s')
    ensures Inv(s')
  {
    hide Replay, Consistent, InOrder;
    SendKeepsInv(s, s.clients, Message(None, GetJournal(n)));
  }

  predicate IsRun(states: seq<System>, acts: seq<Action>) {
    && |states| == |acts| + 1 && states[0] == Initial(states[0].checked)
    && forall i :: 0 <= i < |acts| ==> Next(states[i], acts[i], states[i + 1])
  }

  lemma {:induction false} RunKeepsInv(states: seq<System>, acts: seq<Action>, i: nat)
    requires IsRun(states, acts) && i < |states|
    ensures Inv(states[i])
  {
    hide Next;
    if i > 0 {
      hide Inv;
      RunKeepsInv(states, acts, i - 1);
      assert Next(states[i - 1], acts[i - 1], states[i - 1 + 1]);
      NextKeepsInv(states[i - 1], acts[i - 1], states[i]);
    }
  }

  // ----- What follows in every reachable state ---------------------------

  /** What was kept are messages of the past, in the order they were sent. */
  ghost predicate PastAgrees(past: Past, sent: seq<Message>) {
    && |past.kept| == |sent|
    && (forall i, j :: 0 <= i < j < |past.kept| ==> past.kept[i] < past.kept[j])
    && (forall i :: 0 <= i < |sent| ==> past.kept[i] < |past.all| && past.all[past.kept[i]] == sent[i])
  }

  lemma SendKeepsPast(s: System, m: Message)
    requires PastAgrees(s.past, s.sent)
    ensures PastAgrees(Send(s, m).past, Send(s, m).sent)
  {
  }

  lemma LoseKeepsPast(past: Past, sent: seq<Message>, n: nat)
    requires PastAgrees(past, sent) && n <= |sent|
    ensures PastAgrees(Lose(past, n), sent[..n])
  {
  }

  predicate LosesMessages(a: Action) {
    a.Stop? || a.Restart?
  }

  predicate NothingLost(acts: seq<Action>, n: nat)
    requires n <= |acts|
  {
    forall l :: 0 <= l < n ==> !LosesMessages(acts[l])
  }

  /** Every other step sends one message or none. */
  lemma SendsAtMostOne(s: System, a: Action, s': System) returns (sends: bool, m: Message)
    requires Next(s, a, s') && !LosesMessages(a)
    ensures s'.sent == (if sends then s.sent + [m] else s.sent)
    ensures s'.past == if sends then Send(s, m).past else s.past
  {
    hide Handle, Deliver, SetStage;
    sends, m := s'.sent != s.sent, Message(None, GetJournal(0));
    if sends { m := s'.sent[|s.sent|]; }
  }

  /** How the histories of messages change in a step. */
  lemma NextOnPast(s: System, a: Action, s': System)
    requires s.sent == Messages(s.served) + s.queue && Next(s, a, s') && PastAgrees(s.past, s.sent)
    ensures PastAgrees(s'.past, s'.sent)
    ensures !LosesMessages(a) && s.sent == s.past.all ==> s'.sent == s'.past.all
  {
    hide PastAgrees;
    if a.Stop? {
      StopOnPast(s, a.midway);
    } else if a.Restart? {
      assert s.sent[..|s.served|] == Messages(s.served);
      LoseKeepsPast(s.past, s.sent, |s.served|);
    } else {
      var sends, m := SendsAtMostOne(s, a, s');
      hide Next;
      if sends { SendKeepsPast(s, m); }
    }
  }

  lemma StopOnPast(s: System, midway: bool)
    requires s.sent == Messages(s.served) + s.queue && (midway ==> s.queue != []) && PastAgrees(s.past, s.sent)
    ensures PastAgrees(StopStep(s, midway).past, StopStep(s, midway).sent)
  {
    hide PastAgrees, Handle;
    var s' := StopStep(s, midway);
    if midway { MessagesMove(s.served, s'.served[|s.served|], s.queue); }
    assert s.sent[..|s'.served|] == Messages(s'.served);
    LoseKeepsPast(s.past, s.sent, |s'.served|);
  }

  lemma {:induction false} RunOnPast(states: seq<System>, acts: seq<Action>, i: nat)
    requires IsRun(states, acts) && i < |states|
    ensures PastAgrees(states[i].past, states[i].sent)
    ensures NothingLost(acts, i) ==> states[i].sent == states[i].past.all
  {
    hide Next;
    if i > 0 {
      hide PastAgrees;
      RunOnPast(states, acts, i - 1);
      SentIsServedAndQueued(states, acts, i - 1);
      assert Next(states[i - 1], acts[i - 1], states[i - 1 + 1]);
      NextOnPast(states[i - 1], acts[i - 1], states[i]);
    }
  }

  lemma SentIsServedAndQueued(states: seq<System>, acts: seq<Action>, i: nat)
    requires IsRun(states, acts) && i < |states|
    ensures states[i].sent == Messages(states[i].served) + states[i].queue && |states[i].queue| <= 32
  {
    hide Next;
    RunKeepsInv(states, acts, i);
  }

  /** FIFO: messages are answered in the order they were sent, each at most
      once; what is not answered is queued, or was lost when the worker stopped
      or the process restarted. Without that nothing is lost. */
  lemma AnsweredInOrder(states: seq<System>, acts: seq<Action>, i: nat)
    requires IsRun(states, acts) && i < |states|
    ensures var s := states[i];
            && Messages(s.served) + s.queue == s.sent && |s.queue| <= 32
            && PastAgrees(s.past, s.sent)
            && (NothingLost(acts, i) ==> Messages(s.served) + s.queue == s.past.all)
  {
    hide Next, PastAgrees, Messages;
    SentIsServedAndQueued(states, acts, i);
    RunOnPast(states, acts, i);
  }

  /** The entry at position p of the log was added by this served message. */
  predicate AddsEntry(sv: Served, entry: Entry) {
    sv.response != Error && sv.message.req == AddToJournal(entry)
  }

  lemma {:induction false} LogEntryWasServed(served: seq<Served>, p: nat) returns (i: nat)
    requires p < |Log(served)|
    ensures i < |served| && AddsEntry(served[i], Log(served)[p]) && |Log(served[..i])| == p
    decreases |served|
  {
    var n := |served| - 1;
    var before := served[..n];
    if p < |Log(before)| {
      i := LogEntryWasServed(before, p);
      assert before[..i] == served[..i];
    } else {
      i := n;
    }
  }

  /** Exactly-one admission: in every reachable state, the journal table is the
      log of the entries added; every entry has a non-empty processed id and
      the sum of its kind of build, which is the true one exactly if a + b does
      not overflow, as a checked build ensures; and no two entries have the
      same id. */
  lemma JournalIsExact(states: seq<System>, acts: seq<Action>, i: nat)
    requires IsRun(states, acts) && i < |states|
    ensures var s := states[i]; var log := Log(s.served);
            && Represents(s.db, log)
            && (forall e :: e in log ==> e.id != "" && e.id in s.db.processedIds && e.c == WrapI32(e.a + e.b))
            && (forall e :: e in log ==> (e.a + e.b - e.c) % 0x1_0000_0000 == 0)
            && (forall e :: e in log ==> (e.c == e.a + e.b <==> FitsI32(e.a + e.b)) && (s.checked ==> e.c == e.a + e.b))
            && (forall p, q :: 0 <= p < q < |log| ==> log[p].id != log[q].id)
  {
    hide Next, Log, Represents, Inv, WrapI32, FitsI32;
    RunKeepsInv(states, acts, i);
    var s := states[i];
    var log := Log(s.served);
    LogIsTheJournal(s);
    forall e | e in log
      ensures e.id != "" && e.id in s.db.processedIds && e.c == WrapI32(e.a + e.b)
      ensures (e.a + e.b - e.c) % 0x1_0000_0000 == 0
      ensures (e.c == e.a + e.b <==> FitsI32(e.a + e.b)) && (s.checked ==> e.c == e.a + e.b)
    {
      var p :| 0 <= p < |log| && log[p] == e;
      var k := LogEntryWasServed(s.served, p);
      EntryIsJustified(s, k, e);
      AcceptedSum(s.checked, e.a, e.b, e.c);
    }
    forall p, q | 0 <= p < q < |log|
      ensures log[p].id != log[q].id
    {
      var k := LogEntryWasServed(s.served, p);
      var l := LogEntryWasServed(s.served, q);
      if log[p].id == log[q].id { EntriesHaveOneSender(s, k, l, log[p], log[q]); }
    }
  }

  lemma LogIsTheJournal(s: System)
    requires Inv(s)
    ensures Represents(s.db, Log(s.served))
  {
    ReplayRepresentsLog(s.served);
  }

  /** What an accepted sum is: a + b up to multiples of 2^32, and a + b itself
      if and only if that fits. */
  lemma AcceptedSum(checked: bool, a: i32, b: i32, c: i32)
    requires SumAccepted(checked, a, b, c)
    ensures c == WrapI32(a + b) && (a + b - c) % 0x1_0000_0000 == 0
    ensures (c == a + b <==> FitsI32(a + b)) && (checked ==> c == a + b)
  {
  }

  lemma EntryIsJustified(s: System, k: nat, e: Entry)
    requires Inv(s) && k < |s.served| && s.served[k].message.req == AddToJournal(e)
    ensures s.served[k].message in s.sent && Justified(s.checked, s.served, s.served[k].message)
    ensures e.id != "" && e.id in s.db.processedIds && SumAccepted(s.checked, e.a, e.b, e.c)
  {
    hide Replay;
    var m := s.served[k].message;
    assert Messages(s.served)[k] == m;
    assert Messages(s.served)[k] in s.sent;
    var i :| 0 <= i < |s.served| && s.served[i].message.from == m.from && IsUnique(s.served[i], e.id);
    ProcessedIffUniqueAnswer(s.served, e.id);
  }

  /** Two entries sent with one id would come from one client, which sends only one. */
  lemma EntriesHaveOneSender(s: System, k: nat, l: nat, e: Entry, f: Entry)
    requires Inv(s) && k < |s.served| && l < |s.served| && e.id == f.id
    requires s.served[k].message.req == AddToJournal(e) && s.served[l].message.req == AddToJournal(f)
    ensures k == l
  {
    hide Replay, Consistent;
    EntryIsJustified(s, k, e);
    EntryIsJustified(s, l, f);
    var m, n := s.served[k].message, s.served[l].message;
    var i :| 0 <= i < |s.served| && s.served[i].message.from == m.from && IsUnique(s.served[i], e.id);
    var j :| 0 <= j < |s.served| && s.served[j].message.from == n.from && IsUnique(s.served[j], f.id);
    if i < j { UniqueOnlyOnce(s.served, i, j, e.id); }
    if j < i { UniqueOnlyOnce(s.served, j, i, e.id); }
    assert s.sent[k] == Messages(s.served)[k] && s.sent[l] == Messages(s.served)[l];
  }

  /** At most one client is ever told that an id is unique, and only clients
      that were told so, with the right sum, are answered OK by way of an entry. */
  lemma OneUniqueAnswerPerId(states: seq<System>, acts: seq<Action>, i: nat, j: nat, k: nat, id: string)
    requires IsRun(states, acts) && i < |states|
    requires j < |states[i].served| && k < |states[i].served|
    requires IsUnique(states[i].served[j], id) && IsUnique(states[i].served[k], id)
    ensures j == k
  {
    hide Next, Replay;
    RunKeepsInv(states, acts, i);
    if j < k { UniqueOnlyOnce(states[i].served, j, k, id); }
    if k < j { UniqueOnlyOnce(states[i].served, k, j, id); }
  }

  /** Of all clients that ever come with an id, at most one is answered OK, and
      that one had the right sum. */
  lemma OneOkPerId(states: seq<System>, acts: seq<Action>, i: nat, c: nat, d: nat)
    requires IsRun(states, acts) && i < |states| && c in states[i].clients && d in states[i].clients
    requires states[i].clients[c].stage == Answered(OK) && states[i].clients[d].stage == Answered(OK)
    requires states[i].clients[c].req.id == states[i].clients[d].req.id
    ensures c == d && RightSum(states[i].checked, states[i].clients[c].req)
  {
    hide Next, Replay, Consistent;
    RunKeepsInv(states, acts, i);
    var s := states[i];
    var id := s.clients[c].req.id;
    assert StageAgrees(s, c) && StageAgrees(s, d);
    var j :| 0 <= j < |s.served| && s.served[j] == Served(Message(Some(c), CheckAndStoreId(id)), Unique);
    var k :| 0 <= k < |s.served| && s.served[k] == Served(Message(Some(d), CheckAndStoreId(id)), Unique);
    OneUniqueAnswerPerId(states, acts, i, j, k, id);
  }

  lemma {:induction false} ServedEntryIsLogged(served: seq<Served>, k: nat, e: Entry)
    requires k < |served| && AddsEntry(served[k], e)
    ensures e in Log(served)
    decreases |served|
  {
    var n := |served| - 1;
    if k < n {
      ServedEntryIsLogged(served[..n], k, e);
    } else {
      assert Log(served)[|Log(served[..n])|] == e;
    }
  }

  /** OK does not promise a journal entry: there is one with the client's id if
      and only if the client's own request for it was served and not by an
      error. It was served at all if the worker never stopped. */
  lemma OkIsJournaledExactly(states: seq<System>, acts: seq<Action>, i: nat, c: nat)
    requires IsRun(states, acts) && i < |states| && c in states[i].clients
    requires states[i].clients[c].stage == Answered(OK)
    ensures var s := states[i]; var req := s.clients[c].req;
            && ((exists e :: e in Log(s.served) && e.id == req.id)
                <==> exists k ::
                       0 <= k < |s.served| && IsAddOf(s.served[k].message, c, req) && s.served[k].response != Error)
            && (s.stopped || exists k :: 0 <= k < |s.served| && IsAddOf(s.served[k].message, c, req))
  {
    hide Next, Log, Replay, Consistent;
    RunKeepsInv(states, acts, i);
    var s := states[i];
    var req := s.clients[c].req;
    assert StageAgrees(s, c);
    assert s.stopped || AddWasServed(s, c);
    if k :| 0 <= k < |s.served| && IsAddOf(s.served[k].message, c, req) && s.served[k].response != Error {
      ServedEntryIsLogged(s.served, k, s.served[k].message.req.entry);
    }
    if p: nat :| p < |Log(s.served)| && Log(s.served)[p].id == req.id {
      var l := LogEntryWasServed(s.served, p);
      EntryIsOwn(s, c, l, Log(s.served)[p]);
    }
  }

  /** Who was told that an id is unique is the only one to send an entry for it. */
  lemma EntryIsOwn(s: System, c: nat, l: nat, e: Entry)
    requires Inv(s) && c in s.clients && WasTold(s, c, Unique)
    requires l < |s.served| && s.served[l].message.req == AddToJournal(e) && e.id == s.clients[c].req.id
    ensures IsAddOf(s.served[l].message, c, s.clients[c].req)
  {
    hide Replay, Consistent;
    EntryIsJustified(s, l, e);
    var i :| 0 <= i < |s.served| && s.served[i].message.from == s.served[l].message.from && IsUnique(s.served[i], e.id);
    var j :| 0 <= j < |s.served| && s.served[j] == Served(Message(Some(c), CheckAndStoreId(e.id)), Unique);
    if i < j { UniqueOnlyOnce(s.served, i, j, e.id); }
    if j < i { UniqueOnlyOnce(s.served, j, i, e.id); }
    assert OwnMessage(s, s.served[l].message);
  }

  lemma NothingLogged(served: seq<Served>)
    requires forall i :: 0 <= i < |served| ==> served[i].response == Error || !served[i].message.req.AddToJournal?
    ensures Log(served) == []
  {
    if Log(served) != [] { var _ := LogEntryWasServed(served, 0); }
  }

  lemma ExtendRun(states: seq<System>, acts: seq<Action>, a: Action, s: System)
    requires IsRun(states, acts) && Next(states[|acts|], a, s)
    ensures IsRun(states + [s], acts + [a])
  {
    hide Next;
    forall i | 0 <= i < |acts| + 1
      ensures Next((states + [s])[i], (acts + [a])[i], (states + [s])[i + 1])
    {
      if i < |acts| { assert Next(states[i], acts[i], states[i + 1]); }
    }
  }

  /** A state with one client and one check, answered Unique. */
  function Told(req: SumRequest, checked: bool, stage: Stage): System {
    var check := Message(Some(0), CheckAndStoreId(req.id));
    System(EMPTY_DB.(processedIds := {req.id}), [], map[0 := Client(req, stage, Some(Unique))],
           [check], [Served(check, Unique)], checked, true, false, Past([check], [0]))
  }

  /** A first client is told that its id is unique. */
  lemma FirstClientTold(req: SumRequest, checked: bool) returns (states: seq<System>, acts: seq<Action>)
    requires req.id != ""
    ensures IsRun(states, acts) && |acts| == 3 && states[0].checked == checked
    ensures states[3] == Told(req, checked, Checked(Unique))
  {
    var check := Message(Some(0), CheckAndStoreId(req.id));
    var s0 := Initial(checked);
    var s1 := s0.(clients := map[0 := Client(req, Arrived, None)]);
    var s2 := Send(s0.(clients := map[0 := Client(req, AwaitingCheck, None)]), check);
    var s3 := Told(req, checked, Checked(Unique));
    states, acts := [s0], [];
    ExtendRun(states, acts, Arrive(0, req), s1);
    ExtendRun([s0, s1], [Arrive(0, req)], Check(0), s2);
    assert Next(s2, Serve(false), s3);
    hide Next;
    ExtendRun([s0, s1, s2], [Arrive(0, req), Check(0)], Serve(false), s3);
    states, acts := [s0, s1, s2] + [s3], [Arrive(0, req), Check(0)] + [Serve(false)];
  }

  function AddOf(req: SumRequest): Message {
    Message(Some(0), AddToJournal(Entry(req.id, req.a, req.b, req.c, 0)))
  }

  /** It is answered OK whether its request for the entry fails or not. */
  lemma FirstClientServed(req: SumRequest, checked: bool, fails: bool) returns (states: seq<System>, acts: seq<Action>)
    requires req.id != "" && RightSum(checked, req)
    ensures IsRun(states, acts) && |acts| == 5 && states[0].checked == checked
    ensures 0 in states[5].clients && states[5].clients[0] == Client(req, Answered(OK), Some(Unique))
    ensures !states[5].stopped
    ensures states[5].served == Told(req, checked, AwaitingAdd).served
            + [Served(AddOf(req), if fails then Error else Added)]
  {
    states, acts := FirstClientTold(req, checked);
    var s3 := states[3];
    var s4 := Send(Told(req, checked, AwaitingAdd), AddOf(req));
    var (db, response) := if fails then (s4.db, Error) else Handle(s4.db, AddOf(req).req);
    var s5 := s4.(db := db, queue := [], clients := map[0 := Client(req, Answered(OK), Some(Unique))],
                  served := s4.served + [Served(AddOf(req), response)]);
    assert Next(s3, Continue(0, 0), s4) && Next(s4, Serve(fails), s5);
    hide Next;
    ExtendRun(states, acts, Continue(0, 0), s4);
    ExtendRun(states + [s4], acts + [Continue(0, 0)], Serve(fails), s5);
    states, acts := states + [s4] + [s5], acts + [Continue(0, 0)] + [Serve(fails)];
  }

  /** An OK without an entry: the request for it fails, and there is no journal. */
  lemma OkWithoutEntry(req: SumRequest, checked: bool) returns (states: seq<System>, acts: seq<Action>)
    requires req.id != "" && RightSum(checked, req)
    ensures IsRun(states, acts) && |acts| == 5 && states[0].checked == checked
    ensures 0 in states[5].clients && states[5].clients[0] == Client(req, Answered(OK), Some(Unique))
    ensures Log(states[5].served) == []
  {
    hide Next, Log;
    states, acts := FirstClientServed(req, checked, true);
    NothingLogged(states[5].served);
  }

  /** An OK without even an answer: the worker stops first. */
  lemma OkAfterStop(req: SumRequest, checked: bool) returns (states: seq<System>, acts: seq<Action>)
    requires req.id != "" && RightSum(checked, req)
    ensures IsRun(states, acts) && |acts| == 5 && states[0].checked == checked
    ensures 0 in states[5].clients && states[5].clients[0] == Client(req, Answered(OK), Some(Unique))
    ensures states[5].sent == Told(req, checked, AwaitingAdd).sent
  {
    states, acts := FirstClientTold(req, checked);
    var s3 := states[3];
    var s4 := s3.(alive := false, stopped := true);
    var s5 := s4.(clients := map[0 := Client(req, Answered(OK), Some(Unique))]);
    assert Messages(s3.served) == s3.sent;
    assert s4.clients == map c | c in s3.clients :: GiveUp(s3.clients[c]);
    assert Next(s3, Stop(false), s4) && Next(s4, Continue(0, 0), s5);
    hide Next;
    ExtendRun(states, acts, Stop(false), s4);
    ExtendRun(states + [s4], acts + [Stop(false)], Continue(0, 0), s5);
    states, acts := states + [s4] + [s5], acts + [Stop(false)] + [Continue(0, 0)];
  }

  /** Without overflow checks a wrong sum is journaled: whenever a + b does not
      fit and c is what it wraps to. */
  lemma WrappedSumIsJournaled(req: SumRequest) returns (states: seq<System>, acts: seq<Action>, e: Entry)
    requires req.id != "" && !FitsI32(req.a + req.b) && req.c == WrapI32(req.a + req.b)
    ensures IsRun(states, acts) && |acts| == 5 && !states[0].checked
    ensures e in Log(states[5].served) && e.id == req.id && e.c != e.a + e.b
  {
    hide Next, Log;
    states, acts := FirstClientServed(req, false, false);
    e := AddOf(req).req.entry;
    ServedEntryIsLogged(states[5].served, 1, e);
  }

  /** A Conflict is never a mistake: another client had been told, before, that
      the same id was unique. */
  lemma ConflictIsJustified(states: seq<System>, acts: seq<Action>, i: nat, c: nat)
    requires IsRun(states, acts) && i < |states| && c in states[i].clients
    requires states[i].clients[c].stage == Answered(Conflict)
    ensures var served, id := states[i].served, states[i].clients[c].req.id;
            exists j, k :: 0 <= j < k < |served| && IsUnique(served[j], id) && served[j].message.from != Some(c)
                           && served[k] == Served(Message(Some(c), CheckAndStoreId(id)), Duplicate)
  {
    hide Next, Replay;
    RunKeepsInv(states, acts, i);
    var s := states[i];
    var id := s.clients[c].req.id;
    assert StageAgrees(s, c);
    var k :| 0 <= k < |s.served| && s.served[k] == Served(Message(Some(c), CheckAndStoreId(id)), Duplicate);
    DuplicateHasPredecessor(s.served, k, id);
    var j :| 0 <= j < k && IsUnique(s.served[j], id);
    assert s.sent[j] == Messages(s.served)[j] && s.sent[k] == Messages(s.served)[k];
  }

  lemma DuplicateHasPredecessor(served: seq<Served>, k: nat, id: string)
    requires Consistent(served) && k < |served|
    requires served[k].response == Duplicate && served[k].message.req == CheckAndStoreId(id)
    ensures exists j :: 0 <= j < k && IsUnique(served[j], id)
  {
    hide Replay;
    var before := served[..k];
    assert Consistent(before) by {
      assert forall l :: 0 <= l < k ==> before[..l] == served[..l];
    }
    ProcessedIffUniqueAnswer(before, id);
    var j :| 0 <= j < k && IsUnique(before[j], id);
    assert IsUnique(served[j], id);
  }

  /** Reads agree with the log of their moment: a journal read that is answered
      gets the last entries appended before it was served, in order: at most
      100, at most as many as it asks for, and fewer than both only if there
      are no more. */
  lemma ReadsAgreeWithLog(states: seq<System>, acts: seq<Action>, i: nat, j: nat, n: nat)
    requires IsRun(states, acts) && i < |states| && j < |states[i].served|
    requires states[i].served[j].message.req == GetJournal(n)
    ensures var response := states[i].served[j].response;
            var log := Log(states[i].served[..j]);
            || response == Error
            || (&& log != [] && response.Journal?
                && |response.entries| <= |log| && response.entries == log[|log| - |response.entries|..]
                && |response.entries| <= n && |response.entries| <= 100
                && (|response.entries| == n || |response.entries| == 100 || response.entries == log))
  {
    hide Next, Log, Represents;
    RunKeepsInv(states, acts, i);
    var served := states[i].served;
    assert served[j].response == Error || served[j].response == Handle(Replay(served[..j]), GetJournal(n)).1;
    ReplayRepresentsLog(served[..j]);
    hide Handle, Inv;
    JournalAnswer(Replay(served[..j]), Log(served[..j]), n);
  }

  // ----- The worker's queue, as a piece of this history --------------------

  /** A queue of messages with the answers the worker loop gave them. */
  function Zip(messages: seq<Message>, responses: seq<Response>): seq<Served>
    requires |messages| == |responses|
  {
    seq(|messages|, i requires 0 <= i < |messages| => Served(messages[i], responses[i]))
  }

  function Requests(messages: seq<Message>): seq<Request> {
    seq(|messages|, i requires 0 <= i < |messages| => messages[i].req)
  }

  /** What the worker loop answers is consistent, and its databases are the
      replay of it. */
  lemma {:induction false} QueueIsConsistent(messages: seq<Message>, responses: seq<Response>, dbs: seq<Db>)
    requires OneByOne(dbs, Requests(messages), responses) && dbs[0] == EMPTY_DB
    ensures Consistent(Zip(messages, responses))
    ensures Replay(Zip(messages, responses)) == dbs[|messages|]
    decreases |messages|
  {
    if messages != [] {
      var n := |messages| - 1;
      var m, r, db := messages[n], responses[n], dbs[n];
      assert Requests(messages)[..n] == Requests(messages[..n]);
      assert (dbs[n + 1], r) == Handle(db, Requests(messages)[n]);
      QueueIsConsistent(messages[..n], responses[..n], dbs[..n + 1]);
      var before := Zip(messages[..n], responses[..n]);
      assert Zip(messages, responses) == before + [Served(m, r)];
      hide Handle, Consistent, Replay;
      ConsistentExtend(before, Served(m, r));
      ErrorHasNoEffect(db, m.req);
    }
  }
}
