/** The journal database: its tables, its three request handlers, and the single
    worker thread that serves a queue of requests against it. */
module SumsDatabase {

  const DEFAULT_REQUEST_SIZE: nat := 10
  const MAX_REQUEST_SIZE: nat := 100

  type i32 = x: int | -0x8000_0000 <= x < 0x8000_0000

  datatype Option<T> = None | Some(value: T)

  datatype Entry = Entry(id: string, a: i32, b: i32, c: i32, timestampUs: nat)

  /** The tables. `idx` is the meta entry; it is None as long as the two journal
      tables do not exist, since the first write that opens them also sets it. */
  datatype Db = Db(processedIds: set<string>, journal: map<nat, Entry>, idx: Option<nat>)

  const EMPTY_DB := Db({}, map[], None)

  datatype Request =
    | CheckAndStoreId(id: string)
    | AddToJournal(entry: Entry)
    | GetJournal(n: nat)

  datatype Response =
    | Unique
    | Duplicate
    | Added
    | Journal(entries: seq<Entry>)
    | Error

  function Min(a: nat, b: nat): (m: nat)
    ensures m <= a && m <= b && (m == a || m == b)
  {
    if a < b then a else b
  }

  /** The entries with keys lo, ..., hi-1 that are there, in key order. */
  function Window(journal: map<nat, Entry>, lo: nat, hi: nat): seq<Entry>
    requires lo <= hi
    decreases hi
  {
    if lo == hi then []
    else Window(journal, lo, hi - 1) + (if hi - 1 in journal then [journal[hi - 1]] else [])
  }

  /** One request, handled in one transaction. */
  function Handle(db: Db, req: Request): (Db, Response) {
    match req
    case CheckAndStoreId(id) =>
      if id in db.processedIds then (db, Duplicate)
      else (db.(processedIds := db.processedIds + {id}), Unique)
    case AddToJournal(entry) =>
      var idx := if db.idx.Some? then db.idx.value else 0;
      (db.(journal := db.journal[idx := entry], idx := Some(idx + 1)), Added)
    case GetJournal(n) =>
      if db.idx.None? then (db, Error)
      else
        var size := Min(Min(n, db.idx.value), MAX_REQUEST_SIZE);
        (db, Journal(Window(db.journal, db.idx.value - size, db.idx.value)))
  }

  class Database {
    var processedIds: set<string>
    var journal: map<nat, Entry>
    var idx: Option<nat>

    ghost function View(): Db
      reads this
    {
      Db(processedIds, journal, idx)
    }

    constructor ()
      ensures View() == EMPTY_DB
    {
      processedIds, journal, idx := {}, map[], None;
    }

    method HandleCheckAndStoreId(id: string) returns (r: Response)
      modifies this
      ensures (View(), r) == Handle(old(View()), CheckAndStoreId(id))
    {
      if id in processedIds {
        return Duplicate;
      }
      processedIds := processedIds + {id};
      r := Unique;
    }

    method HandleAddToJournal(entry: Entry) returns (r: Response)
      modifies this
      ensures (View(), r) == Handle(old(View()), AddToJournal(entry))
    {
      var i := if idx.Some? then idx.value else 0;
      journal := journal[i := entry];
      idx := Some(i + 1);
      r := Added;
    }

    method HandleGetJournal(n: nat) returns (r: Response)
      ensures (View(), r) == Handle(View(), GetJournal(n))
    {
      if idx.None? {
        return Error;
      }
      var result: seq<Entry> := [];
      var size := Min(Min(n, idx.value), MAX_REQUEST_SIZE);
      var i0 := idx.value - size;
      for i := 0 to size
        invariant result == Window(journal, i0, i0 + i)
      {
        if i0 + i in journal {
          result := result + [journal[i0 + i]];
        }
      }
      r := Journal(result);
    }

    method HandleRequest(req: Request) returns (r: Response)
      modifies this
      ensures (View(), r) == Handle(old(View()), req)
    {
      match req
      case CheckAndStoreId(id) => r := HandleCheckAndStoreId(id);
      case AddToJournal(entry) => r := HandleAddToJournal(entry);
      case GetJournal(n) => r := HandleGetJournal(n);
    }

    /** The worker thread: receives until the channel is empty and closed,
        answering every request before it looks at the next. `dbs` are the
        databases before, between and after the requests. */
    method ServeQueue(requests: seq<Request>) returns (responses: seq<Response>, ghost dbs: seq<Db>)
      modifies this
      ensures |dbs| == |requests| + 1 && dbs[0] == old(View()) && dbs[|requests|] == View()
      ensures |responses| == |requests|
      ensures forall i :: 0 <= i < |requests| ==> (dbs[i + 1], responses[i]) == Handle(dbs[i], requests[i])
    {
      responses, dbs := [], [View()];
      var i := 0;
      while i < |requests|
        invariant 0 <= i <= |requests| && |dbs| == i + 1 && |responses| == i
        invariant dbs[0] == old(View()) && dbs[i] == View()
        invariant forall j :: 0 <= j < i ==> (dbs[j + 1], responses[j]) == Handle(dbs[j], requests[j])
      {
        hide Handle;
        var r := HandleRequest(requests[i]);
        responses, dbs := responses + [r], dbs + [View()];
        i := i + 1;
      }
    }
  }

  // ----- The journal table represents an append-only log -----------------

  /** The journal keys are exactly 0, ..., idx-1, holding the log in order. */
  ghost predicate Represents(db: Db, log: seq<Entry>) {
    && db.idx == (if log == [] then None else Some(|log|))
    && (forall k: nat :: k in db.journal <==> k < |log|)
    && (forall k :: 0 <= k < |log| ==> db.journal[k] == log[k])
  }

  function Last(log: seq<Entry>, n: nat): seq<Entry> {
    log[|log| - Min(n, |log|)..]
  }

  lemma AddAppends(db: Db, log: seq<Entry>, entry: Entry)
    requires Represents(db, log)
    ensures Represents(Handle(db, AddToJournal(entry)).0, log + [entry])
  {
  }

  lemma {:induction false} WindowIsSlice(db: Db, log: seq<Entry>, lo: nat, hi: nat)
    requires Represents(db, log) && lo <= hi <= |log|
    ensures Window(db.journal, lo, hi) == log[lo..hi]
    decreases hi
  {
    if lo < hi {
      WindowIsSlice(db, log, lo, hi - 1);
      assert log[lo..hi] == log[lo..hi - 1] + [log[hi - 1]];
    }
  }

  /** `GetJournal(n)` answers with the last min(n, idx, 100) appended entries in
      the order of appending; before the first entry it is an error. */
  lemma GetJournalReturnsLast(db: Db, log: seq<Entry>, n: nat)
    requires Represents(db, log)
    ensures Handle(db, GetJournal(n)) == (db, if log == [] then Error else Journal(Last(log, Min(n, MAX_REQUEST_SIZE))))
  {
    if log != [] {
      var size := Min(Min(n, |log|), MAX_REQUEST_SIZE);
      WindowIsSlice(db, log, |log| - size, |log|);
      assert log[..|log|] == log;
      assert log[|log| - size..|log|] == log[|log| - size..];
    }
  }

  /** The answer, spelled out: the last entries of the log in order, at most as
      many as asked for and at most 100, and fewer than both only if that is
      the whole log. */
  lemma JournalAnswer(db: Db, log: seq<Entry>, n: nat)
    requires Represents(db, log)
    ensures log == [] <==> Handle(db, GetJournal(n)).1 == Error
    ensures var response := Handle(db, GetJournal(n)).1;
            log != [] ==>
              && response.Journal?
              && |response.entries| <= |log| && response.entries == log[|log| - |response.entries|..]
              && |response.entries| <= n && |response.entries| <= 100
              && (|response.entries| == n || |response.entries| == 100 || response.entries == log)
  {
    GetJournalReturnsLast(db, log, n);
    hide Handle, Represents;
    if log != [] {
      var size := Min(Min(n, MAX_REQUEST_SIZE), |log|);
      assert |Last(log, Min(n, MAX_REQUEST_SIZE))| == size;
      if size == |log| { assert log[0..] == log; }
    }
  }

  /** What the page handler shows: the default size is 10, and an error is an
      empty page. */
  function JournalPage(db: Db, n: Option<nat>): seq<Entry> {
    match Handle(db, GetJournal(if n.Some? then n.value else DEFAULT_REQUEST_SIZE)).1
    case Journal(entries) => entries
    case _ => []
  }

  lemma JournalPageIsRecent(db: Db, log: seq<Entry>, n: Option<nat>)
    requires Represents(db, log)
    ensures var page, size := JournalPage(db, n), if n == None then 10 else n.value;
            && |page| <= |log| && page == log[|log| - |page|..]
            && |page| <= size && |page| <= 100 && (|page| == size || |page| == 100 || page == log)
  {
    hide Handle, Represents;
    JournalAnswer(db, log, if n.Some? then n.value else DEFAULT_REQUEST_SIZE);
    assert log[|log|..] == [];
  }

  // ----- What the worker answers, in terms of the requests alone ----------

  /** The entries that some requests add, in order. */
  function Entries(requests: seq<Request>): seq<Entry> {
    if requests == [] then []
    else
      var last := requests[|requests| - 1];
      Entries(requests[..|requests| - 1]) + (if last.AddToJournal? then [last.entry] else [])
  }

  ghost predicate OneByOne(dbs: seq<Db>, requests: seq<Request>, responses: seq<Response>) {
    && |dbs| == |requests| + 1 && |responses| == |requests|
    && forall i :: 0 <= i < |requests| ==> (dbs[i + 1], responses[i]) == Handle(dbs[i], requests[i])
  }

  lemma {:induction false} DatabaseAfter(dbs: seq<Db>, requests: seq<Request>, responses: seq<Response>, i: nat,
                                         id: string)
    requires OneByOne(dbs, requests, responses) && dbs[0] == EMPTY_DB && i <= |requests|
    ensures Represents(dbs[i], Entries(requests[..i]))
    ensures id in dbs[i].processedIds <==> exists j :: 0 <= j < i && requests[j] == CheckAndStoreId(id)
    decreases i
  {
    if i > 0 {
      var db, req := dbs[i - 1], requests[i - 1];
      DatabaseAfter(dbs, requests, responses, i - 1, id);
      assert requests[..i] == requests[..i - 1] + [req];
      assert dbs[i - 1 + 1] == Handle(db, req).0;
      if req.AddToJournal? {
        AddAppends(db, Entries(requests[..i - 1]), req.entry);
      } else {
        assert Handle(db, req).0.journal == db.journal && Handle(db, req).0.idx == db.idx;
      }
    }
  }

  /** Started on an empty database, the worker answers request i by what the
      requests before it were: an id is unique exactly the first time it
      comes, an entry is added, and a read gets the last entries added. */
  lemma QueueAnswers(dbs: seq<Db>, requests: seq<Request>, responses: seq<Response>, i: nat)
    requires |dbs| == |requests| + 1 && |responses| == |requests| && dbs[0] == EMPTY_DB
    requires forall j :: 0 <= j < |requests| ==> (dbs[j + 1], responses[j]) == Handle(dbs[j], requests[j])
    requires i < |requests|
    ensures match requests[i]
            case CheckAndStoreId(id) =>
              responses[i] == if exists j :: 0 <= j < i && requests[j] == CheckAndStoreId(id) then Duplicate else Unique
            case AddToJournal(_) => responses[i] == Added
            case GetJournal(n) =>
              var log := Entries(requests[..i]);
              if log == [] then responses[i] == Error
              else
                && responses[i].Journal?
                && var entries := responses[i].entries;
                   && |entries| <= |log| && entries == log[|log| - |entries|..]
                   && |entries| <= n && |entries| <= 100 && (|entries| == n || |entries| == 100 || entries == log)
  {
    assert OneByOne(dbs, requests, responses);
    assert (dbs[i + 1], responses[i]) == Handle(dbs[i], requests[i]);
    match requests[i]
    case CheckAndStoreId(id) => DatabaseAfter(dbs, requests, responses, i, id);
    case AddToJournal(_) =>
    case GetJournal(n) =>
      DatabaseAfter(dbs, requests, responses, i, "");
      JournalAnswer(dbs[i], Entries(requests[..i]), n);
  }
}
