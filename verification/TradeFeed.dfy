/** The feed that turns trade messages into stored trades, request by request,
    while readers look at the tables at any moment. A request may fail, and the
    process may restart, between any two requests; the message being handled
    is then cut short. */
module TradeFeed {
  import opened TradeIds
  import opened TradeDatabase

  type Row = seq<string>

  /** The trade made from a row with enough fields, under an index drawn for it. */
  function MakeTrade(row: Row, pair: string, index: nat): Trade
    requires |row| >= 5
  {
    Trade(TradeId(index, row[0]), row[0], row[1], row[2], row[3], row[4], if |row| > 5 then row[5] else "", pair)
  }

  datatype Phase =
    | NeedCounter
    | NeedCheck(index: nat)
    | NeedStoreId(index: nat)

  datatype Feeder =
    | Idle
    | Working(rows: seq<Row>, pair: string, j: nat, batch: seq<(Trade, nat)>, phase: Phase)

  /** `issued` is the history of the trades made, one for each index ever drawn;
      `cut` says whether a message was cut short after it had drawn an index. */
  datatype System = System(db: Db, feeder: Feeder, issued: seq<Trade>, cut: bool)

  const INITIAL := System(Db(map[], map[], 0), Idle, [], false)

  datatype Action =
    | Receive(rows: seq<Row>, pair: string)
    | Advance
    | Fail
    | Restart

  /** The next request of the message, or the step from one row to the next. */
  function AdvanceStep(s: System): System
    requires s.feeder.Working? && s.feeder.j <= |s.feeder.rows|
    requires s.feeder.phase != NeedCounter ==> s.feeder.j < |s.feeder.rows| && |s.feeder.rows[s.feeder.j]| >= 5
  {
    var f := s.feeder;
    match f.phase
    case NeedCounter =>
      if f.j == |f.rows| then
        if f.batch == [] then s.(feeder := Idle)
        else s.(db := StoreBatch(s.db, f.batch), feeder := Idle)
      else if |f.rows[f.j]| < 5 then s.(feeder := f.(j := f.j + 1))
      else
        var index := s.db.total + 1;
        s.(db := s.db.(total := index),
           feeder := f.(phase := NeedCheck(index)),
           issued := s.issued + [MakeTrade(f.rows[f.j], f.pair, index)])
    case NeedCheck(index) =>
      if TradeId(index, f.rows[f.j][0]) in s.db.tradeIds then s.(feeder := f.(j := f.j + 1, phase := NeedCounter))
      else s.(feeder := f.(phase := NeedStoreId(index)))
    case NeedStoreId(index) =>
      var trade := MakeTrade(f.rows[f.j], f.pair, index);
      s.(db := s.db.(tradeIds := s.db.tradeIds[trade.id := index]),
         feeder := f.(j := f.j + 1, batch := f.batch + [(trade, index)], phase := NeedCounter))
  }

  /** Indexes drawn by the message being handled, not stored yet. */
  function Drawn(f: Feeder): nat {
    if f.Idle? then 0 else |f.batch| + (if f.phase.NeedCounter? then 0 else 1)
  }

  function CutShort(s: System): System {
    s.(feeder := Idle, cut := s.cut || Drawn(s.feeder) > 0)
  }

  ghost predicate Next(s: System, a: Action, s': System) {
    match a
    case Receive(rows, pair) => s.feeder.Idle? && s' == s.(feeder := Working(rows, pair, 0, [], NeedCounter))
    case Advance =>
      && s.feeder.Working? && s.feeder.j <= |s.feeder.rows|
      && (s.feeder.phase != NeedCounter ==> s.feeder.j < |s.feeder.rows| && |s.feeder.rows[s.feeder.j]| >= 5)
      && s' == AdvanceStep(s)
    case Fail => s.feeder.Working? && s' == CutShort(s)
    case Restart => s' == CutShort(s)
  }

  /** All indexes up to here belong to messages that are over. */
  function Base(s: System): int {
    s.db.total - Drawn(s.feeder)
  }

  // ----- The inductive invariant -----------------------------------------

  ghost predicate IssuedOk(issued: seq<Trade>) {
    forall k :: 0 <= k < |issued| ==> issued[k].id == TradeId(k + 1, issued[k].price)
  }

  /** The tables hold nothing but issued trades, and agree with each other. */
  ghost predicate TablesOk(db: Db, issued: seq<Trade>, base: int) {
    && db.total == |issued| && 0 <= base <= db.total
    && IssuedOk(issued)
    && (forall id :: id in db.tradeIds ==> 1 <= db.tradeIds[id] <= db.total && issued[db.tradeIds[id] - 1].id == id)
    && (forall k :: k in db.trades ==> 1 <= k <= base && StoredAs(db, k, issued[k - 1]))
  }

  /** The trade is stored at k, under its id and under its index. */
  predicate StoredAs(db: Db, k: nat, trade: Trade) {
    k in db.trades && db.trades[k] == trade && HasId(db, k, trade)
  }

  predicate HasId(db: Db, k: nat, trade: Trade) {
    trade.id in db.tradeIds && db.tradeIds[trade.id] == k
  }

  /** Batch entry i is the i-th trade issued after `base`, and its id is stored. */
  predicate BatchEntryOk(db: Db, issued: seq<Trade>, base: int, batch: seq<(Trade, nat)>, i: int)
    requires 0 <= i < |batch|
  {
    && 0 <= base + i < |issued|
    && batch[i] == (issued[base + i], base + i + 1) && HasId(db, base + i + 1, issued[base + i])
  }

  ghost predicate FeederOk(s: System)
    requires 0 <= Base(s) && s.db.total == |s.issued|
  {
    var f := s.feeder;
    f.Working? ==>
      && f.j <= |f.rows|
      && (forall i :: 0 <= i < |f.batch| ==> BatchEntryOk(s.db, s.issued, Base(s), f.batch, i))
      && (f.phase != NeedCounter ==>
            && f.phase.index == s.db.total
            && f.j < |f.rows| && |f.rows[f.j]| >= 5
            && s.issued[s.db.total - 1] == MakeTrade(f.rows[f.j], f.pair, s.db.total)
            && s.issued[s.db.total - 1].id !in s.db.tradeIds)
  }

  /** Every index of a finished message is stored. */
  predicate NoGap(db: Db, base: int) {
    forall k: nat :: 1 <= k <= base ==> k in db.trades
  }

  ghost predicate Inv(s: System) {
    && TablesOk(s.db, s.issued, Base(s))
    && FeederOk(s)
    && (s.cut <==> !NoGap(s.db, Base(s)))
  }

  /** A freshly drawn index gives an id that is not in the table. */
  lemma FreshIdIsNew(db: Db, issued: seq<Trade>, base: int, index: nat, price: string)
    requires TablesOk(db, issued, base) && index > db.total
    ensures TradeId(index, price) !in db.tradeIds
  {
    var id := TradeId(index, price);
    if id in db.tradeIds {
      var k := db.tradeIds[id];
      assert issued[k - 1].id == TradeId(k - 1 + 1, issued[k - 1].price);
      TradeIdInjective(index, price, k, issued[k - 1].price);
    }
  }

  lemma TablesKeep(db: Db, issued: seq<Trade>, base: int, db': Db, trade: Trade)
    requires TablesOk(db, issued, base)
    requires db' == db.(total := db.total + 1) && trade.id == TradeId(db.total + 1, trade.price)
    ensures TablesOk(db', issued + [trade], base)
  {
    hide TradeId;
    forall k | k in db'.trades
      ensures 1 <= k <= base && StoredAs(db', k, (issued + [trade])[k - 1])
    {
      assert StoredAs(db, k, issued[k - 1]);
    }
  }

  lemma DrawKeepsInv(s: System, s': System)
    requires Inv(s) && Next(s, Advance, s') && s.feeder.phase == NeedCounter
    requires s.feeder.j < |s.feeder.rows| && |s.feeder.rows[s.feeder.j]| >= 5
    ensures Inv(s') && Base(s') == Base(s)
  {
    var f := s.feeder;
    FreshIdIsNew(s.db, s.issued, Base(s), s.db.total + 1, f.rows[f.j][0]);
    TablesKeep(s.db, s.issued, Base(s), s'.db, MakeTrade(f.rows[f.j], f.pair, s.db.total + 1));
    hide TradeId, TablesOk;
    forall i | 0 <= i < |s'.feeder.batch|
      ensures BatchEntryOk(s'.db, s'.issued, Base(s'), s'.feeder.batch, i)
    {
      assert BatchEntryOk(s.db, s.issued, Base(s), f.batch, i);
    }
  }

  lemma StoreIdKeepsTables(db: Db, issued: seq<Trade>, base: int, trade: Trade)
    requires TablesOk(db, issued, base) && db.total > 0 && trade == issued[db.total - 1] && trade.id !in db.tradeIds
    ensures var db' := db.(tradeIds := db.tradeIds[trade.id := db.total]);
            && TablesOk(db', issued, base)
            && HasId(db', db.total, trade)
            && forall k: nat, t: Trade :: HasId(db, k, t) ==> HasId(db', k, t)
  {
    hide TradeId;
    var db' := db.(tradeIds := db.tradeIds[trade.id := db.total]);
    forall k | k in db'.trades
      ensures 1 <= k <= base && StoredAs(db', k, issued[k - 1])
    {
      assert StoredAs(db, k, issued[k - 1]);
    }
  }

  lemma CheckKeepsInv(s: System, s': System)
    requires Inv(s) && Next(s, Advance, s') && s.feeder.phase.NeedCheck?
    ensures Inv(s') && Base(s') == Base(s)
  {
    hide TradeId, TablesOk, BatchEntryOk, NoGap;
  }

  lemma BatchGrows(db: Db, db': Db, issued: seq<Trade>, base: int, batch: seq<(Trade, nat)>, trade: Trade)
    requires 0 <= base && base + |batch| + 1 == |issued| && trade == issued[|issued| - 1]
    requires forall i :: 0 <= i < |batch| ==> BatchEntryOk(db, issued, base, batch, i)
    requires forall k: nat, t: Trade :: HasId(db, k, t) ==> HasId(db', k, t)
    requires HasId(db', |issued|, trade)
    ensures var batch' := batch + [(trade, |issued|)];
            forall i :: 0 <= i < |batch'| ==> BatchEntryOk(db', issued, base, batch', i)
  {
    hide HasId;
    var batch' := batch + [(trade, |issued|)];
    forall i | 0 <= i < |batch'|
      ensures BatchEntryOk(db', issued, base, batch', i)
    {
      if i < |batch| { assert BatchEntryOk(db, issued, base, batch, i); }
    }
  }

  lemma StoreIdKeepsInv(s: System, s': System)
    requires Inv(s) && Next(s, Advance, s') && s.feeder.phase.NeedStoreId?
    ensures Inv(s') && Base(s') == Base(s)
  {
    assert 0 <= Base(s) <= s.db.total == |s.issued|;
    var trade := s.issued[s.db.total - 1];
    StoreIdKeepsTables(s.db, s.issued, Base(s), trade);
    hide TradeId, TablesOk, HasId, NoGap;
    BatchGrows(s.db, s'.db, s.issued, Base(s), s.feeder.batch, trade);
    hide BatchEntryOk;
  }

  /** The tables' trades are those of `before`, and the n issued after `base`. */
  ghost predicate StoredOver(before: map<nat, Trade>, after: map<nat, Trade>, issued: seq<Trade>, base: nat, n: nat)
    requires base + n <= |issued|
  {
    && (forall k: nat :: k in after <==> k in before || base < k <= base + n)
    && (forall k: nat :: k in after ==> after[k] == if base < k <= base + n then issued[k - 1] else before[k])
  }

  lemma StoredOverMore(before: map<nat, Trade>, after: map<nat, Trade>, issued: seq<Trade>, base: nat, n: nat)
    requires base + n < |issued| && StoredOver(before, after, issued, base, n)
    ensures StoredOver(before, after[base + n + 1 := issued[base + n]], issued, base, n + 1)
  {
  }

  lemma NoBatch(db: Db, issued: seq<Trade>, base: nat)
    requires base <= |issued|
    ensures StoreBatch(db, []) == db && StoredOver(db.trades, db.trades, issued, base, 0)
  {
  }

  lemma {:induction false} BatchIsStoredOver(db: Db, issued: seq<Trade>, base: nat, batch: seq<(Trade, nat)>)
    requires base + |batch| <= |issued|
    requires forall i :: 0 <= i < |batch| ==> BatchEntryOk(db, issued, base, batch, i)
    ensures var db' := StoreBatch(db, batch);
            && db'.total == db.total && db'.tradeIds == db.tradeIds
            && StoredOver(db.trades, db'.trades, issued, base, |batch|)
    decreases |batch|
  {
    hide StoreBatch, BatchEntryOk, StoredOver;
    if batch == [] {
      NoBatch(db, issued, base);
    } else {
      var n := |batch| - 1;
      BatchBefore(db, issued, base, batch);
      BatchIsStoredOver(db, issued, base, batch[..n]);
      LastOfBatch(db, issued, base, batch);
      StoredOverMore(db.trades, StoreBatch(db, batch[..n]).trades, issued, base, n);
    }
  }

  /** Storing a batch of consecutive issued trades whose ids are already there. */
  lemma StoreBatchOfIssued(db: Db, issued: seq<Trade>, base: nat, batch: seq<(Trade, nat)>)
    requires base + |batch| <= |issued|
    requires forall i :: 0 <= i < |batch| ==> BatchEntryOk(db, issued, base, batch, i)
    ensures var db' := StoreBatch(db, batch);
            && db'.total == db.total && db'.tradeIds == db.tradeIds
            && (forall k: nat :: k in db'.trades <==> k in db.trades || base < k <= base + |batch|)
            && (forall k: nat :: k in db'.trades ==>
                  db'.trades[k] == if base < k <= base + |batch| then issued[k - 1] else db.trades[k])
  {
    hide StoreBatch, BatchEntryOk;
    BatchIsStoredOver(db, issued, base, batch);
  }

  lemma BatchBefore(db: Db, issued: seq<Trade>, base: nat, batch: seq<(Trade, nat)>)
    requires batch != [] && forall i :: 0 <= i < |batch| ==> BatchEntryOk(db, issued, base, batch, i)
    ensures var b := batch[..|batch| - 1];
            forall i :: 0 <= i < |b| ==> BatchEntryOk(db, issued, base, b, i)
  {
    var b := batch[..|batch| - 1];
    forall i | 0 <= i < |b|
      ensures BatchEntryOk(db, issued, base, b, i)
    {
      assert BatchEntryOk(db, issued, base, batch, i);
    }
  }

  /** The last entry adds its trade and leaves the ids as they are. */
  lemma LastOfBatch(db: Db, issued: seq<Trade>, base: nat, batch: seq<(Trade, nat)>)
    requires batch != [] && BatchEntryOk(db, issued, base, batch, |batch| - 1)
    requires var n := |batch| - 1; StoreBatch(db, batch[..n]).tradeIds == db.tradeIds
    ensures var n, db' := |batch| - 1, StoreBatch(db, batch[..|batch| - 1]);
            StoreBatch(db, batch) == db'.(trades := db'.trades[base + n + 1 := issued[base + n]])
  {
    var n := |batch| - 1;
    assert db.tradeIds[issued[base + n].id := base + n + 1] == db.tradeIds;
  }

  lemma StoredAfterBatch(db: Db, issued: seq<Trade>, base: int, batch: seq<(Trade, nat)>, k: nat)
    requires 0 <= base && base + |batch| == db.total == |issued|
    requires forall i :: 0 <= i < |batch| ==> BatchEntryOk(db, issued, base, batch, i)
    requires k in db.trades ==> 1 <= k <= base && StoredAs(db, k, issued[k - 1])
    requires k in StoreBatch(db, batch).trades
    ensures 1 <= k <= db.total && StoredAs(StoreBatch(db, batch), k, issued[k - 1])
  {
    StoreBatchOfIssued(db, issued, base, batch);
    hide StoreBatch;
    if base < k { assert BatchEntryOk(db, issued, base, batch, k - 1 - base); }
  }

  lemma StoreKeepsTables(db: Db, issued: seq<Trade>, base: int, batch: seq<(Trade, nat)>)
    requires TablesOk(db, issued, base) && base + |batch| == db.total
    requires forall i :: 0 <= i < |batch| ==> BatchEntryOk(db, issued, base, batch, i)
    ensures TablesOk(StoreBatch(db, batch), issued, db.total)
  {
    hide StoreBatch, IssuedOk, StoredAs, BatchEntryOk;
    var db' := StoreBatch(db, batch);
    assert db'.total == db.total && db'.tradeIds == db.tradeIds by { StoreBatchOfIssued(db, issued, base, batch); }
    forall k | k in db'.trades
      ensures 1 <= k <= db.total && StoredAs(db', k, issued[k - 1])
    {
      StoredAfterBatch(db, issued, base, batch, k);
    }
  }

  lemma StoreKeepsInv(s: System, s': System)
    requires Inv(s) && Next(s, Advance, s') && s.feeder.phase == NeedCounter && s.feeder.j == |s.feeder.rows|
    ensures Inv(s')
    ensures s'.db.tradeIds == s.db.tradeIds && Base(s') == s.db.total
    ensures forall k: nat :: k in s'.db.trades <==> k in s.db.trades || Base(s) < k <= s.db.total
  {
    StoreBatchOfIssued(s.db, s.issued, Base(s), s.feeder.batch);
    StoreKeepsTables(s.db, s.issued, Base(s), s.feeder.batch);
    assert StoreBatch(s.db, []) == s.db;
    hide TradeId, StoreBatch, TablesOk, BatchEntryOk;
    GapStays(s, s');
  }

  lemma GapStays(s: System, s': System)
    requires Base(s) <= Base(s')
    requires forall k: nat :: k in s'.db.trades <==> k in s.db.trades || Base(s) < k <= Base(s')
    ensures NoGap(s.db, Base(s)) <==> NoGap(s'.db, Base(s'))
  {
    if !NoGap(s.db, Base(s)) {
      var k: nat :| 1 <= k <= Base(s) && k !in s.db.trades;
      assert k !in s'.db.trades;
    }
  }

  lemma CutKeepsInv(s: System)
    requires Inv(s)
    ensures Inv(CutShort(s))
  {
    hide TradeId;
    var s' := CutShort(s);
    forall k | k in s'.db.trades
      ensures 1 <= k <= Base(s') && StoredAs(s'.db, k, s'.issued[k - 1])
    {
      assert 1 <= k <= Base(s) && StoredAs(s.db, k, s.issued[k - 1]);
    }
    if Drawn(s.feeder) > 0 {
      assert s.db.total !in s'.db.trades;
    }
  }

  lemma NextKeepsInv(s: System, a: Action, s': System)
    requires Inv(s) && Next(s, a, s')
    ensures Inv(s')
    ensures s.issued <= s'.issued && 0 <= Base(s) <= Base(s')
    ensures s.cut ==> s'.cut
    ensures forall k: nat :: k <= Base(s) ==> (k in s.db.trades <==> k in s'.db.trades)
  {
    match a
    case Receive(_, _) =>
    case Advance =>
      if s.feeder.phase != NeedCounter {
        if s.feeder.phase.NeedCheck? { CheckKeepsInv(s, s'); } else { StoreIdKeepsInv(s, s'); }
      } else if s.feeder.j == |s.feeder.rows| {
        StoreKeepsInv(s, s');
      } else if |s.feeder.rows[s.feeder.j]| >= 5 {
        DrawKeepsInv(s, s');
      }
    case Fail => CutKeepsInv(s);
    case Restart => CutKeepsInv(s);
  }

  predicate IsInitial(s: System) {
    s == INITIAL
  }

  ghost predicate IsRun(states: seq<System>, acts: seq<Action>) {
    && |states| == |acts| + 1 && IsInitial(states[0])
    && forall i :: 0 <= i < |acts| ==> Next(states[i], acts[i], states[i + 1])
  }

  lemma {:induction false} RunKeepsInv(states: seq<System>, acts: seq<Action>, i: nat)
    requires IsRun(states, acts) && i < |states|
    ensures Inv(states[i])
  {
    hide Next;
    if i > 0 {
      RunKeepsInv(states, acts, i - 1);
      assert Next(states[i - 1], acts[i - 1], states[i - 1 + 1]);
      NextKeepsInv(states[i - 1], acts[i - 1], states[i]);
    }
  }

  lemma {:induction false} RunGrows(states: seq<System>, acts: seq<Action>, i: nat, j: nat)
    requires IsRun(states, acts) && i <= j < |states|
    ensures Inv(states[i]) && Inv(states[j])
    ensures states[i].issued <= states[j].issued && 0 <= Base(states[i]) <= Base(states[j])
    ensures states[i].cut ==> states[j].cut
    ensures forall k: nat :: k <= Base(states[i]) ==> (k in states[i].db.trades <==> k in states[j].db.trades)
    decreases j
  {
    hide Next, Inv;
    RunKeepsInv(states, acts, i);
    RunKeepsInv(states, acts, j);
    BaseInRange(states[i]);
    if i < j {
      RunGrows(states, acts, i, j - 1);
      assert Next(states[j - 1], acts[j - 1], states[j - 1 + 1]);
      NextKeepsInv(states[j - 1], acts[j - 1], states[j]);
    }
  }

  // ----- What follows in every reachable state ---------------------------

  /** Each index is drawn once and no two trades ever made share an id; the
      check for a duplicate, when it is made, never finds one. */
  lemma IdsAreUnique(states: seq<System>, acts: seq<Action>, i: nat, k: nat, l: nat)
    requires IsRun(states, acts) && i < |states|
    ensures Inv(states[i])
    ensures var s := states[i];
            && s.db.total == |s.issued|
            && (k < l < |s.issued| ==> s.issued[k].id != s.issued[l].id)
            && (s.feeder.Working? && s.feeder.phase.NeedCheck? ==>
                  TradeId(s.feeder.phase.index, s.feeder.rows[s.feeder.j][0]) !in s.db.tradeIds)
  {
    hide Next;
    RunKeepsInv(states, acts, i);
    var s := states[i];
    if k < l < |s.issued| && s.issued[k].id == s.issued[l].id {
      TradeIdInjective(k + 1, s.issued[k].price, l + 1, s.issued[l].price);
    }
  }

  /** The two tables agree on every stored trade at any moment, whatever was
      cut short: the trade at k has the id "k-price", and its id leads to k. */
  lemma TablesAgree(states: seq<System>, acts: seq<Action>, i: nat, k: nat)
    requires IsRun(states, acts) && i < |states| && k in states[i].db.trades
    ensures var s := states[i]; var trade := s.db.trades[k];
            && 1 <= k <= s.db.total
            && trade.id == TradeId(k, trade.price)
            && HasId(s.db, k, trade)
  {
    hide Next;
    RunKeepsInv(states, acts, i);
    assert StoredAs(states[i].db, k, states[i].issued[k - 1]);
  }

  /** At message boundaries the trade keys are exactly 1, ..., total if and
      only if no message was ever cut short after it had drawn an index. */
  lemma KeysAreGapFreeExactly(states: seq<System>, acts: seq<Action>, i: nat)
    requires IsRun(states, acts) && i < |states| && states[i].feeder.Idle?
    ensures !states[i].cut <==> (forall k: nat :: k in states[i].db.trades <==> 1 <= k <= states[i].db.total)
  {
    hide Next, TradeId;
    RunKeepsInv(states, acts, i);
    var s := states[i];
    assert NoGap(s.db, s.db.total) == !s.cut;
  }

  /** The append-only log of trades in finished messages. */
  function Log(s: System): seq<Trade>
    requires 0 <= Base(s) <= |s.issued|
  {
    s.issued[..Base(s)]
  }

  /** The page is empty or the part of the log that starts at `start`. */
  predicate IsPiece(log: seq<Trade>, start: nat, page: seq<Trade>) {
    page == [] || (1 <= start && start - 1 + |page| <= |log| && page == log[start - 1..start - 1 + |page|])
  }

  lemma StoredIsLogged(s: System, k: nat)
    requires Inv(s) && k in s.db.trades
    ensures 1 <= k <= Base(s) <= |s.issued|
    ensures s.db.trades[k] == Log(s)[k - 1]
  {
    assert StoredAs(s.db, k, s.issued[k - 1]);
  }

  predicate EntryAt(log: seq<Trade>, start: nat, page: seq<Trade>, i: nat)
    requires i < |page|
  {
    1 <= start + i <= |log| && page[i] == log[start + i - 1]
  }

  lemma RunIsPiece(log: seq<Trade>, start: nat, page: seq<Trade>)
    requires forall i: nat :: i < |page| ==> EntryAt(log, start, page, i)
    ensures IsPiece(log, start, page)
  {
    if page != [] {
      assert EntryAt(log, start, page, 0) && EntryAt(log, start, page, |page| - 1);
      var piece := log[start - 1..start - 1 + |page|];
      forall i: nat | i < |page|
        ensures page[i] == piece[i]
      {
        assert EntryAt(log, start, page, i);
      }
    }
  }

  /** A page read at any moment of any run, even in the middle of a batch, is a
      gap-free piece of the log from its start on. It ends where the limit says
      or at the first index that is not stored. */
  lemma PageIsPieceOfLog(s: System, start: nat, limit: nat)
    requires Inv(s)
    ensures 0 <= Base(s) <= |s.issued|
    ensures var page, size := GetTrades(s.db, Some(start), Some(limit)), Min(limit, MAX_BATCH_SIZE);
            && IsPiece(Log(s), start, page)
            && |page| <= size
            && (forall k: nat :: start <= k < start + |page| ==> k in s.db.trades)
            && (|page| < size ==> start + |page| !in s.db.trades)
  {
    BaseInRange(s);
    PageIsLongestRun(s.db, start, limit);
    hide Inv, GetTrades, IsPiece, Log, Base;
    var page := GetTrades(s.db, Some(start), Some(limit));
    forall i: nat | i < |page|
      ensures EntryAt(Log(s), start, page, i)
    {
      LogLength(s);
      StoredIsLogged(s, start + i);
    }
    RunIsPiece(Log(s), start, page);
  }

  lemma PageIsLongestRun(db: Db, start: nat, limit: nat)
    ensures var page, size := GetTrades(db, Some(start), Some(limit)), Min(limit, MAX_BATCH_SIZE);
            && |page| <= size
            && (forall i :: 0 <= i < |page| ==> start + i in db.trades && page[i] == db.trades[start + i])
            && (forall k: nat :: start <= k < start + |page| ==> k in db.trades)
            && (|page| < size ==> start + |page| !in db.trades)
  {
    var page, size := GetTrades(db, Some(start), Some(limit)), Min(limit, MAX_BATCH_SIZE);
    RangeIsLongestRun(db.trades, start, start + size);
    hide RangeFrom;
    forall i | 0 <= i < |page|
      ensures start + i in db.trades && page[i] == db.trades[start + i]
    {
      var k: nat := start + i;
      assert k in db.trades && page[k - start] == db.trades[k];
    }
  }

  /** The answer to a query, spelled out: from the start index, 1 if none is
      given, the unbroken run of trades that are stored, as long as the limit,
      which is 100 if none is given and never more than 1000. */
  lemma QueryAnswer(db: Db, start: Option<nat>, limit: Option<nat>)
    ensures var page := GetTrades(db, start, limit);
            var first := if start == None then 1 else start.value;
            var size := if limit == None then 100 else if limit.value > 1000 then 1000 else limit.value;
            && |page| <= size
            && (forall i :: 0 <= i < |page| ==> first + i in db.trades && page[i] == db.trades[first + i])
            && (|page| < size ==> first + |page| !in db.trades)
  {
    PageIsLongestRun(db, if start == None then 1 else start.value, if limit == None then 100 else limit.value);
    hide RangeFrom;
  }

  lemma LogLength(s: System)
    requires 0 <= Base(s) <= |s.issued|
    ensures |Log(s)| == Base(s)
  {
  }

  /** The page at `start` with this limit goes as far as the log does. */
  ghost predicate FullPage(s: System, start: nat, limit: nat)
    requires 0 <= Base(s) <= |s.issued|
  {
    var size, left := Min(limit, MAX_BATCH_SIZE), |Log(s)| - (start - 1);
    |GetTrades(s.db, Some(start), Some(limit))| == if left <= 0 then 0 else Min(size, left)
  }

  lemma UncutPageIsFull(s: System, start: nat, limit: nat)
    requires Inv(s) && !s.cut && start >= 1
    ensures 0 <= Base(s) <= |s.issued| && FullPage(s, start, limit)
  {
    BaseInRange(s);
    PageIsPieceOfLog(s, start, limit);
    LogLength(s);
    var next := start + |GetTrades(s.db, Some(start), Some(limit))|;
    assert NoGap(s.db, Base(s));
    assert next <= Base(s) ==> next in s.db.trades;
    hide Inv, GetTrades, Log;
  }

  /** Pages always reach as far as the log and the limit do if and only if no
      message was ever cut short after it had drawn an index. */
  lemma PagesAreFullExactly(s: System)
    requires Inv(s)
    ensures 0 <= Base(s) <= |s.issued|
    ensures !s.cut <==> forall start: nat, limit: nat :: start >= 1 ==> FullPage(s, start, limit)
  {
    BaseInRange(s);
    if s.cut {
      var gap: nat :| 1 <= gap <= Base(s) && gap !in s.db.trades;
      LogLength(s);
      assert !FullPage(s, gap, 1);
    } else {
      hide Inv, FullPage;
      forall start: nat, limit: nat | start >= 1
        ensures FullPage(s, start, limit)
      {
        UncutPageIsFull(s, start, limit);
      }
    }
  }

  function Concat(pages: seq<seq<Trade>>): seq<Trade> {
    if pages == [] then [] else Concat(pages[..|pages| - 1]) + pages[|pages| - 1]
  }

  /** Paging: each page is read at some moment, later ones no earlier, and
      starts where the pages before it ended. */
  ghost predicate IsPaging(states: seq<System>, moments: seq<nat>, limits: seq<nat>, pages: seq<seq<Trade>>)
    requires |moments| == |limits| == |pages|
  {
    && (forall i :: 0 <= i < |moments| ==> moments[i] < |states|)
    && (forall i, j :: 0 <= i < j < |moments| ==> moments[i] <= moments[j])
    && (forall i :: 0 <= i < |pages| ==>
          pages[i] == GetTrades(states[moments[i]].db, Some(1 + |Concat(pages[..i])|), Some(limits[i])))
  }

  lemma PagesBefore(states: seq<System>, moments: seq<nat>, limits: seq<nat>, pages: seq<seq<Trade>>)
    requires |moments| == |limits| == |pages| && IsPaging(states, moments, limits, pages) && pages != []
    ensures var n := |pages| - 1;
            && IsPaging(states, moments[..n], limits[..n], pages[..n])
            && moments[n] < |states| && (forall i :: 0 <= i < n ==> moments[..n][i] <= moments[n])
            && pages[n] == GetTrades(states[moments[n]].db, Some(1 + |Concat(pages[..n])|), Some(limits[n]))
  {
    hide GetTrades, Concat;
    var before := pages[..|pages| - 1];
    forall i | 0 <= i < |before|
      ensures before[..i] == pages[..i]
    {
    }
  }

  /** Pages concatenate to a gap-free, repeat-free prefix of the log, however
      the reads interleave with the feed and whatever was cut short. */
  lemma {:induction false} PagesFormPrefixOfLog(
      states: seq<System>, acts: seq<Action>, moments: seq<nat>, limits: seq<nat>, pages: seq<seq<Trade>>, last: nat)
    requires IsRun(states, acts) && last < |states|
    requires |moments| == |limits| == |pages| && IsPaging(states, moments, limits, pages)
    requires forall i :: 0 <= i < |moments| ==> moments[i] <= last
    ensures Inv(states[last]) && Concat(pages) <= Log(states[last])
    decreases |pages|
  {
    hide IsRun, Inv, GetTrades, Log, Base, IsPaging;
    RunKeepsInv(states, acts, last);
    BaseInRange(states[last]);
    if pages != [] {
      var n := |pages| - 1;
      var m, before := moments[n], pages[..n];
      PagesBefore(states, moments, limits, pages);
      RunGrows(states, acts, m, last);
      PagesFormPrefixOfLog(states, acts, moments[..n], limits[..n], before, m);
      BaseInRange(states[m]);
      OnePageMore(states[m], Concat(before), limits[n], pages[n]);
      LogGrows(states[m], states[last]);
    }
  }

  lemma BaseInRange(s: System)
    requires Inv(s)
    ensures 0 <= Base(s) <= |s.issued| == s.db.total
  {
  }

  lemma LogGrows(s: System, s': System)
    requires Inv(s) && Inv(s') && s.issued <= s'.issued && 0 <= Base(s) <= Base(s')
    ensures Log(s) <= Log(s')
  {
  }

  lemma OnePageMore(s: System, before: seq<Trade>, limit: nat, page: seq<Trade>)
    requires Inv(s) && 0 <= Base(s) <= |s.issued| && before <= Log(s)
    requires page == GetTrades(s.db, Some(1 + |before|), Some(limit))
    ensures before + page <= Log(s)
  {
    PageIsPieceOfLog(s, 1 + |before|, limit);
    hide GetTrades, Inv, Log, Base;
    PieceExtends(Log(s), before, page);
  }

  lemma PieceExtends(log: seq<Trade>, before: seq<Trade>, page: seq<Trade>)
    requires before <= log && IsPiece(log, 1 + |before|, page)
    ensures before + page <= log
  {
    if page == [] {
      assert before + page == before;
    } else {
      assert page == log[|before|..|before| + |page|];
      assert log[..|before| + |page|] == log[..|before|] + log[|before|..|before| + |page|];
    }
  }

  ghost predicate Increasing(ks: seq<nat>) {
    forall i, j :: 0 <= i < j < |ks| ==> ks[i] < ks[j]
  }

  /** The stored indexes from lo to hi-1, in order. */
  function StoredIndexes(trades: map<nat, Trade>, lo: nat, hi: nat): seq<nat>
    requires lo <= hi
    decreases hi
  {
    if lo == hi then []
    else StoredIndexes(trades, lo, hi - 1) + (if hi - 1 in trades then [hi - 1] else [])
  }

  lemma {:induction false} StoredIndexesExact(trades: map<nat, Trade>, lo: nat, hi: nat)
    requires lo <= hi
    ensures var ks := StoredIndexes(trades, lo, hi);
            Increasing(ks) && forall k: nat :: k in ks <==> lo <= k < hi && k in trades
    decreases hi
  {
    if lo < hi {
      StoredIndexesExact(trades, lo, hi - 1);
      var before := StoredIndexes(trades, lo, hi - 1);
      if hi - 1 in trades {
        assert StoredIndexes(trades, lo, hi) == before + [hi - 1];
        hide StoredIndexes;
        OneLarger(before, hi - 1);
      } else {
        assert StoredIndexes(trades, lo, hi) == before;
      }
    }
  }

  lemma OneLarger(ks: seq<nat>, k: nat)
    requires Increasing(ks) && forall x :: x in ks ==> x < k
    ensures Increasing(ks + [k]) && forall x :: x in ks + [k] <==> x in ks || x == k
  {
    assert forall i :: 0 <= i < |ks| ==> ks[i] in ks;
  }

  lemma {:induction false} PresentIsStored(trades: map<nat, Trade>, lo: nat, hi: nat)
    requires lo <= hi
    ensures var ks, r := StoredIndexes(trades, lo, hi), Present(trades, lo, hi);
            && |r| == |ks| <= hi - lo
            && (forall i :: 0 <= i < |r| ==> ks[i] in trades && r[i] == trades[ks[i]])
            && (|r| == hi - lo <==> forall k: nat :: lo <= k < hi ==> k in trades)
    decreases hi
  {
    if lo < hi {
      PresentIsStored(trades, lo, hi - 1);
      var ks, before := StoredIndexes(trades, lo, hi), StoredIndexes(trades, lo, hi - 1);
      var r, was := Present(trades, lo, hi), Present(trades, lo, hi - 1);
      forall i | 0 <= i < |r|
        ensures ks[i] in trades && r[i] == trades[ks[i]]
      {
        if i < |was| { assert ks[i] == before[i] && r[i] == was[i]; }
      }
    }
  }

  /** Recent trades, in any state of any run: of the last min(n, total, 100)
      trades ever made exactly those that are stored, in order. The answer is
      complete if and only if none of these indexes is missing. */
  lemma RecentTradesExactly(s: System, n: nat) returns (ks: seq<nat>, size: nat)
    requires Inv(s)
    ensures var total := |s.issued|;
            && total == s.db.total && size <= n && size <= total && size <= 100
            && (size == n || size == total || size == 100)
    ensures var r, total := RecentTrades(s.db, n), |s.issued|;
            && Increasing(ks) && (forall k: nat :: k in ks <==> total - size < k <= total && k in s.db.trades)
            && |r| == |ks| <= size
            && (forall i :: 0 <= i < |r| ==> 1 <= ks[i] <= total && r[i] == s.issued[ks[i] - 1])
            && (|r| == size <==> forall k: nat :: total - size < k <= total ==> k in s.db.trades)
  {
    BaseInRange(s);
    hide Inv;
    size := RecentSize(s.db, n);
    var lo, hi := s.db.total - size + 1, s.db.total + 1;
    ks := StoredIndexes(s.db.trades, lo, hi);
    StoredIndexesExact(s.db.trades, lo, hi);
    PresentIsStored(s.db.trades, lo, hi);
    StoredIsIssued(s, ks);
    hide Present, StoredIndexes;
  }

  lemma StoredIsIssued(s: System, ks: seq<nat>)
    requires Inv(s) && forall k: nat :: k in ks ==> k in s.db.trades
    ensures forall i :: 0 <= i < |ks| ==> 1 <= ks[i] <= |s.issued| && s.db.trades[ks[i]] == s.issued[ks[i] - 1]
  {
    forall i | 0 <= i < |ks|
      ensures 1 <= ks[i] <= |s.issued| && s.db.trades[ks[i]] == s.issued[ks[i] - 1]
    {
      hide Inv;
      assert ks[i] in ks;
      StoredIsLogged(s, ks[i]);
    }
  }

  /** Without a cut message: complete if and only if nothing was asked for or
      no index is drawn and not yet stored. */
  lemma UncutRecentTrades(s: System, n: nat)
    requires Inv(s)
    ensures var size := |RecentTrades(s.db, n)|;
            !s.cut ==>
              (size == n || size == 100 || size == s.db.total <==> n == 0 || s.db.total == 0 || Drawn(s.feeder) == 0)
  {
    var ks, size := RecentTradesExactly(s, n);
    hide RecentTrades, TradeId, FeederOk;
    var total := s.db.total;
    if !s.cut {
      assert NoGap(s.db, Base(s));
      assert total in s.db.trades ==> total <= Base(s);
      if Drawn(s.feeder) == 0 {
        assert forall k: nat :: total - size < k <= total ==> k in s.db.trades;
      }
    }
  }

  /** Messages are cut short in some runs: one that draws an index and fails
      loses it. */
  lemma CutHappens(row: Row, pair: string) returns (states: seq<System>, acts: seq<Action>)
    requires |row| >= 5
    ensures IsRun(states, acts) && |acts| == 3
    ensures states[3] == System(Db(map[], map[], 1), Idle, [MakeTrade(row, pair, 1)], true)
  {
    var s1 := INITIAL.(feeder := Working([row], pair, 0, [], NeedCounter));
    var s2 := AdvanceStep(s1);
    var s3 := CutShort(s2);
    assert Next(INITIAL, Receive([row], pair), s1) && Next(s1, Advance, s2) && Next(s2, Fail, s3);
    hide Next;
    states, acts := [INITIAL, s1, s2, s3], [Receive([row], pair), Advance, Fail];
  }

  /** No page that starts at or before the gap gets past it. */
  ghost predicate BlockedAt(db: Db, gap: nat) {
    forall start: nat, limit: nat :: start <= gap ==> |GetTrades(db, Some(start), Some(limit))| <= gap - start
  }

  lemma GapBlocksReads(db: Db, gap: nat)
    requires gap !in db.trades
    ensures BlockedAt(db, gap)
  {
    forall start: nat, limit: nat | start <= gap
      ensures |GetTrades(db, Some(start), Some(limit))| <= gap - start
    {
      RangeIsLongestRun(db.trades, start, start + Min(limit, MAX_BATCH_SIZE));
    }
  }

  /** A lost index is lost for good, and hides everything after it from range
      reads: after a message was cut short, some index is missing in every later
      state, and no page that starts at or before it ever gets past it. */
  lemma CutHidesTheRest(states: seq<System>, acts: seq<Action>, i: nat) returns (gap: nat)
    requires IsRun(states, acts) && i < |states| && states[i].cut
    ensures 1 <= gap <= states[i].db.total
    ensures forall j :: i <= j < |states| ==> gap !in states[j].db.trades && BlockedAt(states[j].db, gap)
  {
    hide Next, TradeId, BlockedAt;
    RunKeepsInv(states, acts, i);
    gap :| 1 <= gap <= Base(states[i]) && gap !in states[i].db.trades;
    forall j | i <= j < |states|
      ensures gap !in states[j].db.trades && BlockedAt(states[j].db, gap)
    {
      RunGrows(states, acts, i, j);
      GapBlocksReads(states[j].db, gap);
    }
  }
}
