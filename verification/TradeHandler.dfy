/** The handler of one trade message, request by request against the tables.
    It is proved to be a run of the feed of `TradeFeed`, to store the whole
    message or none of it, and to lose indexes exactly when it is cut short. */
module TradeHandler {
  import opened TradeIds
  import opened TradeDatabase
  import opened TradeFeed

  /** The trades a message stands for when `first` trades were made before it:
      rows with too few fields are skipped, the others are numbered in order. */
  function MadeTrades(rows: seq<Row>, pair: string, first: nat): seq<Trade> {
    if rows == [] then []
    else
      var row := rows[|rows| - 1];
      var before := MadeTrades(rows[..|rows| - 1], pair, first);
      if |row| < 5 then before else before + [MakeTrade(row, pair, first + |before| + 1)]
  }

  /** The first request from number i on that fails, n if there is none before. */
  function FirstFailure(fails: nat -> bool, i: nat, n: nat): (f: nat)
    requires i <= n
    ensures i <= f <= n && (f < n ==> fails(f)) && forall r: nat :: i <= r < f ==> !fails(r)
    decreases n - i
  {
    if i == n || fails(i) then i else FirstFailure(fails, i + 1, n)
  }

  lemma FirstOfThree(fails: nat -> bool, r: nat)
    ensures FirstFailure(fails, r, r + 3)
            == if fails(r) then r else if fails(r + 1) then r + 1 else if fails(r + 2) then r + 2 else r + 3
  {
  }

  lemma {:induction false} FailureSplits(fails: nat -> bool, i: nat, m: nat, n: nat)
    requires i <= m <= n
    ensures var f := FirstFailure(fails, i, m);
            FirstFailure(fails, i, n) == if f < m then f else FirstFailure(fails, m, n)
    decreases m - i
  {
    if i < m && !fails(i) { FailureSplits(fails, i + 1, m, n); }
  }

  lemma {:induction false} MadeGrows(rows: seq<Row>, pair: string, first: nat, j: nat)
    requires j <= |rows|
    ensures MadeTrades(rows[..j], pair, first) <= MadeTrades(rows, pair, first)
    decreases |rows|
  {
    if j < |rows| {
      var shorter := rows[..|rows| - 1];
      assert shorter[..j] == rows[..j];
      MadeGrows(shorter, pair, first, j);
    } else {
      assert rows[..j] == rows;
    }
  }

  /** The feed gets from s to s' in n steps. */
  ghost predicate Reaches(s: System, n: nat, s': System) {
    if n == 0 then s == s' else exists mid: System, a: Action :: Reaches(s, n - 1, mid) && Next(mid, a, s')
  }

  lemma Take(s: System, n: nat, mid: System, a: Action, s': System) returns (after: System, steps: nat)
    requires Reaches(s, n, mid) && Inv(mid) && Next(mid, a, s')
    ensures after == s' && steps == n + 1 && Reaches(s, steps, after) && Inv(after)
  {
    NextKeepsInv(mid, a, s');
    hide Inv, Next;
    after, steps := s', n + 1;
  }

  /** What one row adds to the trades made. */
  lemma MadeByRow(rows: seq<Row>, pair: string, first: nat, j: nat)
    requires j < |rows|
    ensures var made := MadeTrades(rows[..j], pair, first);
            MadeTrades(rows[..j + 1], pair, first)
              == if |rows[j]| < 5 then made else made + [MakeTrade(rows[j], pair, first + |made| + 1)]
    ensures MadeTrades(rows[..j + 1], pair, first) <= MadeTrades(rows, pair, first)
  {
    assert rows[..j + 1][..j] == rows[..j];
    MadeGrows(rows, pair, first, j + 1);
  }

  // ----- What is stored, field by field -------------------------------------

  /** How many of the first j rows have enough fields. */
  function LongRows(rows: seq<Row>, j: nat): nat
    requires j <= |rows|
  {
    if j == 0 then 0 else LongRows(rows, j - 1) + (if |rows[j - 1]| >= 5 then 1 else 0)
  }

  /** The row is stored under this index, each field in its place. */
  predicate RowStored(trades: map<nat, Trade>, row: Row, pair: string, index: nat)
    requires |row| >= 5
  {
    && index in trades
    && var trade := trades[index];
       && trade.price == row[0] && trade.volume == row[1] && trade.timestamp == row[2]
       && trade.side == row[3] && trade.orderType == row[4]
       && trade.misc == (if |row| > 5 then row[5] else "")
       && trade.pair == pair
       && trade.id == Decimal(index) + "-" + row[0]
  }

  lemma {:induction false} MadeCount(rows: seq<Row>, pair: string, first: nat, j: nat)
    requires j <= |rows|
    ensures |MadeTrades(rows[..j], pair, first)| == LongRows(rows, j)
  {
    if j > 0 {
      MadeCount(rows, pair, first, j - 1);
      MadeByRow(rows, pair, first, j - 1);
    }
  }

  lemma MadeAt(rows: seq<Row>, pair: string, first: nat, j: nat)
    requires j < |rows| && |rows[j]| >= 5
    ensures var q, made := LongRows(rows, j), MadeTrades(rows, pair, first);
            q < |made| && made[q] == MakeTrade(rows[j], pair, first + q + 1)
  {
    MadeCount(rows, pair, first, j);
    MadeByRow(rows, pair, first, j);
    hide MadeTrades, MakeTrade, LongRows;
  }

  lemma RowIsStored(after: System, issued: seq<Trade>, rows: seq<Row>, pair: string, j: nat)
    requires Inv(after) && after.issued == issued + MadeTrades(rows, pair, |issued|)
    requires j < |rows| && |rows[j]| >= 5 && |issued| + 1 + LongRows(rows, j) in after.db.trades
    ensures RowStored(after.db.trades, rows[j], pair, |issued| + 1 + LongRows(rows, j))
  {
    hide Inv, MadeTrades, LongRows, Log;
    var q := LongRows(rows, j);
    MadeAt(rows, pair, |issued|, j);
    var ks := [|issued| + 1 + q];
    StoredIsIssued(after, ks);
    assert ks[0] == |issued| + 1 + q;
    assert after.issued[|issued| + q] == MakeTrade(rows[j], pair, |issued| + q + 1);
  }

  /** Every row with enough fields is stored, in order, under the next indexes;
      what was stored before stays as it was. */
  lemma RowsAreStored(before: System, after: System, rows: seq<Row>, pair: string)
    requires Inv(before) && Inv(after) && after.issued == before.issued + MadeTrades(rows, pair, |before.issued|)
    requires forall k: nat :: k in after.db.trades <==> k in before.db.trades || |before.issued| < k <= |after.issued|
    ensures forall j :: 0 <= j < |rows| && |rows[j]| >= 5 ==>
              RowStored(after.db.trades, rows[j], pair, |before.issued| + 1 + LongRows(rows, j))
    ensures forall k: nat :: k in before.db.trades ==> k in after.db.trades && after.db.trades[k] == before.db.trades[k]
  {
    hide Inv, MadeTrades, LongRows, RowStored;
    forall j | 0 <= j < |rows| && |rows[j]| >= 5
      ensures RowStored(after.db.trades, rows[j], pair, |before.issued| + 1 + LongRows(rows, j))
    {
      MadeAt(rows, pair, |before.issued|, j);
      RowIsStored(after, before.issued, rows, pair, j);
    }
    forall k: nat | k in before.db.trades
      ensures k in after.db.trades && after.db.trades[k] == before.db.trades[k]
    {
      StoredIsIssued(before, [k]);
      StoredIsIssued(after, [k]);
      assert [k][0] == k;
    }
  }

  /** The duplicate check never finds one. */
  lemma NothingFound(s: System)
    requires Inv(s) && s.feeder.Working? && s.feeder.phase.NeedCheck?
    ensures s.feeder.j < |s.feeder.rows| && |s.feeder.rows[s.feeder.j]| >= 5 && s.feeder.phase.index == s.db.total
    ensures TradeId(s.feeder.phase.index, s.feeder.rows[s.feeder.j][0]) !in s.db.tradeIds
  {
  }

  /** One more trade was made and joins the batch. */
  ghost predicate RowDone(s: System, trade: Trade, batch': seq<(Trade, nat)>, s': System) {
    && s.feeder.Working?
    && s'.feeder == s.feeder.(j := s.feeder.j + 1, batch := batch') && |batch'| == |s.feeder.batch| + 1
    && s'.issued == s.issued + [trade] && s'.cut == s.cut
  }

  /** The message was cut short; `drawn` is the trade made from the row, if the
      index was drawn before that. */
  ghost predicate RowCut(s: System, drawn: seq<Trade>, s': System) {
    && s.feeder.Working?
    && s'.feeder == Idle && s'.issued == s.issued + drawn
    && s'.cut == (s.cut || s.feeder.batch != [] || drawn != [])
  }

  /** Where the feed stands after the first j rows of a message. */
  ghost predicate AfterRows(before: System, rows: seq<Row>, pair: string, j: nat, batch: seq<(Trade, nat)>, s: System)
    requires j <= |rows|
  {
    var made := MadeTrades(rows[..j], pair, |before.issued|);
    && s.feeder == Working(rows, pair, j, batch, NeedCounter) && |batch| == |made|
    && s.issued == before.issued + made && s.cut == before.cut
  }

  /** How many trades of m are made before request number f fails. */
  function DrawnBy(f: nat, m: nat): nat {
    Min(m, (f + 2) / 3)
  }

  /** Where it stands when request number f of the message failed. */
  ghost predicate CutAt(before: System, made: seq<Trade>, f: nat, s: System) {
    && s.feeder == Idle
    && s.issued == before.issued + made[..DrawnBy(f, |made|)]
    && s.cut == (before.cut || f > 0)
  }

  lemma StandsAt(before: System, rows: seq<Row>, pair: string, j: nat, batch: seq<(Trade, nat)>, s: System)
    requires j <= |rows| && AfterRows(before, rows, pair, j, batch, s)
    ensures s.feeder == Working(rows, pair, j, batch, NeedCounter)
    ensures j == |rows| ==> |batch| == |MadeTrades(rows, pair, |before.issued|)|
  {
    assert rows[..|rows|] == rows;
  }

  lemma AfterOneMore(before: System, rows: seq<Row>, pair: string, j: nat, s: System, trade: Trade,
                     batch': seq<(Trade, nat)>, s': System)
    requires j < |rows| && |rows[j]| >= 5 && s.feeder.Working? && AfterRows(before, rows, pair, j, s.feeder.batch, s)
    requires trade == MakeTrade(rows[j], pair, |s.issued| + 1) && RowDone(s, trade, batch', s')
    ensures AfterRows(before, rows, pair, j + 1, batch', s')
    ensures |batch'| == |s.feeder.batch| + 1 <= |MadeTrades(rows, pair, |before.issued|)|
  {
    MadeByRow(rows, pair, |before.issued|, j);
    hide MadeTrades, MakeTrade;
  }

  lemma CutAtRow(before: System, rows: seq<Row>, pair: string, j: nat, s: System, f: nat, s': System)
    requires j < |rows| && |rows[j]| >= 5 && s.feeder.Working? && AfterRows(before, rows, pair, j, s.feeder.batch, s)
    requires var r := 3 * |s.feeder.batch|;
             r <= f < r + 3 && RowCut(s, if f == r then [] else [MakeTrade(rows[j], pair, |s.issued| + 1)], s')
    ensures CutAt(before, MadeTrades(rows, pair, |before.issued|), f, s')
    ensures |s.feeder.batch| < |MadeTrades(rows, pair, |before.issued|)|
  {
    MadeByRow(rows, pair, |before.issued|, j);
    var all, made := MadeTrades(rows, pair, |before.issued|), MadeTrades(rows[..j], pair, |before.issued|);
    var trade := MakeTrade(rows[j], pair, |s.issued| + 1);
    hide MadeTrades, MakeTrade;
    PrefixOfMade(before.issued, all, made, trade);
    DrawnByThen(f, |made|, |all|);
    hide DrawnBy;
  }

  lemma DrawnByThen(f: nat, q: nat, m: nat)
    requires 3 * q <= f < 3 * q + 3 && q < m
    ensures DrawnBy(f, m) == if f == 3 * q then q else q + 1
  {
  }

  lemma PrefixOfMade(issued: seq<Trade>, all: seq<Trade>, made: seq<Trade>, trade: Trade)
    requires made + [trade] <= all
    ensures |made| < |all| && issued + all[..|made|] == issued + made
    ensures issued + all[..|made| + 1] == issued + made + [trade]
  {
    var n := |made|;
    assert all[..n + 1] == made + [trade];
    assert all[..n] == all[..n + 1][..n];
  }

  lemma AfterSkip(before: System, rows: seq<Row>, pair: string, j: nat, s: System, s': System)
    requires j < |rows| && |rows[j]| < 5 && s.feeder.Working? && AfterRows(before, rows, pair, j, s.feeder.batch, s)
    requires s' == s.(feeder := s.feeder.(j := j + 1))
    ensures AfterRows(before, rows, pair, j + 1, s.feeder.batch, s')
  {
    MadeByRow(rows, pair, |before.issued|, j);
    hide MadeTrades;
  }

  /** The three requests for a row with enough fields. `r` requests of the
      message went before; `fails(r)` says whether the next one fails. */
  method HandleRow(db: Database, row: Row, pair: string, batch: seq<(Trade, nat)>, fails: nat -> bool, r: nat,
                   ghost before: System, ghost s: System, ghost n: nat)
      returns (ok: bool, batch': seq<(Trade, nat)>, ghost s': System, ghost n': nat)
    requires Reaches(before, n, s) && Inv(s) && s.db == db.View()
    requires s.feeder.Working? && s.feeder.phase == NeedCounter && s.feeder.batch == batch && s.feeder.pair == pair
    requires s.feeder.j < |s.feeder.rows| && row == s.feeder.rows[s.feeder.j] && |row| >= 5
    modifies db
    ensures Reaches(before, n', s') && Inv(s') && s'.db == db.View() && db.trades == old(db.trades)
    ensures ok <==> FirstFailure(fails, r, r + 3) == r + 3
    ensures ok ==> RowDone(s, MakeTrade(row, pair, |s.issued| + 1), batch', s')
    ensures var drawn := if FirstFailure(fails, r, r + 3) == r then [] else [MakeTrade(row, pair, |s.issued| + 1)];
            !ok ==> RowCut(s, drawn, s')
  {
    FirstOfThree(fails, r);
    hide Reaches, Inv, FirstFailure;
    BaseInRange(s);
    s', n', batch', ok := s, n, batch, false;
    if fails(r) { s', n' := Take(before, n', s', Fail, CutShort(s')); return; }
    var index := db.GetNextTradeCounter();
    s', n' := Take(before, n', s', Advance, AdvanceStep(s'));
    var id := TradeId(index, row[0]);
    if fails(r + 1) { s', n' := Take(before, n', s', Fail, CutShort(s')); return; }
    var exists_ := db.CheckIdExists(id);
    NothingFound(s');
    s', n' := Take(before, n', s', Advance, AdvanceStep(s'));
    if !exists_ {
      if fails(r + 2) { s', n' := Take(before, n', s', Fail, CutShort(s')); return; }
      db.StoreIdWithIndex(id, index);
      s', n' := Take(before, n', s', Advance, AdvanceStep(s'));
      batch' := batch + [(MakeTrade(row, pair, index), index)];
    }
    ok := true;
  }

  /** The last request of a message, if it made any trade. */
  method HandleBatch(db: Database, batch: seq<(Trade, nat)>, fails: nat -> bool, r: nat,
                     ghost before: System, ghost s: System, ghost n: nat)
      returns (ok: bool, ghost s': System, ghost n': nat)
    requires Reaches(before, n, s) && Inv(s) && s.db == db.View()
    requires s.feeder.Working? && s.feeder.phase == NeedCounter && s.feeder.batch == batch
    requires s.feeder.j == |s.feeder.rows|
    modifies db
    ensures Reaches(before, n', s') && Inv(s') && s'.db == db.View() && s'.feeder == Idle && s'.issued == s.issued
    ensures ok <==> (batch != [] ==> !fails(r))
    ensures |batch| <= |s.issued|
    ensures ok ==> forall k: nat :: k in db.trades <==> k in old(db.trades) || |s.issued| - |batch| < k <= |s.issued|
    ensures !ok ==> db.trades == old(db.trades)
    ensures s'.cut <==> s.cut || !ok
  {
    BaseInRange(s);
    hide Reaches, Inv, StoreBatch;
    s', n', ok := s, n, true;
    if batch != [] {
      if fails(r) { ok := false; s', n' := Take(before, n', s', Fail, CutShort(s')); return; }
      var _ := db.StoreTradeBatch(batch);
    }
    StoreKeepsInv(s', AdvanceStep(s'));
    s', n' := Take(before, n', s', Advance, AdvanceStep(s'));
  }

  lemma StartRow(before: System, rows: seq<Row>, pair: string) returns (s: System, n: nat)
    requires Inv(before) && before.feeder == Idle
    ensures Reaches(before, n, s) && Inv(s)
    ensures s == before.(feeder := Working(rows, pair, 0, [], NeedCounter))
  {
    assert Reaches(before, 0, before);
    s, n := Take(before, 0, before, Receive(rows, pair), before.(feeder := Working(rows, pair, 0, [], NeedCounter)));
  }

  lemma SkipRow(before: System, s: System, n: nat) returns (s': System, n': nat)
    requires Reaches(before, n, s) && Inv(s) && s.feeder.Working? && s.feeder.phase == NeedCounter
    requires s.feeder.j < |s.feeder.rows| && |s.feeder.rows[s.feeder.j]| < 5
    ensures Reaches(before, n', s') && Inv(s') && s' == s.(feeder := s.feeder.(j := s.feeder.j + 1))
  {
    s', n' := Take(before, n, s, Advance, AdvanceStep(s));
  }

  /** What holds before row j: every request so far went through. */
  ghost predicate SoFar(before: System, rows: seq<Row>, pair: string, fails: nat -> bool, j: nat,
                        batch: seq<(Trade, nat)>, s: System, n: nat)
    requires j <= |rows|
  {
    && Reaches(before, n, s) && Inv(s)
    && AfterRows(before, rows, pair, j, batch, s)
    && FirstFailure(fails, 0, 3 * |batch|) == 3 * |batch|
  }

  /** What holds once a request has failed. */
  ghost predicate Stopped(before: System, rows: seq<Row>, pair: string, fails: nat -> bool, s: System, n: nat) {
    var made := MadeTrades(rows, pair, |before.issued|);
    var f := FirstFailure(fails, 0, 3 * |made|);
    && Reaches(before, n, s) && Inv(s)
    && f < 3 * |made| && CutAt(before, made, f, s)
  }

  lemma RowGoesThrough(before: System, rows: seq<Row>, pair: string, fails: nat -> bool, j: nat, s: System, n: nat,
                       batch': seq<(Trade, nat)>, s': System, n': nat)
    requires j < |rows| && |rows[j]| >= 5 && s.feeder.Working?
            && SoFar(before, rows, pair, fails, j, s.feeder.batch, s, n)
    requires Reaches(before, n', s') && Inv(s') && RowDone(s, MakeTrade(rows[j], pair, |s.issued| + 1), batch', s')
    requires var r := 3 * |s.feeder.batch|; FirstFailure(fails, r, r + 3) == r + 3
    ensures SoFar(before, rows, pair, fails, j + 1, batch', s', n')
  {
    hide Reaches, Inv, FirstFailure, MakeTrade, RowDone, AfterRows;
    AfterOneMore(before, rows, pair, j, s, MakeTrade(rows[j], pair, |s.issued| + 1), batch', s');
    FailureSplits(fails, 0, 3 * |s.feeder.batch|, 3 * |s.feeder.batch| + 3);
  }

  lemma RowStops(before: System, rows: seq<Row>, pair: string, fails: nat -> bool, j: nat, s: System, n: nat,
                 s': System, n': nat)
    requires j < |rows| && |rows[j]| >= 5 && s.feeder.Working?
            && SoFar(before, rows, pair, fails, j, s.feeder.batch, s, n)
    requires Reaches(before, n', s') && Inv(s')
    requires var r := 3 * |s.feeder.batch|; var f := FirstFailure(fails, r, r + 3);
             f < r + 3 && RowCut(s, if f == r then [] else [MakeTrade(rows[j], pair, |s.issued| + 1)], s')
    ensures Stopped(before, rows, pair, fails, s', n')
  {
    var r := 3 * |s.feeder.batch|;
    CutAtRow(before, rows, pair, j, s, FirstFailure(fails, r, r + 3), s');
    hide Reaches, Inv, FirstFailure, MakeTrade, MadeTrades, RowCut, AfterRows, CutAt;
    FailureSplits(fails, 0, r, r + 3);
    FailureSplits(fails, 0, r + 3, 3 * |MadeTrades(rows, pair, |before.issued|)|);
  }

  lemma RowSkipped(before: System, rows: seq<Row>, pair: string, fails: nat -> bool, j: nat, batch: seq<(Trade, nat)>,
                   s: System, n: nat)
      returns (s': System, n': nat)
    requires j < |rows| && |rows[j]| < 5 && SoFar(before, rows, pair, fails, j, batch, s, n)
    ensures SoFar(before, rows, pair, fails, j + 1, batch, s', n') && s'.db == s.db
  {
    StandsAt(before, rows, pair, j, batch, s);
    hide Reaches, Inv, FirstFailure, AfterRows;
    s', n' := SkipRow(before, s, n);
    AfterSkip(before, rows, pair, j, s, s');
  }

  /** The loop over the rows of a message. */
  method HandleRows(db: Database, rows: seq<Row>, pair: string, fails: nat -> bool, ghost before: System)
      returns (ok: bool, batch: seq<(Trade, nat)>, ghost s: System, ghost n: nat)
    requires Inv(before) && before.feeder == Idle && before.db == db.View()
    modifies db
    ensures s.db == db.View() && db.trades == old(db.trades)
    ensures ok ==> SoFar(before, rows, pair, fails, |rows|, batch, s, n)
    ensures !ok ==> Stopped(before, rows, pair, fails, s, n)
  {
    batch, ok := [], true;
    s, n := StartRow(before, rows, pair);
    assert SoFar(before, rows, pair, fails, 0, batch, s, n);
    for j := 0 to |rows|
      invariant s.db == db.View() && db.trades == old(db.trades)
      invariant ok && SoFar(before, rows, pair, fails, j, batch, s, n)
    {
      hide Reaches, Inv, FirstFailure, MakeTrade, RowDone, RowCut, AfterRows, Stopped;
      ghost var was, m := s, n;
      if |rows[j]| >= 5 {
        StandsAt(before, rows, pair, j, batch, s);
        ok, batch, s, n := HandleRow(db, rows[j], pair, batch, fails, 3 * |batch|, before, s, n);
        if !ok {
          RowStops(before, rows, pair, fails, j, was, m, s, n);
          return;
        }
        RowGoesThrough(before, rows, pair, fails, j, was, m, batch, s, n);
      } else {
        s, n := RowSkipped(before, rows, pair, fails, j, batch, s, n);
      }
    }
  }

  /** `fails(r)` says whether the r-th request of the message fails. */
  method HandleTradeMessage(db: Database, rows: seq<Row>, pair: string, fails: nat -> bool, ghost issued: seq<Trade>,
                            ghost cut: bool)
      returns (ok: bool, ghost after: System, ghost steps: nat)
    requires Inv(System(db.View(), Idle, issued, cut))
    modifies db
    // It is a run of the feed, back to idle.
    ensures Reaches(System(old(db.View()), Idle, issued, cut), steps, after) && Inv(after)
    ensures after.db == db.View() && after.feeder == Idle
    // It gets through exactly when none of its requests fails: three for each
    // row with enough fields, and one for the batch if there is any.
    ensures var m := LongRows(rows, |rows|); var total := 3 * m + (if m > 0 then 1 else 0);
            ok <==> FirstFailure(fails, 0, total) == total
    // All these rows are then stored, under the next indexes, and nothing else.
    ensures ok ==> after.issued == issued + MadeTrades(rows, pair, |issued|)
    ensures ok ==> forall j :: 0 <= j < |rows| && |rows[j]| >= 5 ==>
                     RowStored(db.trades, rows[j], pair, |issued| + 1 + LongRows(rows, j))
    ensures ok ==> db.total == old(db.total) + LongRows(rows, |rows|)
    ensures ok ==> forall k: nat :: k in db.trades <==> k in old(db.trades) || old(db.total) < k <= db.total
    ensures ok ==> forall k: nat :: k in old(db.trades) ==> k in db.trades && db.trades[k] == old(db.trades)[k]
    // Otherwise none is, and the indexes drawn before the first failure are lost.
    ensures var m, made := LongRows(rows, |rows|), MadeTrades(rows, pair, |issued|);
            var f := FirstFailure(fails, 0, 3 * m + (if m > 0 then 1 else 0));
            !ok ==> |made| == m && after.issued == issued + made[..if (f + 2) / 3 < m then (f + 2) / 3 else m]
    ensures !ok ==> db.trades == old(db.trades)
    ensures var m := LongRows(rows, |rows|); var total := 3 * m + (if m > 0 then 1 else 0);
            after.cut <==> cut || 0 < FirstFailure(fails, 0, total) < total
  {
    hide Reaches, Inv, MadeTrades, FirstFailure, LongRows, RowStored, CutAt, AfterRows;
    ghost var before := System(db.View(), Idle, issued, cut);
    ghost var m := LongRows(rows, |rows|);
    MadeAll(rows, pair, |issued|);
    LastRequest(fails, m);
    BaseInRange(before);
    var batch: seq<(Trade, nat)>;
    ok, batch, after, steps := HandleRows(db, rows, pair, fails, before);
    if ok {
      RowsDone(before, rows, pair, fails, batch, after, steps);
      ok, after, steps := HandleBatch(db, batch, fails, 3 * |batch|, before, after, steps);
      BaseInRange(after);
      if ok { RowsAreStored(before, after, rows, pair); }
    } else {
      RowsStopped(before, rows, pair, fails, after, steps);
    }
  }

  lemma MadeAll(rows: seq<Row>, pair: string, first: nat)
    ensures |MadeTrades(rows, pair, first)| == LongRows(rows, |rows|)
    ensures MadeTrades(rows, pair, first)[..LongRows(rows, |rows|)] == MadeTrades(rows, pair, first)
  {
    MadeCount(rows, pair, first, |rows|);
    assert rows[..|rows|] == rows;
  }

  /** The batch is stored by the last request, if m is not 0. */
  lemma LastRequest(fails: nat -> bool, m: nat)
    ensures var sent, total := 3 * m, 3 * m + (if m > 0 then 1 else 0);
            FirstFailure(fails, 0, total) ==
              if FirstFailure(fails, 0, sent) < sent then FirstFailure(fails, 0, sent)
              else if m > 0 && !fails(sent) then total else sent
  {
    FailureSplits(fails, 0, 3 * m, 3 * m + (if m > 0 then 1 else 0));
  }

  lemma RowsDone(before: System, rows: seq<Row>, pair: string, fails: nat -> bool, batch: seq<(Trade, nat)>,
                 s: System, n: nat)
    requires SoFar(before, rows, pair, fails, |rows|, batch, s, n)
    ensures var m := LongRows(rows, |rows|);
            && Reaches(before, n, s) && Inv(s)
            && s.feeder == Working(rows, pair, |rows|, batch, NeedCounter) && |batch| == m
            && s.issued == before.issued + MadeTrades(rows, pair, |before.issued|) && s.cut == before.cut
            && FirstFailure(fails, 0, 3 * m) == 3 * m
  {
    hide Reaches, Inv, FirstFailure, MadeTrades, LongRows;
    MadeAll(rows, pair, |before.issued|);
    assert rows[..|rows|] == rows;
  }

  lemma RowsStopped(before: System, rows: seq<Row>, pair: string, fails: nat -> bool, s: System, n: nat)
    requires Stopped(before, rows, pair, fails, s, n)
    ensures var m, made := LongRows(rows, |rows|), MadeTrades(rows, pair, |before.issued|);
            var f := FirstFailure(fails, 0, 3 * m);
            && Reaches(before, n, s) && Inv(s) && s.feeder == Idle && f < 3 * m && |made| == m
            && s.issued == before.issued + made[..if (f + 2) / 3 < m then (f + 2) / 3 else m]
            && s.cut == (before.cut || f > 0)
  {
    hide Reaches, Inv, FirstFailure, MadeTrades, LongRows;
    MadeAll(rows, pair, |before.issued|);
  }
}
