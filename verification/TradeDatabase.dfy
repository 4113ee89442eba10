/** The trade tables and their request handlers. */
module TradeDatabase {
  import opened TradeIds

  const U64_MAX: int := 0xFFFF_FFFF_FFFF_FFFF

  type u64 = x: int | 0 <= x <= U64_MAX

  const MAX_PAGE_SIZE: nat := 100
  const MAX_BATCH_SIZE: nat := 1000

  datatype Option<T> = None | Some(value: T)

  datatype Trade = Trade(
    id: string,
    price: string,
    volume: string,
    timestamp: string,
    side: string,
    orderType: string,
    misc: string,
    pair: string)

  datatype Db = Db(trades: map<nat, Trade>, tradeIds: map<string, nat>, total: nat)

  function Min(a: nat, b: nat): (m: nat)
    ensures m <= a && m <= b && (m == a || m == b)
  {
    if a < b then a else b
  }

  function StoreBatch(db: Db, batch: seq<(Trade, nat)>): Db {
    if batch == [] then db
    else
      var before := StoreBatch(db, batch[..|batch| - 1]);
      var (trade, index) := batch[|batch| - 1];
      before.(trades := before.trades[index := trade], tradeIds := before.tradeIds[trade.id := index])
  }

  /** The range read stops at the first index that is missing. */
  function RangeFrom(trades: map<nat, Trade>, i: nat, end: nat): seq<Trade>
    decreases end - i
  {
    if i >= end || i !in trades then [] else [trades[i]] + RangeFrom(trades, i + 1, end)
  }

  /** The trades present at indexes lo, ..., hi-1, in order. */
  function Present(trades: map<nat, Trade>, lo: nat, hi: nat): seq<Trade>
    requires lo <= hi
    decreases hi
  {
    if lo == hi then []
    else Present(trades, lo, hi - 1) + (if hi - 1 in trades then [trades[hi - 1]] else [])
  }

  function RecentSize(db: Db, n: nat): nat {
    Min(Min(n, db.total), MAX_PAGE_SIZE)
  }

  function RecentTrades(db: Db, n: nat): seq<Trade> {
    Present(db.trades, db.total - RecentSize(db, n) + 1, db.total + 1)
  }

  /** The query with its defaults and the clamped limit. */
  function GetTrades(db: Db, startIndex: Option<nat>, limit: Option<nat>): seq<Trade> {
    var start := if startIndex.Some? then startIndex.value else 1;
    var size := Min(if limit.Some? then limit.value else 100, MAX_BATCH_SIZE);
    RangeFrom(db.trades, start, start + size)
  }

  class Database {
    var trades: map<nat, Trade>
    var tradeIds: map<string, nat>
    var total: nat

    ghost function View(): Db
      reads this
    {
      Db(trades, tradeIds, total)
    }

    constructor ()
      ensures View() == Db(map[], map[], 0)
    {
      trades, tradeIds, total := map[], map[], 0;
    }

    method GetNextTradeCounter() returns (newTotal: nat)
      modifies this
      ensures newTotal == old(total) + 1
      ensures View() == old(View()).(total := newTotal)
    {
      newTotal := total + 1;
      total := newTotal;
    }

    method CheckIdExists(id: string) returns (exists_: bool)
      ensures exists_ <==> id in tradeIds
    {
      exists_ := id in tradeIds;
    }

    method StoreIdWithIndex(id: string, index: nat)
      modifies this
      ensures View() == old(View()).(tradeIds := old(tradeIds)[id := index])
    {
      tradeIds := tradeIds[id := index];
    }

    method StoreTradeBatch(batch: seq<(Trade, nat)>) returns (storedCount: nat)
      modifies this
      ensures View() == StoreBatch(old(View()), batch) && storedCount == |batch|
    {
      for i := 0 to |batch|
        invariant View() == StoreBatch(old(View()), batch[..i])
      {
        var (trade, index) := batch[i];
        assert batch[..i + 1][..i] == batch[..i];
        trades := trades[index := trade];
        tradeIds := tradeIds[trade.id := index];
      }
      assert batch[..|batch|] == batch;
      storedCount := |batch|;
    }

    /** `ok` is false where `startIndex + limit` overflows in a build that
        checks; without checks the end wraps around to before the start. */
    method GetTradesByRange(startIndex: u64, limit: u64, checked: bool) returns (ok: bool, result: seq<Trade>)
      ensures ok <==> !checked || startIndex + limit <= U64_MAX
      ensures var end := startIndex + limit;
              ok ==> result == if end <= U64_MAX then RangeFrom(trades, startIndex, end) else []
    {
      ok, result := true, [];
      if checked && startIndex + limit > U64_MAX {
        return false, [];
      }
      var endIndex: nat := (startIndex + limit) % (U64_MAX + 1);
      assert endIndex == startIndex + limit - if startIndex + limit <= U64_MAX then 0 else U64_MAX + 1;
      var i: nat := startIndex;
      while i < endIndex
        invariant startIndex <= i && (i <= endIndex || i == startIndex)
        invariant i < endIndex ==> startIndex + limit <= U64_MAX
        invariant result + RangeFrom(trades, i, endIndex) == RangeFrom(trades, startIndex, endIndex)
      {
        if i in trades {
          assert result + RangeFrom(trades, i, endIndex) == result + [trades[i]] + RangeFrom(trades, i + 1, endIndex);
          result := result + [trades[i]];
        } else {
          break;
        }
        i := i + 1;
      }
      assert result + [] == result;
    }

    method GetRecentTrades(n: nat) returns (result: seq<Trade>)
      ensures result == RecentTrades(View(), n)
    {
      result := [];
      var size := Min(Min(n, total), MAX_PAGE_SIZE);
      if size == 0 {
        return;
      }
      for i := total - size + 1 to total + 1
        invariant result == Present(trades, total - size + 1, i)
      {
        if i in trades {
          result := result + [trades[i]];
        }
      }
    }
  }

  // ----- What the handlers compute ---------------------------------------

  /** A range read returns the longest unbroken run of trades from its start
      that the limit allows. */
  lemma {:induction false} RangeIsLongestRun(trades: map<nat, Trade>, i: nat, end: nat)
    requires i <= end
    ensures var r := RangeFrom(trades, i, end);
            && |r| <= end - i
            && (forall k: nat :: i <= k < i + |r| ==> k in trades && r[k - i] == trades[k])
            && (|r| < end - i ==> i + |r| !in trades)
    decreases end - i
  {
    if i < end && i in trades {
      RangeIsLongestRun(trades, i + 1, end);
      var r, rest := RangeFrom(trades, i, end), RangeFrom(trades, i + 1, end);
      assert r == [trades[i]] + rest;
      forall k: nat | i <= k < i + |r|
        ensures k in trades && r[k - i] == trades[k]
      {
        if k > i { assert r[k - i] == rest[k - (i + 1)]; }
      }
    }
  }
}
