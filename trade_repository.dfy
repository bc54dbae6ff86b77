/**
 * The trade ledger: per symbol, the append-only list of trade records, and
 * the sliding-window filter that keeps the records at most `window` seconds
 * old at the clock value `now`.
 */
module TradeRepo {
  import opened Entities

  /** `a` is `b` with some elements left out, the rest in their order. */
  ghost predicate Subsequence<T>(a: seq<T>, b: seq<T>)
    decreases |b|
  {
    if b == [] then a == []
    else
      Subsequence(a, b[..|b| - 1])
      || (a != [] && a[|a| - 1] == b[|b| - 1] && Subsequence(a[..|a| - 1], b[..|b| - 1]))
  }

  /** A record is in the window when its age at `now` is at most `window`. */
  predicate Recent(record: TradeRecord, now: real, window: real)
  {
    now - record.timestamp <= window
  }

  /** The comprehension of `get_trades`: the records of `records` that are in the window, in order. */
  function InWindow(records: seq<TradeRecord>, now: real, window: real): (kept: seq<TradeRecord>)
    ensures |kept| <= |records|
    ensures forall r :: r in kept <==> r in records && Recent(r, now, window)
  {
    if records == [] then []
    else
      var last := records[|records| - 1];
      assert records == records[..|records| - 1] + [last];
      InWindow(records[..|records| - 1], now, window) + (if Recent(last, now, window) then [last] else [])
  }

  /** The windowed list is an order-preserving subsequence of the full list. */
  lemma {:induction false} InWindowIsSubsequence(records: seq<TradeRecord>, now: real, window: real)
    ensures Subsequence(InWindow(records, now, window), records)
  {
    if records != [] {
      var init := records[..|records| - 1];
      InWindowIsSubsequence(init, now, window);
      var kept := InWindow(records, now, window);
      assert records[..|records| - 1] == init;
      if Recent(records[|records| - 1], now, window) {
        assert kept[..|kept| - 1] == InWindow(init, now, window);
        assert kept[|kept| - 1] == records[|records| - 1];
      } else {
        assert kept == InWindow(init, now, window);
      }
    }
  }

  /** For one clock value, a wider window keeps everything a narrower one keeps, in order. */
  lemma {:induction false} WiderWindowKeepsMore(records: seq<TradeRecord>, now: real, narrow: real, wide: real)
    requires narrow <= wide
    ensures Subsequence(InWindow(records, now, narrow), InWindow(records, now, wide))
  {
    if records != [] {
      var init := records[..|records| - 1];
      var last := records[|records| - 1];
      WiderWindowKeepsMore(init, now, narrow, wide);
      var a, b := InWindow(records, now, narrow), InWindow(records, now, wide);
      if Recent(last, now, narrow) {
        assert a[..|a| - 1] == InWindow(init, now, narrow);
        assert b[..|b| - 1] == InWindow(init, now, wide);
      } else if Recent(last, now, wide) {
        assert a == InWindow(init, now, narrow);
        assert b[..|b| - 1] == InWindow(init, now, wide);
      } else {
        assert a == InWindow(init, now, narrow);
        assert b == InWindow(init, now, wide);
      }
    }
  }

  /** The filter distributes over a split of the list. */
  lemma {:induction false} InWindowAppend(older: seq<TradeRecord>, newer: seq<TradeRecord>, now: real, window: real)
    ensures InWindow(older + newer, now, window) == InWindow(older, now, window) + InWindow(newer, now, window)
  {
    if newer != [] {
      var init := newer[..|newer| - 1];
      assert (older + newer)[..|older + newer| - 1] == older + init;
      InWindowAppend(older, init, now, window);
    } else {
      assert older + newer == older;
    }
  }

  /** When every record is in the window, the filter returns the full list. */
  lemma {:induction false} InWindowKeepsAllRecent(records: seq<TradeRecord>, now: real, window: real)
    requires forall i :: 0 <= i < |records| ==> Recent(records[i], now, window)
    ensures InWindow(records, now, window) == records
  {
    if records != [] {
      var init := records[..|records| - 1];
      InWindowKeepsAllRecent(init, now, window);
      assert records == init + [records[|records| - 1]];
    }
  }

  class TradeRepository {
    /** symbol -> the records of its trades, oldest first. */
    var trades: map<string, seq<TradeRecord>>

    constructor ()
      ensures trades == map[]
    {
      trades := map[];
    }

    /** The list `self.trades[symbol]` denotes: empty for a symbol without an entry. */
    function TradesOf(symbol: string): (records: seq<TradeRecord>)
      reads this
      ensures symbol !in trades ==> records == []
    {
      if symbol in trades then trades[symbol] else []
    }

    /**
     * `add_trade`: append one record, carrying the trade's id, quantity,
     * indicator, price and timestamp, to the list of its symbol. No other
     * symbol's list changes.
     */
    method AddTrade(trade: Trade)
      modifies this
      ensures trades.Keys == old(trades.Keys) + {trade.stockSymbol}
      ensures TradesOf(trade.stockSymbol) == old(TradesOf(trade.stockSymbol)) +
        [TradeRecord(trade.tradeId, trade.quantity, trade.indicator, trade.price, trade.timestamp)]
      ensures forall s :: s != trade.stockSymbol ==> TradesOf(s) == old(TradesOf(s))
    {
      var record := TradeRecord(trade.tradeId, trade.quantity, trade.indicator, trade.price, trade.timestamp);
      trades := trades[trade.stockSymbol := TradesOf(trade.stockSymbol) + [record]];
    }

    /**
     * `get_trades`: the records of `symbol`; with a window, only those at
     * most `window` seconds old at the clock value `now`. Reading a symbol
     * without an entry gives it an empty one and changes no records.
     */
    method GetTrades(symbol: string, window: Option<real>, now: real) returns (result: seq<TradeRecord>)
      modifies this
      ensures trades.Keys == old(trades.Keys) + {symbol}
      ensures forall s :: TradesOf(s) == old(TradesOf(s))
      ensures window.None? ==> result == TradesOf(symbol)
      ensures window.Some? ==> result == InWindow(TradesOf(symbol), now, window.value)
    {
      if symbol !in trades {
        trades := trades[symbol := []];
      }
      var records := trades[symbol];
      if window.None? {
        result := records;
      } else {
        result := InWindow(records, now, window.value);
      }
    }
  }
}
