/**
 * The service layer: dividend yield, volume-weighted stock price over a
 * trailing window, the inputs of the geometric mean of all prices, and trade
 * recording, over one stock catalogue and one trade ledger. The wall clock
 * is the parameter `now` (seconds since an arbitrary epoch).
 */
module MarketService {
  import opened Entities
  import opened Pagination
  import opened StockRepo
  import opened TradeRepo

  /** The default length, in minutes, of the VWSP window. */
  const LastXMinutes: int := 15

  // ---------------------------------------------------------------- dividend yield

  /**
   * The dividend yield of a stock that was found: last dividend over price
   * for Common, fixed dividend ratio times par value over price for
   * Preferred. Any other type tag fails whatever the price; a zero price
   * fails before anything is divided.
   */
  function DividendYield(stock: Stock): (r: Result<real>)
    ensures ClassifyStockType(stock.stockType).Other? ==> r == Err(InvalidStockType)
    ensures !ClassifyStockType(stock.stockType).Other? && stock.price == 0.0 ==> r == Err(PriceZero)
    ensures r.Ok? <==>
      && !ClassifyStockType(stock.stockType).Other?
      && stock.price != 0.0
      && (ClassifyStockType(stock.stockType) == Preferred ==> stock.fixedDividendRatio.Some?)
    ensures r.Ok? && ClassifyStockType(stock.stockType) == Common ==>
      r.value * stock.price == stock.lastDividend
    ensures r.Ok? && ClassifyStockType(stock.stockType) == Preferred ==>
      r.value * stock.price == stock.fixedDividendRatio.value * stock.parValue
  {
    match ClassifyStockType(stock.stockType)
    case Common =>
      if stock.price == 0.0 then Err(PriceZero)
      else Ok(stock.lastDividend / stock.price)
    case Preferred =>
      if stock.price == 0.0 then Err(PriceZero)
      else if stock.fixedDividendRatio.None? then Err(MissingDividendRatio)
      else Ok(stock.fixedDividendRatio.value * stock.parValue / stock.price)
    case Other(_) => Err(InvalidStockType)
  }

  // ---------------------------------------------------------------- VWSP

  /** Σ price · quantity over `trades`. */
  function TotalValue(trades: seq<TradeRecord>): real
  {
    if trades == [] then 0.0
    else TotalValue(trades[..|trades| - 1]) + trades[|trades| - 1].price * trades[|trades| - 1].quantity as real
  }

  /** Σ quantity over `trades`. */
  function TotalQuantity(trades: seq<TradeRecord>): int
  {
    if trades == [] then 0
    else TotalQuantity(trades[..|trades| - 1]) + trades[|trades| - 1].quantity
  }

  /**
   * The volume-weighted price of the windowed trades: fails when there are
   * none and when their quantities sum to zero; otherwise the value that,
   * weighted by the total quantity, gives the total traded value.
   */
  function Vwsp(trades: seq<TradeRecord>, minutes: int): (r: Result<real>)
    ensures trades == [] ==> r == Err(NoTradesInWindow(minutes))
    ensures trades != [] && TotalQuantity(trades) == 0 ==> r == Err(TotalQuantityZero)
    ensures r.Ok? <==> trades != [] && TotalQuantity(trades) != 0
    ensures r.Ok? ==> r.value * TotalQuantity(trades) as real == TotalValue(trades)
  {
    if trades == [] then Err(NoTradesInWindow(minutes))
    else
      var totalValue := TotalValue(trades);
      var totalQuantity := TotalQuantity(trades);
      if totalQuantity == 0 then Err(TotalQuantityZero)
      else Ok(totalValue / totalQuantity as real)
  }

  /** With positive quantities the total quantity is at least the number of trades. */
  lemma {:induction false} PositiveQuantitiesSum(trades: seq<TradeRecord>)
    requires forall i :: 0 <= i < |trades| ==> trades[i].quantity > 0
    ensures TotalQuantity(trades) >= |trades|
  {
    if trades != [] {
      PositiveQuantitiesSum(trades[..|trades| - 1]);
    }
  }

  /** A nonempty window of trades with positive quantities never reaches the zero-quantity error. */
  lemma PositiveQuantitiesNeverZero(trades: seq<TradeRecord>, minutes: int)
    requires trades != []
    requires forall i :: 0 <= i < |trades| ==> trades[i].quantity > 0
    ensures Vwsp(trades, minutes).Ok?
  {
    PositiveQuantitiesSum(trades);
  }

  /** The total value lies between the total quantity times the lowest and the highest price bound. */
  lemma {:induction false} TotalValueBounds(trades: seq<TradeRecord>, lo: real, hi: real)
    requires forall i :: 0 <= i < |trades| ==> trades[i].quantity >= 0
    requires forall i :: 0 <= i < |trades| ==> lo <= trades[i].price <= hi
    ensures lo * TotalQuantity(trades) as real <= TotalValue(trades) <= hi * TotalQuantity(trades) as real
  {
    if trades != [] {
      var init, last := trades[..|trades| - 1], trades[|trades| - 1];
      TotalValueBounds(init, lo, hi);
      var q := last.quantity as real;
      ScaleBetween(lo, last.price, hi, q);
      Distribute(lo, TotalQuantity(init) as real, q);
      Distribute(hi, TotalQuantity(init) as real, q);
    }
  }

  lemma ScaleBetween(lo: real, p: real, hi: real, q: real)
    requires lo <= p <= hi && q >= 0.0
    ensures lo * q <= p * q <= hi * q
  {
  }

  lemma Distribute(a: real, x: real, y: real)
    ensures a * (x + y) == a * x + a * y
  {
  }

  /**
   * With positive quantities, the volume-weighted price is a weighted
   * average: it lies within any range that holds every traded price.
   */
  lemma VwspWithinPriceRange(trades: seq<TradeRecord>, minutes: int, lo: real, hi: real)
    requires trades != []
    requires forall i :: 0 <= i < |trades| ==> trades[i].quantity > 0
    requires forall i :: 0 <= i < |trades| ==> lo <= trades[i].price <= hi
    ensures Vwsp(trades, minutes).Ok?
    ensures lo <= Vwsp(trades, minutes).value <= hi
  {
    PositiveQuantitiesSum(trades);
    TotalValueBounds(trades, lo, hi);
    var q := TotalQuantity(trades) as real;
    var v := Vwsp(trades, minutes).value;
    assert q > 0.0;
    assert v * q == TotalValue(trades);
  }

  /** The window of `minutes` minutes, in seconds. */
  function WindowSeconds(minutes: int): (w: real)
    ensures minutes >= 0 ==> w >= 0.0
  {
    (minutes * 60) as real
  }

  /**
   * `calculate_timestamp_minutes_ago`: the clock value `minutes` minutes
   * before `now`.
   */
  function CalculateTimestampMinutesAgo(minutes: int, now: real): (t: real)
    ensures t + WindowSeconds(minutes) == now
    ensures minutes >= 0 ==> t <= now
  {
    now - (minutes * 60) as real
  }

  /**
   * As written, the service hands the absolute clock value `now - minutes * 60`
   * to get_trades, which reads it as a window length. The filter then keeps
   * exactly the records stamped at or after `minutes * 60` seconds past the
   * epoch, whatever `now` is and however old the records are.
   */
  lemma AsWrittenWindowIgnoresAge(records: seq<TradeRecord>, now: real, minutes: int, r: TradeRecord)
    ensures r in InWindow(records, now, CalculateTimestampMinutesAgo(minutes, now)) <==>
      r in records && r.timestamp >= WindowSeconds(minutes)
  {
  }

  /** A trade a million seconds old passes the as-written 15-minute filter, and not the intended one. */
  lemma AsWrittenKeepsStaleTrade()
    ensures var t := TradeRecord(1, 1000, "BUY", 35.0, 1000.0);
      && 1000000.0 - t.timestamp > WindowSeconds(15)
      && InWindow([t], 1000000.0, CalculateTimestampMinutesAgo(15, 1000000.0)) == [t]
      && InWindow([t], 1000000.0, WindowSeconds(15)) == []
  {
    var t := TradeRecord(1, 1000, "BUY", 35.0, 1000.0);
    assert [t][..0] == [];
  }

  /** Every record the intended window keeps is at most `minutes` minutes old. */
  lemma WindowKeepsOnlyRecent(records: seq<TradeRecord>, now: real, minutes: int)
    ensures forall r :: r in InWindow(records, now, WindowSeconds(minutes)) <==>
      r in records && now - r.timestamp <= (minutes * 60) as real
  {
  }

  /** A filter over records that are all outside the window is empty. */
  lemma {:induction false} InWindowDropsStale(stale: seq<TradeRecord>, now: real, window: real)
    requires forall i :: 0 <= i < |stale| ==> !Recent(stale[i], now, window)
    ensures InWindow(stale, now, window) == []
  {
    if stale != [] {
      var init := stale[..|stale| - 1];
      assert forall i :: 0 <= i < |init| ==> init[i] == stale[i];
      InWindowDropsStale(init, now, window);
    }
  }

  /** Trades older than the window do not change the volume-weighted price. */
  lemma VwspIgnoresStaleTrades(stale: seq<TradeRecord>, recent: seq<TradeRecord>, now: real, minutes: int)
    requires forall i :: 0 <= i < |stale| ==> now - stale[i].timestamp > WindowSeconds(minutes)
    ensures Vwsp(InWindow(stale + recent, now, WindowSeconds(minutes)), minutes)
         == Vwsp(InWindow(recent, now, WindowSeconds(minutes)), minutes)
  {
    var w := WindowSeconds(minutes);
    InWindowAppend(stale, recent, now, w);
    InWindowDropsStale(stale, now, w);
    assert [] + InWindow(recent, now, w) == InWindow(recent, now, w);
  }

  /** The two trades of the usage scenario: (35 × 1000 + 36 × 60000) / 61000. */
  lemma VwspOfTwoTrades(t1: TradeRecord, t2: TradeRecord, minutes: int)
    requires t1.price == 35.0 && t1.quantity == 1000
    requires t2.price == 36.0 && t2.quantity == 60000
    ensures Vwsp([t1, t2], minutes) == Ok((35.0 * 1000.0 + 36.0 * 60000.0) / 61000.0)
  {
    assert [t1, t2][..1] == [t1];
    assert [t1][..0] == [];
    assert TotalQuantity([t1]) == 1000;
    assert TotalValue([t1]) == 35.0 * 1000.0;
    assert TotalQuantity([t1, t2]) == 61000;
    assert TotalValue([t1, t2]) == 35.0 * 1000.0 + 36.0 * 60000.0;
  }

  // ---------------------------------------------------------------- geometric mean

  /** The prices of `entries` that are not zero, in catalogue order. */
  function NonzeroPrices(entries: seq<(string, Stock)>): (prices: seq<real>)
    ensures |prices| <= |entries|
    ensures forall p :: p in prices ==> p != 0.0
  {
    if entries == [] then []
    else
      var price := entries[|entries| - 1].1.price;
      NonzeroPrices(entries[..|entries| - 1]) + (if price != 0.0 then [price] else [])
  }

  lemma PrefixStep<T>(before: seq<T>, s: seq<T>, j: int)
    requires 0 <= j < |s|
    ensures before + s[..j + 1] == before + s[..j] + [s[j]]
  {
    assert s[..j + 1] == s[..j] + [s[j]];
  }

  /** Appending page k to pages 1..k-1 gives pages 1..k. */
  lemma NextPage<T>(entries: seq<T>, pageSize: int, k: int, before: seq<T>, page: seq<T>)
    requires k >= 1 && before == Pages(entries, pageSize, k - 1) && page == Page(entries, k, pageSize)
    ensures before + page[..|page|] == Pages(entries, pageSize, k)
  {
    assert page[..|page|] == page;
  }

  /**
   * One step of the catalogue walk: a stock with a nonzero price is
   * multiplied in and counted, one priced zero changes nothing.
   */
  lemma AccumulateStep(visited: seq<(string, Stock)>, e: (string, Stock), product: real, count: nat)
    requires product == Product(NonzeroPrices(visited)) && count == |NonzeroPrices(visited)|
    ensures (if e.1.price != 0.0 then product * e.1.price else product) == Product(NonzeroPrices(visited + [e]))
    ensures (if e.1.price != 0.0 then count + 1 else count) == |NonzeroPrices(visited + [e])|
  {
    assert (visited + [e])[..|visited|] == visited;
    var before := NonzeroPrices(visited);
    if e.1.price != 0.0 {
      assert NonzeroPrices(visited + [e]) == before + [e.1.price];
      ProductSnoc(before, e.1.price);
    } else {
      assert NonzeroPrices(visited + [e]) == before + [];
      assert before + [] == before;
    }
  }

  lemma ProductSnoc(xs: seq<real>, x: real)
    ensures Product(xs + [x]) == Product(xs) * x
  {
    assert (xs + [x])[..|xs|] == xs;
  }

  /** The prices of all of `entries`, zero or not. */
  function AllPrices(entries: seq<(string, Stock)>): (prices: seq<real>)
    ensures |prices| == |entries|
    ensures forall i :: 0 <= i < |entries| ==> prices[i] == entries[i].1.price
  {
    seq(|entries|, i requires 0 <= i < |entries| => entries[i].1.price)
  }

  function Product(xs: seq<real>): real
  {
    if xs == [] then 1.0 else Product(xs[..|xs| - 1]) * xs[|xs| - 1]
  }

  function Power(x: real, n: nat): real
  {
    if n == 0 then 1.0 else Power(x, n - 1) * x
  }

  /**
   * What calculate_geometric_mean takes the root of: the product of the
   * nonzero prices and their number; the mean is product ** (1 / count).
   */
  datatype RootInputs = RootInputs(product: real, count: nat)

  /** The geometric-mean inputs of a catalogue, or the error for one without a nonzero price. */
  function GeometricMeanInputs(entries: seq<(string, Stock)>): Result<RootInputs>
  {
    var prices := NonzeroPrices(entries);
    if |prices| == 0 then Err(NoValidPrices) else Ok(RootInputs(Product(prices), |prices|))
  }

  /** A price is counted exactly when it is nonzero and some stock has it. */
  lemma {:induction false} NonzeroPricesExactly(entries: seq<(string, Stock)>, p: real)
    ensures p in NonzeroPrices(entries) <==>
      p != 0.0 && exists i :: 0 <= i < |entries| && entries[i].1.price == p
  {
    if entries != [] {
      var n := |entries|;
      var init := entries[..n - 1];
      NonzeroPricesExactly(init, p);
      assert forall i :: 0 <= i < |init| ==> init[i] == entries[i];
      if p != 0.0 && exists i :: 0 <= i < n && entries[i].1.price == p {
        var i :| 0 <= i < n && entries[i].1.price == p;
        if i < n - 1 {
          assert init[i].1.price == p;
        } else {
          assert p in NonzeroPrices(entries);
        }
      }
    }
  }

  /** With no zero price, every stock is counted and its price multiplied in. */
  lemma {:induction false} NonzeroPricesWithoutZeros(entries: seq<(string, Stock)>)
    requires forall i :: 0 <= i < |entries| ==> entries[i].1.price != 0.0
    ensures NonzeroPrices(entries) == AllPrices(entries)
  {
    if entries != [] {
      var init := entries[..|entries| - 1];
      NonzeroPricesWithoutZeros(init);
      assert AllPrices(entries) == AllPrices(init) + [entries[|entries| - 1].1.price];
    }
  }

  /** Nothing is counted exactly when every price is zero. */
  lemma {:induction false} NoNonzeroPrices(entries: seq<(string, Stock)>)
    ensures NonzeroPrices(entries) == [] <==> forall i :: 0 <= i < |entries| ==> entries[i].1.price == 0.0
  {
    if entries != [] {
      var n := |entries|;
      var init := entries[..n - 1];
      NoNonzeroPrices(init);
      assert forall i :: 0 <= i < n - 1 ==> init[i] == entries[i];
    }
  }

  /** A product of nonzero factors is nonzero. */
  lemma {:induction false} ProductOfNonzero(xs: seq<real>)
    requires forall x :: x in xs ==> x != 0.0
    ensures Product(xs) != 0.0
  {
    if xs != [] {
      var init := xs[..|xs| - 1];
      assert forall x :: x in init ==> x in xs;
      ProductOfNonzero(init);
      assert xs[|xs| - 1] in xs;
    }
  }

  /** A product with a zero factor is zero. */
  lemma {:induction false} ProductWithZero(xs: seq<real>, k: int)
    requires 0 <= k < |xs| && xs[k] == 0.0
    ensures Product(xs) == 0.0
  {
    if k < |xs| - 1 {
      var init := xs[..|xs| - 1];
      assert init[k] == 0.0;
      ProductWithZero(init, k);
    }
  }

  /**
   * The geometric mean fails exactly when every price is zero; otherwise it
   * counts at least one price and its product is nonzero.
   */
  lemma GeometricMeanOutcome(entries: seq<(string, Stock)>)
    ensures GeometricMeanInputs(entries) == Err(NoValidPrices) <==>
      forall i :: 0 <= i < |entries| ==> entries[i].1.price == 0.0
    ensures GeometricMeanInputs(entries).Ok? ==>
      GeometricMeanInputs(entries).value.count >= 1 && GeometricMeanInputs(entries).value.product != 0.0
  {
    NoNonzeroPrices(entries);
    ProductOfNonzero(NonzeroPrices(entries));
  }

  /**
   * Excluding zero prices matters: with a zero price in the catalogue the
   * product of all prices is zero, while the product that is used is not.
   */
  lemma ZeroPricesExcluded(entries: seq<(string, Stock)>, k: int)
    requires 0 <= k < |entries| && entries[k].1.price == 0.0
    ensures Product(AllPrices(entries)) == 0.0
    ensures GeometricMeanInputs(entries).Ok? ==> GeometricMeanInputs(entries).value.product != 0.0
  {
    ProductWithZero(AllPrices(entries), k);
    ProductOfNonzero(NonzeroPrices(entries));
  }

  /** A catalogue of n stocks all priced c ≠ 0 has product c^n over n prices: its geometric mean is c. */
  lemma {:induction false} UniformPrices(entries: seq<(string, Stock)>, c: real)
    requires entries != [] && c != 0.0
    requires forall i :: 0 <= i < |entries| ==> entries[i].1.price == c
    ensures GeometricMeanInputs(entries) == Ok(RootInputs(Power(c, |entries|), |entries|))
  {
    NonzeroPricesWithoutZeros(entries);
    UniformProduct(AllPrices(entries), c);
  }

  lemma {:induction false} UniformProduct(xs: seq<real>, c: real)
    requires forall i :: 0 <= i < |xs| ==> xs[i] == c
    ensures Product(xs) == Power(c, |xs|)
  {
    if xs != [] {
      UniformProduct(xs[..|xs| - 1], c);
    }
  }

  /**
   * The inner loop of calculate_geometric_mean over one page of stocks:
   * multiply in and count every nonzero price, carrying on from the product
   * and count of the stocks visited before the page.
   */
  method AccumulatePage(ghost visited: seq<(string, Stock)>, stocks: seq<(string, Stock)>, product0: real, count0: nat)
    returns (product: real, count: nat)
    requires product0 == Product(NonzeroPrices(visited)) && count0 == |NonzeroPrices(visited)|
    ensures product == Product(NonzeroPrices(visited + stocks))
    ensures count == |NonzeroPrices(visited + stocks)|
  {
    product, count := product0, count0;
    assert visited + stocks[..0] == visited;
    for j := 0 to |stocks|
      invariant product == Product(NonzeroPrices(visited + stocks[..j]))
      invariant count == |NonzeroPrices(visited + stocks[..j])|
    {
      var stock := stocks[j].1;
      AccumulateStep(visited + stocks[..j], stocks[j], product, count);
      if stock.price != 0.0 {
        product := product * stock.price;
        count := count + 1;
      }
      PrefixStep(visited, stocks, j);
    }
    assert stocks[..|stocks|] == stocks;
  }

  // ---------------------------------------------------------------- the service

  class StockMarketService {
    const stockRepository: StockRepository
    const tradeRepository: TradeRepository

    constructor (stockRepository: StockRepository, tradeRepository: TradeRepository)
      ensures this.stockRepository == stockRepository && this.tradeRepository == tradeRepository
    {
      this.stockRepository := stockRepository;
      this.tradeRepository := tradeRepository;
    }

    /** `list_stocks`: the catalogue's page, as the stock repository lists it. */
    function ListStocks(pageNumber: int := 1, pageSize: int := 10): (page: seq<(string, Stock)>)
      reads stockRepository
      requires stockRepository.Valid()
      ensures page == stockRepository.ListStocks(pageNumber, pageSize)
      ensures pageSize >= 0 ==> |page| <= pageSize
    {
      stockRepository.ListStocks(pageNumber, pageSize)
    }

    /**
     * `calculate_dividend_yield`: fails for a symbol absent from the
     * catalogue, and is the dividend yield of the stock stored otherwise.
     */
    function CalculateDividendYield(symbol: string): (r: Result<real>)
      reads stockRepository
      requires stockRepository.Valid()
      ensures symbol !in stockRepository.symbols <==> r == Err(StockNotFound)
      ensures symbol in stockRepository.symbols ==> r == DividendYield(stockRepository.stocks[symbol])
    {
      match stockRepository.GetStockBySymbol(symbol)
      case None => Err(StockNotFound)
      case Some(stock) => DividendYield(stock)
    }

    /**
     * `calculate_volume_weighted_stock_price`: the VWSP of the trades of
     * `symbol` at most `lastXMinutes` minutes old at `now`.
     *
     * This is where the model departs from the source, which hands get_trades
     * the clock value `now - lastXMinutes * 60` (see AsWrittenWindowIgnoresAge)
     * and calls it by a name TradeRepository does not define: here the window
     * passed is the length `lastXMinutes * 60` seconds.
     */
    method CalculateVolumeWeightedStockPrice(symbol: string, lastXMinutes: int, now: real) returns (r: Result<real>)
      modifies tradeRepository
      ensures tradeRepository.trades.Keys == old(tradeRepository.trades.Keys) + {symbol}
      ensures forall s :: tradeRepository.TradesOf(s) == old(tradeRepository.TradesOf(s))
      ensures r == Vwsp(InWindow(tradeRepository.TradesOf(symbol), now, WindowSeconds(lastXMinutes)), lastXMinutes)
    {
      var window := WindowSeconds(lastXMinutes);
      var tradesInLastXMinutes := tradeRepository.GetTrades(symbol, Some(window), now);
      r := Vwsp(tradesInLastXMinutes, lastXMinutes);
    }

    /**
     * `record_trade`: stamp the trade with `now` and append it to the ledger
     * of `stockSymbol`; the catalogue does not change.
     */
    method RecordTrade(tradeId: int, stockSymbol: string, quantity: int, indicator: string, price: real, now: real)
      modifies tradeRepository
      ensures tradeRepository.TradesOf(stockSymbol) ==
        old(tradeRepository.TradesOf(stockSymbol)) + [TradeRecord(tradeId, quantity, indicator, price, now)]
      ensures forall s :: s != stockSymbol ==> tradeRepository.TradesOf(s) == old(tradeRepository.TradesOf(s))
      ensures unchanged(stockRepository)
    {
      var trade := Trade(tradeId, quantity, indicator, price, now, stockSymbol);
      tradeRepository.AddTrade(trade);
    }

    /**
     * `calculate_geometric_mean`, up to the final root: walks the catalogue
     * page by page, ten stocks a page, multiplying the nonzero prices and
     * counting them; fails when none was found.
     */
    method CalculateGeometricMean() returns (r: Result<RootInputs>)
      requires stockRepository.Valid()
      ensures r == GeometricMeanInputs(stockRepository.Entries())
    {
      var totalRecords := stockRepository.GetTotalRecords();
      var pageSize := 10;
      var totalPages := PageCount(totalRecords, pageSize);
      ghost var entries := stockRepository.Entries();
      ghost var visited: seq<(string, Stock)> := [];
      var product: real := 1.0;
      var count: nat := 0;
      for pageNumber := 1 to totalPages + 1
        invariant visited == Pages(entries, pageSize, pageNumber - 1)
        invariant product == Product(NonzeroPrices(visited))
        invariant count == |NonzeroPrices(visited)|
      {
        var stocks := stockRepository.ListStocks(pageNumber, pageSize);
        ghost var before := visited;
        product, count := AccumulatePage(before, stocks, product, count);
        NextPage(entries, pageSize, pageNumber, before, stocks);
        visited := before + stocks;
      }
      assert totalRecords == |entries|;
      PagesCoverAll(entries, pageSize);
      assert visited == entries;
      if count == 0 {
        r := Err(NoValidPrices);
      } else {
        r := Ok(RootInputs(product, count));
      }
    }

    /** `update_stock_prices`: the stock repository's bulk price update. */
    method UpdateStockPrices(newPrices: seq<(string, real)>) returns (skipped: seq<string>)
      requires stockRepository.Valid()
      modifies stockRepository
      ensures stockRepository.Valid()
      ensures stockRepository.symbols == old(stockRepository.symbols)
      ensures stockRepository.stocks == ApplyPrices(old(stockRepository.stocks), newPrices)
      ensures skipped == Skipped(old(stockRepository.stocks), newPrices)
      ensures unchanged(tradeRepository)
    {
      skipped := stockRepository.UpdateStockPrices(newPrices);
    }
  }
}
