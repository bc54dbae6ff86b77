/**
 * The stock catalogue: an insertion-ordered mapping from symbol to Stock,
 * kept as the sequence of symbols in insertion order beside the map itself.
 */
module StockRepo {
  import opened Entities
  import opened Pagination

  ghost predicate Distinct<T>(s: seq<T>)
  {
    forall i, j :: 0 <= i < j < |s| ==> s[i] != s[j]
  }

  /** A sequence without repetitions has as many distinct elements as positions. */
  lemma {:induction false} DistinctCardinality<T>(s: seq<T>)
    requires Distinct(s)
    ensures |set x | x in s| == |s|
  {
    if s != [] {
      var last := s[|s| - 1];
      var init := s[..|s| - 1];
      assert Distinct(init);
      DistinctCardinality(init);
      assert (set x | x in s) == (set x | x in init) + {last};
      assert last !in init;
    }
  }

  /** The catalogue's (symbol, stock) pairs in the order of `keys`. */
  function EntriesOf(keys: seq<string>, stocks: map<string, Stock>): (es: seq<(string, Stock)>)
    requires forall k :: k in keys ==> k in stocks
    ensures |es| == |keys|
    ensures forall i :: 0 <= i < |keys| ==> es[i] == (keys[i], stocks[keys[i]])
  {
    seq(|keys|, i requires 0 <= i < |keys| => (keys[i], stocks[keys[i]]))
  }

  /**
   * The effect of `update_stock_prices(newPrices)` on the catalogue: each
   * (symbol, price) pair, in order, overwrites the price of an existing stock
   * and is skipped for an unknown symbol.
   */
  function ApplyPrices(stocks: map<string, Stock>, newPrices: seq<(string, real)>): (r: map<string, Stock>)
    ensures r.Keys == stocks.Keys
    ensures forall k :: k in r ==> r[k] == stocks[k].(price := r[k].price)
  {
    if newPrices == [] then stocks
    else
      var before := ApplyPrices(stocks, newPrices[..|newPrices| - 1]);
      var (symbol, price) := newPrices[|newPrices| - 1];
      if symbol in before then before[symbol := before[symbol].(price := price)] else before
  }

  /** The symbols of `newPrices` that name no stock of the catalogue, in the order given. */
  function Skipped(stocks: map<string, Stock>, newPrices: seq<(string, real)>): (skipped: seq<string>)
    ensures |skipped| <= |newPrices|
    ensures forall s :: s in skipped ==> s !in stocks
  {
    if newPrices == [] then []
    else
      var symbol := newPrices[|newPrices| - 1].0;
      Skipped(stocks, newPrices[..|newPrices| - 1]) + (if symbol in stocks then [] else [symbol])
  }

  /** One more pair of `newPrices` changes the catalogue and the skipped list as one loop step does. */
  lemma PricesStep(stocks: map<string, Stock>, newPrices: seq<(string, real)>, i: int)
    requires 0 <= i < |newPrices|
    ensures var before := ApplyPrices(stocks, newPrices[..i]);
      var (symbol, price) := newPrices[i];
      && ApplyPrices(stocks, newPrices[..i + 1])
        == (if symbol in before then before[symbol := before[symbol].(price := price)] else before)
      && Skipped(stocks, newPrices[..i + 1])
        == Skipped(stocks, newPrices[..i]) + (if symbol in stocks then [] else [symbol])
  {
    assert newPrices[..i + 1][..i] == newPrices[..i];
  }

  ghost predicate DistinctSymbols(newPrices: seq<(string, real)>)
  {
    forall i, j :: 0 <= i < j < |newPrices| ==> newPrices[i].0 != newPrices[j].0
  }

  /** Every given symbol that exists ends up with the price given for it. */
  lemma {:induction false} ApplyPricesSetsGiven(stocks: map<string, Stock>, newPrices: seq<(string, real)>, i: int)
    requires DistinctSymbols(newPrices)
    requires 0 <= i < |newPrices| && newPrices[i].0 in stocks
    ensures ApplyPrices(stocks, newPrices)[newPrices[i].0] == stocks[newPrices[i].0].(price := newPrices[i].1)
  {
    var n := |newPrices|;
    var init := newPrices[..n - 1];
    if i < n - 1 {
      assert DistinctSymbols(init);
      assert init[i] == newPrices[i];
      ApplyPricesSetsGiven(stocks, init, i);
      assert newPrices[n - 1].0 != newPrices[i].0;
    }
  }

  /** A stock whose symbol is not among the given ones keeps every field. */
  lemma {:induction false} ApplyPricesLeavesOthers(stocks: map<string, Stock>, newPrices: seq<(string, real)>, symbol: string)
    requires symbol in stocks
    requires forall i :: 0 <= i < |newPrices| ==> newPrices[i].0 != symbol
    ensures ApplyPrices(stocks, newPrices)[symbol] == stocks[symbol]
  {
    if newPrices != [] {
      var init := newPrices[..|newPrices| - 1];
      assert forall i :: 0 <= i < |init| ==> init[i] == newPrices[i];
      ApplyPricesLeavesOthers(stocks, init, symbol);
    }
  }

  /** `symbol` is the symbol of some pair of `newPrices`. */
  ghost predicate Given(newPrices: seq<(string, real)>, symbol: string)
  {
    exists i :: 0 <= i < |newPrices| && newPrices[i].0 == symbol
  }

  /** The skipped symbols are exactly the given symbols absent from the catalogue. */
  lemma {:induction false} SkippedExactly(stocks: map<string, Stock>, newPrices: seq<(string, real)>, symbol: string)
    ensures symbol in Skipped(stocks, newPrices) <==> symbol !in stocks && Given(newPrices, symbol)
  {
    if newPrices != [] {
      SkippedExactly(stocks, newPrices[..|newPrices| - 1], symbol);
      GivenSplit(newPrices, symbol);
    }
  }

  /** A symbol is given in a nonempty list when it is given before the last pair or in it. */
  lemma GivenSplit(newPrices: seq<(string, real)>, symbol: string)
    requires newPrices != []
    ensures Given(newPrices, symbol) <==>
      Given(newPrices[..|newPrices| - 1], symbol) || newPrices[|newPrices| - 1].0 == symbol
  {
    var n := |newPrices|;
    var init := newPrices[..n - 1];
    if Given(newPrices, symbol) {
      var i :| 0 <= i < n && newPrices[i].0 == symbol;
      if i < n - 1 {
        assert init[i].0 == symbol;
      }
    }
    if Given(init, symbol) {
      var i :| 0 <= i < n - 1 && init[i].0 == symbol;
      assert newPrices[i].0 == symbol;
    }
  }

  class StockRepository {
    /** The symbols of the catalogue in insertion order. */
    var symbols: seq<string>
    var stocks: map<string, Stock>

    ghost predicate Valid()
      reads this
    {
      && Distinct(symbols)
      && (forall k :: k in stocks <==> k in symbols)
      && (forall k :: k in stocks ==> stocks[k].symbol == k)
    }

    constructor ()
      ensures Valid()
      ensures symbols == [] && stocks == map[]
    {
      symbols := [];
      stocks := map[];
    }

    /** The catalogue as the insertion-ordered list of its items. */
    function Entries(): (es: seq<(string, Stock)>)
      reads this
      requires Valid()
    {
      EntriesOf(symbols, stocks)
    }

    /** `list_stocks`: the page of the catalogue at `pageNumber`, `pageSize` items per page. */
    function ListStocks(pageNumber: int := 1, pageSize: int := 10): (page: seq<(string, Stock)>)
      reads this
      requires Valid()
      ensures pageSize >= 0 ==> |page| <= pageSize
      ensures pageNumber >= 1 && pageSize >= 0 ==>
        page == Entries()[Min((pageNumber - 1) * pageSize, |symbols|)..Min(pageNumber * pageSize, |symbols|)]
      ensures pageNumber >= 1 && pageSize >= 0 && (pageNumber - 1) * pageSize >= |symbols| ==> page == []
    {
      Page(Entries(), pageNumber, pageSize)
    }

    /** `get_total_records`: the number of stocks in the catalogue. */
    function GetTotalRecords(): (n: nat)
      reads this
      requires Valid()
      ensures n == |symbols| == |Entries()|
    {
      assert stocks.Keys == set k | k in symbols;
      DistinctCardinality(symbols);
      |stocks|
    }

    /** `get_stock_by_symbol`: the stock stored under `symbol`, or None. */
    function GetStockBySymbol(symbol: string): (found: Option<Stock>)
      reads this
      requires Valid()
      ensures found.None? <==> symbol !in symbols
      ensures found.Some? ==> found.value.symbol == symbol
    {
      if symbol in stocks then Some(stocks[symbol]) else None
    }

    /**
     * `add_stock`: insert `stock` under its symbol, or overwrite the stock
     * stored there. An overwritten symbol keeps its place in the order.
     */
    method AddStock(stock: Stock)
      requires Valid()
      modifies this
      ensures Valid()
      ensures stocks == old(stocks)[stock.symbol := stock]
      ensures symbols == if stock.symbol in old(symbols) then old(symbols) else old(symbols) + [stock.symbol]
      ensures GetStockBySymbol(stock.symbol) == Some(stock)
      ensures GetTotalRecords() == old(GetTotalRecords()) + (if stock.symbol in old(symbols) then 0 else 1)
    {
      if stock.symbol !in stocks {
        symbols := symbols + [stock.symbol];
      }
      stocks := stocks[stock.symbol := stock];
    }

    /**
     * `update_stock_prices`: overwrite the price of every listed symbol that
     * exists; an unknown symbol is skipped and returned in `skipped` instead
     * of aborting the batch.
     */
    method UpdateStockPrices(newPrices: seq<(string, real)>) returns (skipped: seq<string>)
      requires Valid()
      modifies this
      ensures Valid()
      ensures symbols == old(symbols)
      ensures stocks == ApplyPrices(old(stocks), newPrices)
      ensures skipped == Skipped(old(stocks), newPrices)
      ensures GetTotalRecords() == old(GetTotalRecords())
    {
      skipped := [];
      for i := 0 to |newPrices|
        invariant Valid()
        invariant symbols == old(symbols)
        invariant stocks == ApplyPrices(old(stocks), newPrices[..i])
        invariant skipped == Skipped(old(stocks), newPrices[..i])
      {
        PricesStep(old(stocks), newPrices, i);
        var (symbol, price) := newPrices[i];
        if symbol in stocks {
          stocks := stocks[symbol := stocks[symbol].(price := price)];
        } else {
          skipped := skipped + [symbol];
        }
      }
      assert newPrices[..|newPrices|] == newPrices;
    }

    /**
     * Listing pages 1 to ceil(n / pageSize) in turn gives back the whole
     * catalogue in insertion order, each stock exactly once.
     */
    lemma PagedListingCoversCatalogue(pageSize: int)
      requires Valid() && pageSize >= 1
      ensures Pages(Entries(), pageSize, PageCount(GetTotalRecords(), pageSize)) == Entries()
      ensures forall i, j :: 0 <= i < j < |Entries()| ==> Entries()[i].0 != Entries()[j].0
    {
      PagesCoverAll(Entries(), pageSize);
    }
  }
}
