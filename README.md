# Simple stock market: a verified model

This models the core of a small stock-market service. The core has three
parts.

- **The stock repository.** It is a catalogue of stocks keyed by symbol, in
  insertion order. Each stock has a type tag ("Common" or "Preferred"), a
  last dividend, an optional fixed dividend ratio, a par value and a price.
  The model covers: paged listing with Python slice semantics, the record
  count, lookup by symbol, insert-or-overwrite, and the bulk price update.
- **The trade repository.** It is a ledger holding, for each symbol, the
  records of its trades in arrival order: id, quantity, buy/sell indicator,
  price and timestamp. The model covers appending a trade, reading the
  whole list, and reading the trades at most a given number of seconds old.
- **The service.** The model covers:
  - the dividend yield of a stock: last dividend over price for Common, and
    fixed ratio times par value over price for Preferred;
  - the volume-weighted stock price (VWSP) over the trades of the last
    `LAST_X_MINUTES = 15` minutes;
  - recording a trade stamped with the current time;
  - the geometric mean of all nonzero prices, walked page by page with ten
    stocks per page;
  - pass-throughs for listing and price update.

Layout:

| file | module | contents |
|---|---|---|
| entities.dfy | `Entities` | `Stock`, `Trade`, the stored `TradeRecord`, `Option`, `Result`, the `Error` kinds, the stock-type tag |
| pagination.dfy | `Pagination` | Python slicing, `Page`, `PageCount`, pages concatenated in order |
| stock_repository.dfy | `StockRepo` | class `StockRepository`, the price-update specification `ApplyPrices` / `Skipped` |
| trade_repository.dfy | `TradeRepo` | class `TradeRepository`, the window filter `InWindow` |
| stock_market_service.dfy | `MarketService` | class `StockMarketService`, `DividendYield`, `Vwsp`, `NonzeroPrices`, `GeometricMeanInputs` |

How the model represents the source:

- **Repositories as classes.** Both repositories update their fields in
  place, so each is a class.
  - The stock dictionary is a `map` plus a `seq` of its keys in insertion
    order. The invariant `Valid()` says the keys are distinct, the two
    agree, and each stock is stored under its own symbol.
  - The trade `defaultdict(list)` is a `map` from symbol to a `seq` of
    records. `TradesOf` reads a missing key as the empty list.
- **Loops as methods.** Each loop of the source is a method with a `for`
  loop, proved against a specification function:
  - the price update against `ApplyPrices` and `Skipped`;
  - the geometric-mean walk against `GeometricMeanInputs`, over the pages
    `1..PageCount`.
- **The clock.** `time.time()` becomes the parameter `now`.
- **Exceptions.** Raised errors become `Err` values of a `Result`, one
  `Error` constructor per message. A missing fixed dividend ratio is
  `MissingDividendRatio`; see "Left out".

## Model

| member | source | states |
|---|---|---|
| Entities.ClassifyStockType | pythonProject/StockMarketService.py:27-36 | a tag is Common exactly when it is "Common", Preferred exactly when it is "Preferred", and any other tag is kept as it is |
| Pagination.Page | pythonProject/Repositories/StockRepository.py:5-8 | a page holds at most `page_size` items; for page_number ≥ 1 it is the run of entries from (page_number-1)·page_size to page_number·page_size, clamped to the end; a page that starts beyond the end is empty |
| Pagination.PageCount | pythonProject/StockMarketService.py:65 | `(n + s - 1) // s` is the least page count that covers n entries: n ≤ count·s and (count-1)·s < n |
| Pagination.PagesPrefix | pythonProject/StockMarketService.py:70-71 | listing pages 1..k in turn yields exactly the first k·s entries, in order |
| Pagination.PagesCoverAll | pythonProject/StockMarketService.py:63-71 | listing pages 1..total_pages in turn yields every entry exactly once, in insertion order |
| Pagination.PageAfterLastIsEmpty | pythonProject/Repositories/StockRepository.py:5-8 | every page after the last one is empty |
| StockRepo.ApplyPrices | pythonProject/Repositories/StockRepository.py:10-13 | the bulk update keeps the set of symbols and changes no field of any stock except its price |
| StockRepo.Skipped | pythonProject/Repositories/StockRepository.py:14-15 | every reported symbol is absent from the catalogue, and there are no more reports than pairs |
| StockRepo.ApplyPricesSetsGiven | pythonProject/Repositories/StockRepository.py:11-13 | for distinct keys, as in a dict, each pair whose symbol exists ends with that stock carrying the given price and its other fields intact |
| StockRepo.ApplyPricesLeavesOthers | pythonProject/Repositories/StockRepository.py:11-13 | a stock whose symbol is not given is left entirely unchanged |
| StockRepo.SkippedExactly | pythonProject/Repositories/StockRepository.py:11-15 | a symbol is reported as not found if and only if it is given and absent from the catalogue |
| StockRepo.StockRepository.constructor | pythonProject/Repositories/StockRepository.py:2-3 | the catalogue starts empty and valid |
| StockRepo.StockRepository.ListStocks | pythonProject/Repositories/StockRepository.py:5-8 | the page has at most `page_size` items and is the run of entries in insertion order from (page_number-1)·page_size to page_number·page_size; a page past the end is empty |
| StockRepo.StockRepository.GetTotalRecords | pythonProject/Repositories/StockRepository.py:17-18 | the number of keys of the dictionary equals the number of symbols in insertion order, and so the number of listed entries |
| StockRepo.StockRepository.GetStockBySymbol | pythonProject/Repositories/StockRepository.py:23-24 | None exactly when the symbol is not in the catalogue; a stock found carries the requested symbol |
| StockRepo.StockRepository.AddStock | pythonProject/Repositories/StockRepository.py:20-21 | the stock is stored under its symbol, and the lookup returns it afterwards; a new symbol goes to the end of the order and adds one record; an existing symbol keeps its place and the count |
| StockRepo.StockRepository.UpdateStockPrices | pythonProject/Repositories/StockRepository.py:10-15 | the loop leaves exactly the catalogue `ApplyPrices` describes, returns exactly the unknown symbols in the order given, and keeps the symbol order, the record count and the invariant |
| StockRepo.StockRepository.PagedListingCoversCatalogue | pythonProject/Repositories/StockRepository.py:5-18 | listing pages 1..ceil(get_total_records / page_size) gives back the whole catalogue, in insertion order, each symbol once |
| TradeRepo.InWindow | pythonProject/Repositories/TradeRepository.py:24 | a record is kept exactly when it is in the list and at most `window` seconds old at `now`; nothing is added |
| TradeRepo.InWindowIsSubsequence | pythonProject/Repositories/TradeRepository.py:24 | the filtered list keeps the original order: it is a subsequence of the records |
| TradeRepo.WiderWindowKeepsMore | pythonProject/Repositories/TradeRepository.py:24 | at one clock value, a wider window keeps every record a narrower one keeps, in order |
| TradeRepo.InWindowAppend | pythonProject/Repositories/TradeRepository.py:24 | filtering older and newer trades together equals filtering each and concatenating |
| TradeRepo.InWindowKeepsAllRecent | pythonProject/Repositories/TradeRepository.py:24 | when every record is recent, the filter returns the whole list |
| TradeRepo.TradeRepository.constructor | pythonProject/Repositories/TradeRepository.py:6-7 | the ledger starts with no symbol |
| TradeRepo.TradeRepository.TradesOf | pythonProject/Repositories/TradeRepository.py:7 | a symbol without an entry reads as the empty list, as in a `defaultdict(list)` |
| TradeRepo.TradeRepository.AddTrade | pythonProject/Repositories/TradeRepository.py:9-16 | exactly one record with the trade's id, quantity, indicator, price and timestamp is appended to its symbol's list; every other list is unchanged |
| TradeRepo.TradeRepository.GetTrades | pythonProject/Repositories/TradeRepository.py:18-25 | reading inserts an empty entry for an unknown symbol and changes no records; without a window the result is the whole list, with one it is the filtered list |
| MarketService.DividendYield | pythonProject/StockMarketService.py:27-36 | an unknown type fails as invalid; a known type with price zero fails before dividing; otherwise the yield is defined (for Preferred, only given a ratio); yield·price equals the last dividend (Common) or ratio·par value (Preferred) |
| MarketService.Vwsp | pythonProject/StockMarketService.py:46-55 | no trades gives the "no trades in the last N minutes" error; a zero total quantity gives its own error; exactly otherwise the result times the total quantity is the total traded value |
| MarketService.PositiveQuantitiesSum | pythonProject/StockMarketService.py:50 | with positive quantities, the total quantity is at least the number of trades |
| MarketService.PositiveQuantitiesNeverZero | pythonProject/StockMarketService.py:52-53 | a nonempty window of positive-quantity trades never reaches the zero-quantity error |
| MarketService.TotalValueBounds | pythonProject/StockMarketService.py:49-50 | the total value lies between the total quantity times any lower and any upper bound of the prices |
| MarketService.VwspWithinPriceRange | pythonProject/StockMarketService.py:46-55 | with positive quantities the VWSP is a weighted average: it lies within any range holding every traded price |
| MarketService.WindowSeconds | pythonProject/StockMarketService.py:39 | a nonnegative number of minutes is a nonnegative window |
| MarketService.CalculateTimestampMinutesAgo | pythonProject/StockMarketService.py:38-39 | the result plus the window length is `now`, and it is no later than `now` for nonnegative minutes |
| MarketService.AsWrittenWindowIgnoresAge | pythonProject/StockMarketService.py:42-44 | as written, the filter keeps exactly the records stamped at or after minutes·60 seconds past the epoch, whatever `now` is |
| MarketService.AsWrittenKeepsStaleTrade | pythonProject/StockMarketService.py:42-44 | a trade a million seconds old passes the as-written 15-minute filter and fails the intended one |
| MarketService.WindowKeepsOnlyRecent | pythonProject/StockMarketService.py:41-44 | the intended window keeps a record exactly when it is at most `minutes` minutes old at `now` |
| MarketService.InWindowDropsStale | pythonProject/Repositories/TradeRepository.py:24 | filtering records that are all too old gives the empty list |
| MarketService.VwspIgnoresStaleTrades | pythonProject/StockMarketService.py:41-55 | prepending trades older than the window does not change the VWSP |
| MarketService.VwspOfTwoTrades | pythonProject/StockMarketService.py:49-55 | the two usage-scenario trades (1000 at 35, 60000 at 36) give (35·1000 + 36·60000) / 61000 |
| MarketService.NonzeroPrices | pythonProject/StockMarketService.py:72-75 | at most one price per stock is taken, and none of them is zero |
| MarketService.NonzeroPricesExactly | pythonProject/StockMarketService.py:72-75 | a value is among the multiplied prices if and only if it is nonzero and some stock has it |
| MarketService.NonzeroPricesWithoutZeros | pythonProject/StockMarketService.py:72-75 | with no zero price, every stock's price is taken, in catalogue order |
| MarketService.NoNonzeroPrices | pythonProject/StockMarketService.py:73-78 | nothing is counted if and only if every price is zero |
| MarketService.ProductOfNonzero | pythonProject/StockMarketService.py:73-74 | a product of nonzero prices is nonzero |
| MarketService.ProductWithZero | pythonProject/StockMarketService.py:73 | a product with a zero factor is zero |
| MarketService.GeometricMeanOutcome | pythonProject/StockMarketService.py:77-79 | "no valid stock prices" is raised if and only if every price is zero; otherwise at least one price is counted and the product is nonzero |
| MarketService.ZeroPricesExcluded | pythonProject/StockMarketService.py:73-74 | with a zero price present, the product of all prices is zero while the product that is used is not |
| MarketService.UniformPrices | pythonProject/StockMarketService.py:62-79 | n stocks all priced c ≠ 0 give product cⁿ over n prices, so the geometric mean is c |
| MarketService.AccumulatePage | pythonProject/StockMarketService.py:72-75 | after one page, the running product and count are those of the nonzero prices of everything visited, that page included |
| MarketService.StockMarketService.constructor | pythonProject/StockMarketService.py:15-17 | the service holds the two repositories it is given |
| MarketService.StockMarketService.ListStocks | pythonProject/StockMarketService.py:19-20 | the page is the stock repository's page, with at most `page_size` items |
| MarketService.StockMarketService.CalculateDividendYield | pythonProject/StockMarketService.py:22-36 | "stock not found" exactly when the symbol is absent; otherwise the dividend yield of the stored stock |
| MarketService.StockMarketService.CalculateVolumeWeightedStockPrice | pythonProject/StockMarketService.py:41-55 | the VWSP of the symbol's trades at most `last_x_minutes` minutes old at `now`; reading adds an empty ledger entry for an unknown symbol and changes no records |
| MarketService.StockMarketService.RecordTrade | pythonProject/StockMarketService.py:57-60 | one record stamped `now` is appended to the symbol's ledger; other symbols and the catalogue are unchanged |
| MarketService.StockMarketService.CalculateGeometricMean | pythonProject/StockMarketService.py:62-78 | the page-by-page walk yields the product and count of all nonzero prices of the catalogue, or the no-valid-prices error when there is none |
| MarketService.StockMarketService.UpdateStockPrices | pythonProject/StockMarketService.py:81-82 | the catalogue ends as `ApplyPrices` describes, the unknown symbols are returned, and the trade ledger is untouched |

## Left out

- MarketService.StockMarketService.CalculateGeometricMean: returns the product and the count, not the final root `product ** (1 / count)` at pythonProject/StockMarketService.py:79, because Dafny's reals have no fractional power. UniformPrices states what the root would be for equal prices.
- MarketService.DividendYield: a Preferred stock without a fixed dividend ratio makes the source multiply `None`, which raises a `TypeError`. The model returns `Err(MissingDividendRatio)` instead, still after the zero-price check, as in the source.
- MarketService.StockMarketService.CalculateVolumeWeightedStockPrice: passes a window length of `last_x_minutes * 60` seconds to the filter, not the absolute timestamp the source passes; see "## Findings".
- TradeRepo.TradeRepository.GetTrades: without a window, the source returns the live list stored in the ledger, which later trades extend. The model returns its current contents as a value.
- StockRepo.StockRepository.UpdateStockPrices: the source prints "Stock X not found" for an unknown symbol. Here the unknown symbols are returned, in order, as `skipped`.
- StockRepo.StockRepository.UpdateStockPrices: the price dictionary is a sequence of (symbol, price) pairs. Only `ApplyPricesSetsGiven` assumes distinct symbols, as a dictionary has.
- Stocks are values. The source assigns `stock.price` on the shared `Stock` object, so a caller holding that object sees the new price. Aliasing is not modelled.
- Floating point: prices, values and timestamps are exact reals, so float rounding and the float division in the VWSP and the yield are not modelled. Quantities are unbounded integers, as Python's are.
- `time.time()` is the parameter `now` of the operations that read the clock.
- The raised exception classes become constructors of `Error`, and their message texts are not modelled. The minute count in "No trades in the last N minutes" is kept.
- The entity modules for `Stock` and `Trade` are not part of this model. Their fields are the ones the core reads. The ledger keys a trade by the symbol given to the `Trade` constructor (pythonProject/StockMarketService.py:59). The repository reads that symbol as `trade.stock_name` (pythonProject/Repositories/TradeRepository.py:10).
- The usage scenario at pythonProject/StockMarketService.py:85-108 and its printing are left out. Its VWSP figure is `VwspOfTwoTrades`.
- Minutes are integers. The source would also accept a float.

## Findings

| source | as written | input that shows it | evidently intended | confidence | as-written member | corrected member |
|---|---|---|---|---|---|---|
| pythonProject/StockMarketService.py:38-44 with pythonProject/Repositories/TradeRepository.py:24 | the service passes the absolute time `now - minutes * 60` as the `timestamp` argument, and the filter compares each trade's age with it as a length, `now - t <= now - minutes * 60`; so it keeps exactly the trades stamped at or after `minutes * 60` seconds past the epoch | a 15-minute window, a trade stamped 1000.0, `now` = 1000000.0: the trade is 999000 s old, yet it is kept | keep the trades at most `minutes * 60` seconds old at `now` | not executed | MarketService.AsWrittenWindowIgnoresAge, MarketService.AsWrittenKeepsStaleTrade | MarketService.StockMarketService.CalculateVolumeWeightedStockPrice, MarketService.WindowKeepsOnlyRecent, MarketService.VwspIgnoresStaleTrades |

A second defect has no input-dependent half to model. The VWSP calls
`get_trades_by_stock_symbol` (pythonProject/StockMarketService.py:43), and
`TradeRepository` defines no such method; as written, every VWSP request
fails with an `AttributeError`. The model calls the repository's only trade
query, `get_trades` (`TradeRepo.TradeRepository.GetTrades`).
