/**
 * The entities of the stock analytics service: stocks, trades, the records a
 * trade repository keeps, and the error kinds the service reports in place
 * of exceptions.
 */
module Entities {

  datatype Option<+T> = None | Some(value: T)

  /** The outcome of a service calculation: a value, or the error it raises. */
  datatype Result<+T> = Ok(value: T) | Err(error: Error)

  /**
   * One constructor per failure of the service. The first three are the
   * dividend-yield errors ("Stock not found", "Price cannot be zero",
   * "Invalid stock type"); MissingDividendRatio is the failure of
   * `None * par_value` for a Preferred stock without a fixed dividend ratio;
   * the next two are the VWSP errors; NoValidPrices is the geometric-mean one.
   */
  datatype Error =
    | StockNotFound
    | PriceZero
    | InvalidStockType
    | MissingDividendRatio
    | NoTradesInWindow(minutes: int)
    | TotalQuantityZero
    | NoValidPrices

  /** The instrument kinds the dividend-yield formula distinguishes. */
  datatype StockType = Common | Preferred | Other(tag: string)

  /** A stock's type tag, compared as the service compares it: as a string. */
  function ClassifyStockType(tag: string): (t: StockType)
    ensures t == Common <==> tag == "Common"
    ensures t == Preferred <==> tag == "Preferred"
    ensures t.Other? ==> t.tag == tag
  {
    if tag == "Common" then Common
    else if tag == "Preferred" then Preferred
    else Other(tag)
  }

  /**
   * Reference data of one instrument and its current price. The type is kept
   * as the tag the caller supplied; `fixedDividendRatio` is None for stocks
   * created without one.
   */
  datatype Stock = Stock(
    symbol: string,
    stockType: string,
    lastDividend: real,
    fixedDividendRatio: Option<real>,
    parValue: real,
    price: real)

  /** A trade as the service builds it, before it is stored. */
  datatype Trade = Trade(
    tradeId: int,
    quantity: int,
    indicator: string,
    price: real,
    timestamp: real,
    stockSymbol: string)

  /** The record a trade repository keeps for one trade of a symbol. */
  datatype TradeRecord = TradeRecord(
    tradeId: int,
    quantity: int,
    indicator: string,
    price: real,
    timestamp: real)
}
