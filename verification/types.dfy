/** The value types the Rust engine passes around (crate::types).  Every field
    is an `f64` in the engine and a `real` here. */
module Types {

  /** Quantisation rules of one instrument. */
  datatype ExchangeParams = ExchangeParams(
    qtyStep: real,
    priceStep: real,
    minQty: real,
    minCost: real,
    cMult: real)
  {
    /** Increments and the contract multiplier are positive, minimums are not negative. */
    predicate Valid() {
      qtyStep > 0.0 && priceStep > 0.0 && cMult > 0.0 && minQty >= 0.0 && minCost >= 0.0
    }
  }

  datatype OrderBook = OrderBook(bid: real, ask: real)

  datatype EmaBands = EmaBands(upper: real, lower: real)

  /** The market and balance snapshot of one evaluation. */
  datatype StateParams = StateParams(balance: real, orderBook: OrderBook, emaBands: EmaBands)

  /** Strategy parameters of one position side. */
  datatype BotParams = BotParams(
    closeTrailingDrawdownPct: real,
    closeTrailingThresholdPct: real,
    walletExposureLimit: real,
    entryInitialQtyPct: real,
    entryInitialEmaDist: real,
    entryGridDoubleDownFactor: real,
    entryGridSpacingPct: real,
    entryGridSpacingWeight: real,
    entryTrailingGridRatio: real,
    entryTrailingThresholdPct: real,
    entryTrailingDrawdownPct: real)

  /** Signed size (positive long, negative short, zero flat) and average entry price. */
  datatype Position = Position(size: real, price: real)

  /** The order classification tags the engine emits. */
  datatype OrderType =
    | EntryInitialNormalLong
    | EntryInitialPartialLong
    | EntryTrailingNormalLong
    | EntryTrailingCroppedLong
    | EntryGridNormalLong
    | EntryGridCroppedLong
    | EntryGridInflatedLong
    | EntryInitialNormalShort
    | EntryInitialPartialShort
    | EntryTrailingNormalShort
    | EntryTrailingCroppedShort
    | CloseTrailingLong
    | Empty

  datatype Order = Order(qty: real, price: real, orderType: OrderType)

  /** `Order::default()`: the "no order" sentinel. */
  const NoOrder := Order(0.0, 0.0, Empty)
}
