/** The entry side of the per-side next-order engine (entries.rs): initial
    entries, grid re-entries with exposure-cap cropping and the one-step
    lookahead inflation, trailing entries, and the long-side blender that
    picks between trailing and grid. */
module Entries {
  import Jitted
  import opened Types
  import opened Utils

  // ---------------------------------------------------------------------------
  // Sizing

  /** calc_min_entry_qty: the exchange's minimum quantity, or the min-cost
      quantity rounded up to the quantity step when that is larger. */
  function CalcMinEntryQty(entryPrice: real, ex: ExchangeParams): (q: real)
    requires ex.Valid()
    ensures q >= ex.minQty
    ensures entryPrice > 0.0 ==> q * entryPrice * ex.cMult >= ex.minCost
    ensures q == ex.minQty || Jitted.IsMultiple(q, ex.qtyStep)
    ensures q == ex.minQty || q < CostToQty(ex.minCost, entryPrice, ex.cMult) + ex.qtyStep
  {
    var costQty := CostToQty(ex.minCost, entryPrice, ex.cMult);
    var q := Max(ex.minQty, RoundUp(costQty, ex.qtyStep));
    Jitted.RoundUpMultiple(costQty, ex.qtyStep);
    if entryPrice > 0.0 then
      NotionalMonotone(costQty, q, entryPrice, ex.cMult);
      q
    else q
  }

  lemma NotionalMonotone(q1: real, q2: real, price: real, cMult: real)
    requires q1 <= q2 && price >= 0.0 && cMult >= 0.0
    ensures q1 * price * cMult <= q2 * price * cMult
  {
    Jitted.MulMonotone(q1, q2, price);
    Jitted.MulMonotone(q1 * price, q2 * price, cMult);
  }

  /** The quantity an initial entry of `entryPrice` is meant to have: the
      initial-entry share of the exposure budget, in quantity at that price. */
  function InitialBudgetQty(ex: ExchangeParams, bot: BotParams, balance: real, entryPrice: real): real
    requires ex.Valid()
  {
    CostToQty(balance * bot.walletExposureLimit * bot.entryInitialQtyPct, entryPrice, ex.cMult)
  }

  /** calc_initial_entry_qty: the initial-entry budget rounded to the quantity
      step, but never below the minimum entry quantity. */
  function CalcInitialEntryQty(ex: ExchangeParams, bot: BotParams, balance: real, entryPrice: real)
    : (q: real)
    requires ex.Valid()
    ensures q >= CalcMinEntryQty(entryPrice, ex)
    ensures q == CalcMinEntryQty(entryPrice, ex)
            || (Jitted.IsMultiple(q, ex.qtyStep)
                && Abs(q - InitialBudgetQty(ex, bot, balance, entryPrice)) <= ex.qtyStep / 2.0)
    ensures q >= Round(InitialBudgetQty(ex, bot, balance, entryPrice), ex.qtyStep)
  {
    Jitted.RoundMultiple(InitialBudgetQty(ex, bot, balance, entryPrice), ex.qtyStep);
    Max(CalcMinEntryQty(entryPrice, ex), Round(InitialBudgetQty(ex, bot, balance, entryPrice), ex.qtyStep))
  }

  /** calc_reentry_qty: the position doubled down by the double-down factor, or
      the initial-entry share of the budget at `entryPrice` when that is
      larger, rounded to the step and never below the minimum entry quantity. */
  function CalcReentryQty(entryPrice: real, balance: real, positionSize: real,
                          ex: ExchangeParams, bot: BotParams): (q: real)
    requires ex.Valid()
    ensures q >= CalcMinEntryQty(entryPrice, ex)
    ensures q >= Round(Abs(positionSize) * bot.entryGridDoubleDownFactor, ex.qtyStep)
    ensures q >= Round(CostToQty(balance, entryPrice, ex.cMult) * bot.walletExposureLimit
                         * bot.entryInitialQtyPct, ex.qtyStep)
    ensures q == Max(CalcMinEntryQty(entryPrice, ex),
                     Max(Round(Abs(positionSize) * bot.entryGridDoubleDownFactor, ex.qtyStep),
                         Round(CostToQty(balance, entryPrice, ex.cMult) * bot.walletExposureLimit
                                 * bot.entryInitialQtyPct, ex.qtyStep)))
  {
    var ddown := Abs(positionSize) * bot.entryGridDoubleDownFactor;
    var budget := CostToQty(balance, entryPrice, ex.cMult) * bot.walletExposureLimit * bot.entryInitialQtyPct;
    Jitted.RoundersMonotone(ddown, Max(ddown, budget), ex.qtyStep);
    Jitted.RoundersMonotone(budget, Max(ddown, budget), ex.qtyStep);
    Max(CalcMinEntryQty(entryPrice, ex), Round(Max(ddown, budget), ex.qtyStep))
  }

  // ---------------------------------------------------------------------------
  // Initial entries

  /** The EMA-anchored price of a long initial entry. */
  function InitialEntryPriceLong(ex: ExchangeParams, st: StateParams, bot: BotParams): real
    requires ex.Valid()
  {
    EmaPriceBid(ex.priceStep, st.orderBook.bid, st.emaBands.lower, bot.entryInitialEmaDist)
  }

  /** The EMA-anchored price of a short initial entry. */
  function InitialEntryPriceShort(ex: ExchangeParams, st: StateParams, bot: BotParams): real
    requires ex.Valid()
  {
    EmaPriceAsk(ex.priceStep, st.orderBook.ask, st.emaBands.upper, bot.entryInitialEmaDist)
  }

  /** The top-up that completes a partial initial entry of `have` towards `target`. */
  function TopUpQty(ex: ExchangeParams, price: real, target: real, have: real): (q: real)
    requires ex.Valid()
    ensures q >= CalcMinEntryQty(price, ex)
    ensures q == CalcMinEntryQty(price, ex) || q <= target - have
    ensures q > target - have - ex.qtyStep
    ensures q == CalcMinEntryQty(price, ex) || Jitted.IsMultiple(q, ex.qtyStep)
  {
    Jitted.RoundDnMultiple(target - have, ex.qtyStep);
    Max(CalcMinEntryQty(price, ex), RoundDn(target - have, ex.qtyStep))
  }

  /** calc_initial_entry_long. */
  function CalcInitialEntryLong(ex: ExchangeParams, st: StateParams, bot: BotParams, pos: Position)
    : (r: Order)
    requires ex.Valid()
    ensures var p := InitialEntryPriceLong(ex, st, bot);
            var q := CalcInitialEntryQty(ex, bot, st.balance, p);
            && (p <= ex.priceStep ==> r == NoOrder)
            && (p > ex.priceStep && pos.size == 0.0 ==> r == Order(q, p, EntryInitialNormalLong))
            && (p > ex.priceStep && pos.size != 0.0 && pos.size < q * 0.8 ==>
                  && r.orderType == EntryInitialPartialLong && r.price == p
                  && r.qty >= CalcMinEntryQty(p, ex)
                  && (r.qty == CalcMinEntryQty(p, ex) || r.qty <= q - pos.size))
            && (pos.size != 0.0 && pos.size >= q * 0.8 ==> r == NoOrder)
    ensures r.orderType != Empty ==> ex.priceStep < r.price <= st.orderBook.bid && r.qty >= ex.minQty
    ensures r.orderType != Empty ==> r.price == st.orderBook.bid || Jitted.IsMultiple(r.price, ex.priceStep)
    ensures r.orderType in {EntryInitialNormalLong, EntryInitialPartialLong, Empty}
  {
    var initialEntryPrice := InitialEntryPriceLong(ex, st, bot);
    if initialEntryPrice <= ex.priceStep then NoOrder
    else
      var initialEntryQty := CalcInitialEntryQty(ex, bot, st.balance, initialEntryPrice);
      if pos.size == 0.0 then
        Order(initialEntryQty, initialEntryPrice, EntryInitialNormalLong)
      else if pos.size < initialEntryQty * 0.8 then
        Order(TopUpQty(ex, initialEntryPrice, initialEntryQty, pos.size),
              initialEntryPrice, EntryInitialPartialLong)
      else NoOrder
  }

  /** calc_initial_entry_short: the mirror of the long case on |size|, with
      non-positive quantities; unlike the long case it has no guard on a
      degenerate anchor price. */
  function CalcInitialEntryShort(ex: ExchangeParams, st: StateParams, bot: BotParams, pos: Position)
    : (r: Order)
    requires ex.Valid()
    ensures var p := InitialEntryPriceShort(ex, st, bot);
            var q := CalcInitialEntryQty(ex, bot, st.balance, p);
            && (pos.size == 0.0 ==> r == Order(-q, p, EntryInitialNormalShort))
            && (pos.size != 0.0 && Abs(pos.size) < q * 0.8 ==>
                  && r.orderType == EntryInitialPartialShort && r.price == p
                  && -r.qty >= CalcMinEntryQty(p, ex)
                  && (-r.qty == CalcMinEntryQty(p, ex) || -r.qty <= q - Abs(pos.size)))
            && (Abs(pos.size) >= q * 0.8 && pos.size != 0.0 ==> r == NoOrder)
    ensures r.qty <= 0.0
    ensures r.orderType != Empty ==> r.price >= st.orderBook.ask && -r.qty >= ex.minQty
    ensures r.orderType in {EntryInitialNormalShort, EntryInitialPartialShort, Empty}
  {
    var initialEntryPrice := InitialEntryPriceShort(ex, st, bot);
    var initialEntryQty := CalcInitialEntryQty(ex, bot, st.balance, initialEntryPrice);
    var positionSizeAbs := Abs(pos.size);
    if positionSizeAbs == 0.0 then
      Order(-initialEntryQty, initialEntryPrice, EntryInitialNormalShort)
    else if positionSizeAbs < initialEntryQty * 0.8 then
      Order(-TopUpQty(ex, initialEntryPrice, initialEntryQty, positionSizeAbs),
            initialEntryPrice, EntryInitialPartialShort)
    else NoOrder
  }

  /** The long initial entry refuses an anchor price at or below one price
      step, but the short one has no such guard: from flat it emits its full
      entry whatever its anchor. */
  lemma InitialEntryGuardIsLongOnly(ex: ExchangeParams, st: StateParams, bot: BotParams)
    requires ex.Valid()
    requires InitialEntryPriceLong(ex, st, bot) <= ex.priceStep
    ensures CalcInitialEntryLong(ex, st, bot, Position(0.0, 0.0)) == NoOrder
    ensures var p := InitialEntryPriceShort(ex, st, bot);
            CalcInitialEntryShort(ex, st, bot, Position(0.0, 0.0))
              == Order(-CalcInitialEntryQty(ex, bot, st.balance, p), p, EntryInitialNormalShort)
  {
  }

  // ---------------------------------------------------------------------------
  // Grid re-entries

  /** The grid's target price before rounding: the position price moved
      down by the spacing, widened in proportion to the exposure already
      taken relative to the limit. */
  function SpacedPrice(positionPrice: real, walletExposure: real, bot: BotParams): real
    requires bot.walletExposureLimit != 0.0
  {
    positionPrice * (1.0 - bot.entryGridSpacingPct
                       * (1.0 + (walletExposure / bot.walletExposureLimit) * bot.entryGridSpacingWeight))
  }

  /** calc_reentry_price: the spaced price rounded down and capped at the
      bid; 0 when that is not above one price step. */
  function CalcReentryPrice(balance: real, positionPrice: real, walletExposure: real, orderBookBid: real,
                            ex: ExchangeParams, bot: BotParams): (p: real)
    requires ex.Valid() && bot.walletExposureLimit != 0.0
    ensures p == 0.0 || ex.priceStep < p <= orderBookBid
    ensures p != 0.0 ==> p <= SpacedPrice(positionPrice, walletExposure, bot)
    ensures p != 0.0 ==> p == orderBookBid || Jitted.IsMultiple(p, ex.priceStep)
    ensures p != 0.0 ==> p == orderBookBid || p > SpacedPrice(positionPrice, walletExposure, bot) - ex.priceStep
    ensures p == 0.0 <==> orderBookBid <= ex.priceStep
                          || RoundDn(SpacedPrice(positionPrice, walletExposure, bot), ex.priceStep) <= ex.priceStep
  {
    var entryPrice := RoundDn(SpacedPrice(positionPrice, walletExposure, bot), ex.priceStep);
    Jitted.RoundDnMultiple(SpacedPrice(positionPrice, walletExposure, bot), ex.priceStep);
    var entryPrice' := Min(orderBookBid, entryPrice);
    if entryPrice' <= ex.priceStep then 0.0 else entryPrice'
  }

  /** The quantity a crop aims for before rounding: the size that, on the line
      through (exposure, size) and (exposure if filled, size + qty), reaches
      the wallet exposure limit, minus the current size. */
  function CropTarget(limit: real, we: real, weIfFilled: real, size: real, qty: real): (c: real)
    ensures limit == we ==> c == 0.0
    ensures we != weIfFilled && limit == weIfFilled ==> c == qty
  {
    Interpolate(limit, we, weIfFilled, size, size + qty) - size
  }

  /** When filling leaves the exposure where it was, the line has no slope:
      the model's crop target is then 0, where the f64 interpolation divides
      by zero. */
  lemma CropTargetAtEqualExposures(limit: real, we: real, size: real, qty: real, step: real)
    requires step > 0.0
    ensures CropTarget(limit, we, we, size, qty) == 0.0
    ensures Round(CropTarget(limit, we, we, size, qty), step) == 0.0
  {
  }

  /** On the way to the limit from below, the crop target is a fraction of
      the proposed quantity (of either sign). */
  lemma {:induction false} CropTargetBetween(limit: real, we: real, weIfFilled: real, size: real, qty: real)
    requires we <= limit < weIfFilled
    ensures Min(0.0, qty) <= CropTarget(limit, we, weIfFilled, size, qty) <= Max(0.0, qty)
  {
    InterpolateWithin(limit, we, weIfFilled, size, size + qty);
  }

  /** The crop target is where the exposure line meets the limit. */
  lemma CropTargetOnLine(limit: real, we: real, weIfFilled: real, size: real, qty: real)
    requires we != weIfFilled
    ensures CropTarget(limit, we, weIfFilled, size, qty) * (weIfFilled - we) == (limit - we) * qty
  {
  }

  /** The notional a crop-target fill adds is exactly the room left under the
      limit: when filling `qty` at `price` adds `price * qty * cMult` of
      notional (so the exposure moves), filling the crop target instead adds
      `(limit - we) * balance`. */
  lemma CropTargetNotional(balance: real, we: real, weIf: real, limit: real, size: real, qty: real,
                           price: real, cMult: real)
    requires balance > 0.0 && qty != 0.0 && price > 0.0 && cMult > 0.0
    requires AddsNotional(we, weIf, balance, FillNotional(price, qty, cMult))
    ensures we != weIf
    ensures AddsNotional(we, limit, balance, FillNotional(price, CropTarget(limit, we, weIf, size, qty), cMult))
  {
    var k := price * cMult;
    var d := weIf - we;
    assert d * balance == k * qty;
    assert k * qty != 0.0;
    var c := CropTarget(limit, we, weIf, size, qty);
    CropTargetOnLine(limit, we, weIf, size, qty);
    assert c * d == (limit - we) * qty;
    assert (c * d) * balance == c * (d * balance) == (c * k) * qty;
    assert ((limit - we) * qty) * balance == ((limit - we) * balance) * qty;
    CancelFactor(c * k, (limit - we) * balance, qty);
  }

  lemma CancelFactor(a: real, b: real, f: real)
    requires f != 0.0 && a * f == b * f
    ensures a == b
  {
    assert (a - b) * f == 0.0;
  }

  /** Filling the unrounded crop target lands the long position exactly on the
      wallet exposure limit: the crop's interpolation is exact, whatever the
      merged size rounds to. */
  lemma CropTargetLandsOnLimit(ex: ExchangeParams, balance: real, psize: real, pprice: real,
                               qty: real, price: real, limit: real)
    requires ex.Valid() && balance > 0.0 && psize > 0.0 && qty != 0.0 && price > 0.0
    requires Round(psize + qty, ex.qtyStep) > 0.0
    requires var c := CropTarget(limit, WalletExposure(ex.cMult, balance, psize, pprice),
                                 WalletExposureIfFilled(balance, psize, pprice, qty, price, ex), psize, qty);
             c == 0.0 || Round(psize + c, ex.qtyStep) > 0.0
    ensures var c := CropTarget(limit, WalletExposure(ex.cMult, balance, psize, pprice),
                                WalletExposureIfFilled(balance, psize, pprice, qty, price, ex), psize, qty);
            WalletExposureIfFilled(balance, psize, pprice, c, price, ex) == limit
  {
    var we := WalletExposure(ex.cMult, balance, psize, pprice);
    var weIf := WalletExposureIfFilled(balance, psize, pprice, qty, price, ex);
    ExposureOfFill(balance, psize, pprice, qty, price, ex);
    CropTargetNotional(balance, we, weIf, limit, psize, qty, price, ex.cMult);
    FillReaches(balance, psize, pprice, CropTarget(limit, we, weIf, psize, qty), price, ex, limit);
  }

  /** calc_cropped_reentry_qty_long: (exposure if filled, quantity), the
      quantity cropped to land on the wallet exposure limit when filling it
      would overshoot the limit by more than 1%. */
  function CalcCroppedReentryQtyLong(ex: ExchangeParams, bot: BotParams, pos: Position, walletExposure: real,
                                     balance: real, entryQty: real, entryPrice: real): (r: (real, real))
    requires ex.Valid()
    ensures r.0 == WalletExposureIfFilled(balance, pos.size, pos.price, entryQty, entryPrice, ex)
    ensures r.0 <= bot.walletExposureLimit * 1.01 ==> r.1 == entryQty
    ensures r.0 > bot.walletExposureLimit * 1.01 ==>
              var c := CropTarget(bot.walletExposureLimit, walletExposure, r.0, pos.size, entryQty);
              && Jitted.IsMultiple(r.1, ex.qtyStep) && Abs(r.1 - c) <= ex.qtyStep / 2.0
              && (0.0 <= bot.walletExposureLimit && walletExposure <= bot.walletExposureLimit
                  ==> Min(0.0, entryQty) <= c <= Max(0.0, entryQty))
    ensures (r.0 > bot.walletExposureLimit * 1.01 && 0.0 <= bot.walletExposureLimit
             && walletExposure <= bot.walletExposureLimit && entryQty >= 0.0) ==> r.1 >= 0.0
  {
    var weIfFilled := WalletExposureIfFilled(balance, pos.size, pos.price, entryQty, entryPrice, ex);
    if weIfFilled > bot.walletExposureLimit * 1.01 then
      var c := CropTarget(bot.walletExposureLimit, walletExposure, weIfFilled, pos.size, entryQty);
      Jitted.RoundMultiple(c, ex.qtyStep);
      if 0.0 <= bot.walletExposureLimit && walletExposure <= bot.walletExposureLimit then
        CropTargetBetween(bot.walletExposureLimit, walletExposure, weIfFilled, pos.size, entryQty);
        if entryQty >= 0.0 then
          Jitted.RoundNonNegative(c, ex.qtyStep);
          (weIfFilled, Round(c, ex.qtyStep))
        else (weIfFilled, Round(c, ex.qtyStep))
      else (weIfFilled, Round(c, ex.qtyStep))
    else (weIfFilled, entryQty)
  }

  /** When calc_cropped_reentry_qty_long crops, the quantity it returns is the
      crop target rounded to the quantity step, so filling it lands the long
      position within half a quantity step's notional of the wallet exposure
      limit. */
  lemma CroppedReentryLandsNearLimit(ex: ExchangeParams, bot: BotParams, pos: Position, balance: real,
                                     entryQty: real, entryPrice: real)
    requires ex.Valid() && balance > 0.0 && pos.size > 0.0 && entryQty != 0.0 && entryPrice > 0.0
    requires Round(pos.size + entryQty, ex.qtyStep) > 0.0
    requires var q := CalcCroppedReentryQtyLong(ex, bot, pos, WalletExposure(ex.cMult, balance, pos.size, pos.price),
                                                balance, entryQty, entryPrice).1;
             q == 0.0 || Round(pos.size + q, ex.qtyStep) > 0.0
    ensures var r := CalcCroppedReentryQtyLong(ex, bot, pos, WalletExposure(ex.cMult, balance, pos.size, pos.price),
                                               balance, entryQty, entryPrice);
            r.0 > bot.walletExposureLimit * 1.01 ==>
              Notional(Abs(WalletExposureIfFilled(balance, pos.size, pos.price, r.1, entryPrice, ex)
                           - bot.walletExposureLimit), balance)
                <= FillNotional(entryPrice, ex.qtyStep / 2.0, ex.cMult)
  {
    var r := CalcCroppedReentryQtyLong(ex, bot, pos, WalletExposure(ex.cMult, balance, pos.size, pos.price),
                                       balance, entryQty, entryPrice);
    if r.0 > bot.walletExposureLimit * 1.01 {
      RoundedCropNearLimit(ex, balance, pos.size, pos.price, entryQty, entryPrice, bot.walletExposureLimit, r.1);
    }
  }

  /** Any quantity within half a step of the crop target lands within half a
      step's notional of the limit. */
  lemma RoundedCropNearLimit(ex: ExchangeParams, balance: real, psize: real, pprice: real,
                             qty: real, price: real, limit: real, q: real)
    requires ex.Valid() && balance > 0.0 && psize > 0.0 && qty != 0.0 && price > 0.0
    requires Round(psize + qty, ex.qtyStep) > 0.0
    requires q == 0.0 || Round(psize + q, ex.qtyStep) > 0.0
    requires Abs(q - CropTarget(limit, WalletExposure(ex.cMult, balance, psize, pprice),
                                WalletExposureIfFilled(balance, psize, pprice, qty, price, ex), psize, qty))
               <= ex.qtyStep / 2.0
    ensures Notional(Abs(WalletExposureIfFilled(balance, psize, pprice, q, price, ex) - limit), balance)
              <= FillNotional(price, ex.qtyStep / 2.0, ex.cMult)
  {
    var we := WalletExposure(ex.cMult, balance, psize, pprice);
    var weIf := WalletExposureIfFilled(balance, psize, pprice, qty, price, ex);
    ExposureOfFill(balance, psize, pprice, qty, price, ex);
    CropTargetNotional(balance, we, weIf, limit, psize, qty, price, ex.cMult);
    FillNear(balance, psize, pprice, q, CropTarget(limit, we, weIf, psize, qty), price, ex, limit);
  }

  /** A fill whose notional is the room left under `limit` lands on it. */
  lemma FillReaches(balance: real, psize: real, pprice: real, q: real, price: real, ex: ExchangeParams,
                    limit: real)
    requires ex.Valid() && balance > 0.0 && psize > 0.0
    requires q == 0.0 || Round(psize + q, ex.qtyStep) > 0.0
    requires AddsNotional(WalletExposure(ex.cMult, balance, psize, pprice), limit, balance, FillNotional(price, q, ex.cMult))
    ensures WalletExposureIfFilled(balance, psize, pprice, q, price, ex) == limit
  {
    ExposureOfFill(balance, psize, pprice, q, price, ex);
    AddsNotionalUnique(WalletExposure(ex.cMult, balance, psize, pprice),
                       WalletExposureIfFilled(balance, psize, pprice, q, price, ex), limit,
                       balance, FillNotional(price, q, ex.cMult));
  }

  /** A fill within half a step of one whose notional is the room left under
      `limit` lands within half a step's notional of it. */
  lemma FillNear(balance: real, psize: real, pprice: real, q: real, c: real, price: real,
                 ex: ExchangeParams, limit: real)
    requires ex.Valid() && balance > 0.0 && psize > 0.0 && price > 0.0
    requires q == 0.0 || Round(psize + q, ex.qtyStep) > 0.0
    requires AddsNotional(WalletExposure(ex.cMult, balance, psize, pprice), limit, balance, FillNotional(price, c, ex.cMult))
    requires Abs(q - c) <= ex.qtyStep / 2.0
    ensures Notional(Abs(WalletExposureIfFilled(balance, psize, pprice, q, price, ex) - limit), balance)
              <= FillNotional(price, ex.qtyStep / 2.0, ex.cMult)
  {
    ExposureOfFill(balance, psize, pprice, q, price, ex);
    NearLimitAlgebra(balance, WalletExposure(ex.cMult, balance, psize, pprice),
                     WalletExposureIfFilled(balance, psize, pprice, q, price, ex),
                     limit, q, c, price, ex.cMult, ex.qtyStep);
  }

  /** The algebra behind CroppedReentryLandsNearLimit: the exposure misses the
      limit by the notional of the rounding error. */
  lemma NearLimitAlgebra(balance: real, we: real, weR: real, limit: real, q: real, c: real,
                         price: real, cMult: real, step: real)
    requires balance > 0.0 && price > 0.0 && cMult > 0.0
    requires AddsNotional(we, weR, balance, FillNotional(price, q, cMult))
    requires AddsNotional(we, limit, balance, FillNotional(price, c, cMult))
    requires Abs(q - c) <= step / 2.0
    ensures Notional(Abs(weR - limit), balance) <= FillNotional(price, step / 2.0, cMult)
  {
    var k := price * cMult;
    var nq, nc := FillNotional(price, q, cMult), FillNotional(price, c, cMult);
    assert nq == k * q && nc == k * c;
    assert weR * balance == we * balance + nq;
    assert limit * balance == we * balance + nc;
    assert (weR - limit) * balance == k * q - k * c == (q - c) * k;
    AbsOfProduct(weR - limit, balance);
    AbsOfProduct(q - c, k);
    Jitted.MulMonotone(Abs(q - c), step / 2.0, k);
    assert Notional(Abs(weR - limit), balance) == Abs(q - c) * k;
    assert step / 2.0 * k == FillNotional(price, step / 2.0, cMult);
  }

  lemma AbsOfProduct(x: real, y: real)
    requires y >= 0.0
    ensures Abs(x) * y == Abs(x * y)
  {
    if x < 0.0 {
      assert (-x) * y == -(x * y);
    }
  }

  /** `num / den < bound` in floating point; a zero denominator makes the
      quotient -inf only for a negative numerator (+inf or NaN otherwise). */
  function RatioBelow(num: real, den: real, bound: real): (b: bool)
    ensures den > 0.0 ==> (b <==> num < bound * den)
    ensures den < 0.0 ==> (b <==> num > bound * den)
    ensures den == 0.0 ==> (b <==> num < 0.0)
  {
    if den == 0.0 then num < 0.0
    else
      QuotientBelow(num, den, bound);
      num / den < bound
  }

  /** Comparing a quotient with a bound is comparing the numerator with the
      bound scaled by the denominator, the inequality turning for a negative
      denominator. */
  lemma QuotientBelow(num: real, den: real, bound: real)
    requires den != 0.0
    ensures den > 0.0 ==> (num / den < bound <==> num < bound * den)
    ensures den < 0.0 ==> (num / den < bound <==> num > bound * den)
  {
    if den > 0.0 {
      QuotientBelowPositive(num, den, bound);
    } else {
      QuotientBelowPositive(-num, -den, bound);
      assert (-num) / (-den) == num / den;
      assert bound * (-den) == -(bound * den);
    }
  }

  lemma QuotientBelowPositive(num: real, den: real, bound: real)
    requires den > 0.0
    ensures num / den < bound <==> num < bound * den
  {
    var t := num / den;
    assert num == t * den;
    if t < bound {
      Jitted.MulStrict(t, bound, den);
    } else {
      Jitted.MulMonotone(bound, t, den);
    }
  }

  /** The plain grid re-entry quantity at `price`: the re-entry quantity,
      floored at the initial-entry quantity. */
  function GridProposedQty(ex: ExchangeParams, st: StateParams, bot: BotParams, pos: Position, price: real)
    : (q: real)
    requires ex.Valid()
    ensures q >= CalcReentryQty(price, st.balance, pos.size, ex, bot)
    ensures q >= CalcInitialEntryQty(ex, bot, st.balance, InitialEntryPriceLong(ex, st, bot))
    ensures q >= ex.minQty
    ensures q == CalcReentryQty(price, st.balance, pos.size, ex, bot)
            || q == CalcInitialEntryQty(ex, bot, st.balance, InitialEntryPriceLong(ex, st, bot))
  {
    Max(CalcReentryQty(price, st.balance, pos.size, ex, bot),
        CalcInitialEntryQty(ex, bot, st.balance, InitialEntryPriceLong(ex, st, bot)))
  }

  /** The re-entry part of calc_grid_entry_long (entries.rs:165-270), for a
      position that is neither flat nor under-sized. */
  function GridReentryLong(ex: ExchangeParams, st: StateParams, bot: BotParams, pos: Position): (r: Order)
    requires ex.Valid() && bot.walletExposureLimit != 0.0
    ensures var we := WalletExposure(ex.cMult, st.balance, pos.size, pos.price);
            we >= bot.walletExposureLimit * 0.999 ==> r == NoOrder
    ensures r.orderType in {EntryGridNormalLong, EntryGridCroppedLong, EntryGridInflatedLong, Empty}
    ensures r.orderType != Empty ==> ex.priceStep < r.price <= st.orderBook.bid
    ensures r.orderType != Empty ==> r.price == st.orderBook.bid || Jitted.IsMultiple(r.price, ex.priceStep)
    ensures r.orderType == EntryGridNormalLong ==> r.qty == GridProposedQty(ex, st, bot, pos, r.price)
    ensures r.orderType == EntryGridCroppedLong ==>
              var proposed := GridProposedQty(ex, st, bot, pos, r.price);
              && r.qty < proposed
              && WalletExposureIfFilled(st.balance, pos.size, pos.price, proposed, r.price, ex)
                   > bot.walletExposureLimit * 1.01
    ensures r.orderType == EntryGridInflatedLong ==>
              var proposed := GridProposedQty(ex, st, bot, pos, r.price);
              var we := WalletExposure(ex.cMult, st.balance, pos.size, pos.price);
              var weIf := WalletExposureIfFilled(st.balance, pos.size, pos.price, proposed, r.price, ex);
              Abs(r.qty - CropTarget(bot.walletExposureLimit, we, weIf, pos.size, proposed)) <= ex.qtyStep / 2.0
    ensures bot.walletExposureLimit > 0.0 && r.orderType != EntryGridInflatedLong ==> r.qty >= 0.0
    ensures r.orderType != Empty ==>
              r.price == CalcReentryPrice(st.balance, pos.price, WalletExposure(ex.cMult, st.balance, pos.size, pos.price),
                                          st.orderBook.bid, ex, bot)
    ensures var we := WalletExposure(ex.cMult, st.balance, pos.size, pos.price);
            var p := CalcReentryPrice(st.balance, pos.price, we, st.orderBook.bid, ex, bot);
            we < bot.walletExposureLimit * 0.999 && p > 0.0 ==>
              var proposed := GridProposedQty(ex, st, bot, pos, p);
              var crop := CalcCroppedReentryQtyLong(ex, bot, pos, we, st.balance, proposed, p);
              && (r.orderType == EntryGridCroppedLong <==> crop.1 < proposed)
              && (r.orderType == EntryGridCroppedLong ==> r.qty == crop.1)
              && (crop.1 >= proposed ==>
                    var next := NextRung(ex, st, bot, pos, proposed, p, crop.0);
                    (r.orderType == EntryGridInflatedLong <==> NextRungTooSmall(bot, next)))
  {
    var walletExposure := WalletExposure(ex.cMult, st.balance, pos.size, pos.price);
    if walletExposure >= bot.walletExposureLimit * 0.999 then NoOrder
    else
      var reentryPrice := CalcReentryPrice(st.balance, pos.price, walletExposure, st.orderBook.bid, ex, bot);
      if reentryPrice <= 0.0 then NoOrder
      else
        var reentryQty := GridProposedQty(ex, st, bot, pos, reentryPrice);
        var (weIfFilled, reentryQtyCropped) :=
          CalcCroppedReentryQtyLong(ex, bot, pos, walletExposure, st.balance, reentryQty, reentryPrice);
        if reentryQtyCropped < reentryQty then
          Order(reentryQtyCropped, reentryPrice, EntryGridCroppedLong)
        else if NextRungTooSmall(bot, NextRung(ex, st, bot, pos, reentryQty, reentryPrice, weIfFilled)) then
          var newEntryQty := CropTarget(bot.walletExposureLimit, walletExposure, weIfFilled, pos.size, reentryQty);
          Order(Round(newEntryQty, ex.qtyStep), reentryPrice, EntryGridInflatedLong)
        else
          Order(reentryQty, reentryPrice, EntryGridNormalLong)
  }

  /** A cropped long grid re-entry, once filled, leaves the position within
      half a quantity step's notional of the wallet exposure limit; the
      position size is taken to be a quantity-step multiple, as the exchange
      keeps it. */
  lemma GridCroppedOrderLandsNearLimit(ex: ExchangeParams, st: StateParams, bot: BotParams, pos: Position)
    requires ex.Valid() && bot.walletExposureLimit > 0.0 && st.balance > 0.0
    requires pos.size > 0.0 && Jitted.IsMultiple(pos.size, ex.qtyStep)
    ensures var r := GridReentryLong(ex, st, bot, pos);
            r.orderType == EntryGridCroppedLong ==>
              Notional(Abs(WalletExposureIfFilled(st.balance, pos.size, pos.price, r.qty, r.price, ex)
                           - bot.walletExposureLimit), st.balance)
                <= FillNotional(r.price, ex.qtyStep / 2.0, ex.cMult)
  {
    var r := GridReentryLong(ex, st, bot, pos);
    if r.orderType == EntryGridCroppedLong {
      var we := WalletExposure(ex.cMult, st.balance, pos.size, pos.price);
      var p := r.price;
      var proposed := GridProposedQty(ex, st, bot, pos, p);
      var crop := CalcCroppedReentryQtyLong(ex, bot, pos, we, st.balance, proposed, p);
      assert crop.1 < proposed && r.qty == crop.1;
      assert crop.0 > bot.walletExposureLimit * 1.01;
      assert crop.1 >= 0.0;
      RoundKeepsLong(pos.size, proposed, ex.qtyStep);
      RoundKeepsLong(pos.size, crop.1, ex.qtyStep);
      CroppedReentryLandsNearLimit(ex, bot, pos, st.balance, proposed, p);
    }
  }

  /** Adding a non-negative quantity to a positive step multiple never rounds
      the position flat. */
  lemma RoundKeepsLong(size: real, qty: real, step: real)
    requires step > 0.0 && size > 0.0 && qty >= 0.0 && Jitted.IsMultiple(size, step)
    ensures Round(size + qty, step) > 0.0
  {
    Jitted.RoundersIdempotent(size, step);
    Jitted.RoundersMonotone(size, size + qty, step);
  }

  /** The lookahead test of calc_grid_entry_long (entries.rs:213-252): given
      the position after the fill and the cropped quantity of the grid
      re-entry after it (NextRung), would that re-entry add less than a quarter
      of the double-down factor times the position? */
  function NextRungTooSmall(bot: BotParams, next: (real, real)): (b: bool)
    ensures var bound := bot.entryGridDoubleDownFactor * 0.25;
            && (next.0 > 0.0 ==> (b <==> next.1 < bound * next.0))
            && (next.0 < 0.0 ==> (b <==> next.1 > bound * next.0))
            && (next.0 == 0.0 ==> (b <==> next.1 < 0.0))
  {
    RatioBelow(next.1, next.0, bot.entryGridDoubleDownFactor * 0.25)
  }

  /** The position after the fill of `qty` at `price` and the cropped
      quantity of the grid re-entry that would follow it. */
  function NextRung(ex: ExchangeParams, st: StateParams, bot: BotParams, pos: Position,
                    qty: real, price: real, weIfFilled: real): (r: (real, real))
    requires ex.Valid() && bot.walletExposureLimit != 0.0
    ensures qty == 0.0 ==> r.0 == pos.size
    ensures qty != 0.0 ==> r.0 == Round(pos.size + qty, ex.qtyStep)
  {
    var (psizeIfFilled, ppriceIfFilled) := NewPsizePprice(pos.size, pos.price, qty, price, ex.qtyStep);
    var nextReentryPrice := CalcReentryPrice(st.balance, ppriceIfFilled, weIfFilled, st.orderBook.bid, ex, bot);
    var nextPos := Position(psizeIfFilled, ppriceIfFilled);
    var nextReentryQty := GridProposedQty(ex, st, bot, nextPos, nextReentryPrice);
    var (_, nextReentryQtyCropped) :=
      CalcCroppedReentryQtyLong(ex, bot, nextPos, weIfFilled, st.balance, nextReentryQty, nextReentryPrice);
    (psizeIfFilled, nextReentryQtyCropped)
  }

  /** calc_grid_entry_long. */
  function CalcGridEntryLong(ex: ExchangeParams, st: StateParams, bot: BotParams, pos: Position): (r: Order)
    requires ex.Valid()
    ensures bot.walletExposureLimit == 0.0 || st.balance <= 0.0 ==> r == NoOrder
    ensures bot.walletExposureLimit != 0.0 && st.balance > 0.0 && InitialEntryPriceLong(ex, st, bot) <= ex.priceStep
            ==> r == NoOrder
    ensures var q := CalcInitialEntryQty(ex, bot, st.balance, InitialEntryPriceLong(ex, st, bot));
            bot.walletExposureLimit != 0.0 && st.balance > 0.0 && (pos.size == 0.0 || pos.size < q * 0.8) ==>
              r == CalcInitialEntryLong(ex, st, bot, pos)
    ensures var q := CalcInitialEntryQty(ex, bot, st.balance, InitialEntryPriceLong(ex, st, bot));
            bot.walletExposureLimit != 0.0 && st.balance > 0.0 && pos.size != 0.0 && pos.size >= q * 0.8
            && InitialEntryPriceLong(ex, st, bot) > ex.priceStep ==>
              r == GridReentryLong(ex, st, bot, pos)
    ensures r.orderType != Empty ==> ex.priceStep < r.price <= st.orderBook.bid
    ensures r.orderType != Empty ==> r.price == st.orderBook.bid || Jitted.IsMultiple(r.price, ex.priceStep)
    ensures bot.walletExposureLimit >= 0.0 && r.orderType != EntryGridInflatedLong ==> r.qty >= 0.0
  {
    if bot.walletExposureLimit == 0.0 || st.balance <= 0.0 then NoOrder
    else
      var initialEntryPrice := InitialEntryPriceLong(ex, st, bot);
      if initialEntryPrice <= ex.priceStep then NoOrder
      else
        var initialEntryQty := CalcInitialEntryQty(ex, bot, st.balance, initialEntryPrice);
        if pos.size == 0.0 then
          Order(initialEntryQty, initialEntryPrice, EntryInitialNormalLong)
        else if pos.size < initialEntryQty * 0.8 then
          Order(TopUpQty(ex, initialEntryPrice, initialEntryQty, pos.size),
                initialEntryPrice, EntryInitialPartialLong)
        else GridReentryLong(ex, st, bot, pos)
  }

  /** calc_reentry_order: (order, exposure if filled, cropped?), the grid
      re-entry the short grid path uses; it is priced off the bid and tagged
      with the long grid tags. */
  function CalcReentryOrder(ex: ExchangeParams, bot: BotParams, pos: Position, st: StateParams,
                            initialEntry: Order): (r: (Order, real, bool))
    requires ex.Valid() && bot.walletExposureLimit != 0.0
    ensures WalletExposure(ex.cMult, st.balance, pos.size, pos.price) >= bot.walletExposureLimit * 0.999 ==>
              r == (NoOrder, 0.0, false)
    ensures r.0.orderType in {EntryGridNormalLong, EntryGridCroppedLong, Empty}
    ensures r.0.orderType != Empty ==> ex.priceStep < r.0.price <= st.orderBook.bid
    ensures r.2 <==> r.0.orderType == EntryGridCroppedLong
    ensures r.2 ==> r.1 > bot.walletExposureLimit * 1.01
    ensures r.0.orderType != Empty ==>
              var we := WalletExposure(ex.cMult, st.balance, pos.size, pos.price);
              var proposed := Max(CalcReentryQty(r.0.price, st.balance, pos.size, ex, bot), initialEntry.qty);
              && r.1 == WalletExposureIfFilled(st.balance, pos.size, pos.price, proposed, r.0.price, ex)
              && (r.0.orderType == EntryGridCroppedLong ==>
                    Abs(r.0.qty - CropTarget(bot.walletExposureLimit, we, r.1, pos.size, proposed))
                      <= ex.qtyStep / 2.0)
    ensures r.0.orderType == EntryGridNormalLong ==>
              r.0.qty == Max(CalcReentryQty(r.0.price, st.balance, pos.size, ex, bot), initialEntry.qty)
              && r.1 <= bot.walletExposureLimit * 1.01
  {
    var walletExposure := WalletExposure(ex.cMult, st.balance, pos.size, pos.price);
    if walletExposure >= bot.walletExposureLimit * 0.999 then (NoOrder, 0.0, false)
    else
      var entryPrice := CalcReentryPrice(st.balance, pos.price, walletExposure, st.orderBook.bid, ex, bot);
      if entryPrice == 0.0 then (Order(0.0, 0.0, Empty), 0.0, false)
      else
        var entryQty := Max(CalcReentryQty(entryPrice, st.balance, pos.size, ex, bot), initialEntry.qty);
        var weIfFilled := WalletExposureIfFilled(st.balance, pos.size, pos.price, entryQty, entryPrice, ex);
        if weIfFilled > bot.walletExposureLimit * 1.01 then
          var cropped := CropTarget(bot.walletExposureLimit, walletExposure, weIfFilled, pos.size, entryQty);
          (Order(Round(cropped, ex.qtyStep), entryPrice, EntryGridCroppedLong), weIfFilled, true)
        else
          (Order(entryQty, entryPrice, EntryGridNormalLong), weIfFilled, false)
  }

  /** The grid part of calc_next_grid_entry_short, once the short initial
      entry has no quantity: the capped re-entry built by CalcReentryOrder,
      inflated when the lookahead's re-entry is cropped and too small. */
  function GridReentryShort(ex: ExchangeParams, st: StateParams, bot: BotParams, pos: Position,
                            initialEntry: Order): (r: Order)
    requires ex.Valid() && bot.walletExposureLimit != 0.0 && st.balance > 0.0
    ensures r.orderType in {Empty, EntryGridNormalLong, EntryGridCroppedLong, EntryGridInflatedLong}
    ensures r.orderType != Empty ==> ex.priceStep < r.price <= st.orderBook.bid
    ensures WalletExposure(ex.cMult, st.balance, pos.size, pos.price) >= bot.walletExposureLimit * 0.999
            ==> r == NoOrder
    ensures r.orderType in {EntryGridNormalLong, EntryGridCroppedLong} ==>
              r == CalcReentryOrder(ex, bot, pos, st, initialEntry).0
    ensures var we := WalletExposure(ex.cMult, st.balance, pos.size, pos.price);
            we < bot.walletExposureLimit * 0.999 ==>
              var ro := CalcReentryOrder(ex, bot, pos, st, initialEntry);
              var next := NewPsizePprice(pos.size, pos.price, ro.0.qty, ro.0.price, ex.qtyStep);
              var nro := CalcReentryOrder(ex, bot, Position(next.0, next.1), st, initialEntry);
              && (r.orderType == EntryGridInflatedLong <==> !ro.2 && nro.2 && NextRungTooSmall(bot, (next.0, nro.0.qty)))
              && (r.orderType == EntryGridInflatedLong ==>
                    r.price == ro.0.price
                    && Abs(r.qty - CropTarget(bot.walletExposureLimit, we, ro.1, pos.size, ro.0.qty))
                         <= ex.qtyStep / 2.0)
  {
    var walletExposure := WalletExposure(ex.cMult, st.balance, pos.size, pos.price);
    if walletExposure >= bot.walletExposureLimit * 0.999 then NoOrder
    else
      var reentry := CalcReentryOrder(ex, bot, pos, st, initialEntry);
      // An Empty re-entry has no quantity, so filling it leaves the position
      // as it is and the lookahead finds the same, uncropped, order: the code
      // returns it, as this branch does directly.
      if reentry.2 || reentry.0.orderType == Empty then reentry.0
      else InflateReentryShort(ex, st, bot, pos, initialEntry, reentry)
  }

  /** The lookahead of calc_next_grid_entry_short for a re-entry that was not
      cropped: inflate it to the crop target when the re-entry after it would
      be cropped and too small, otherwise keep it. */
  function InflateReentryShort(ex: ExchangeParams, st: StateParams, bot: BotParams, pos: Position,
                               initialEntry: Order, reentry: (Order, real, bool)): (r: Order)
    requires ex.Valid() && bot.walletExposureLimit != 0.0
    requires reentry.0.orderType == EntryGridNormalLong
    requires ex.priceStep < reentry.0.price <= st.orderBook.bid
    ensures r.orderType in {EntryGridNormalLong, EntryGridInflatedLong}
    ensures ex.priceStep < r.price <= st.orderBook.bid
    ensures r.orderType == EntryGridNormalLong ==> r == reentry.0
    ensures var we := WalletExposure(ex.cMult, st.balance, pos.size, pos.price);
            var next := NewPsizePprice(pos.size, pos.price, reentry.0.qty, reentry.0.price, ex.qtyStep);
            var nro := CalcReentryOrder(ex, bot, Position(next.0, next.1), st, initialEntry);
            && (r.orderType == EntryGridInflatedLong <==> nro.2 && NextRungTooSmall(bot, (next.0, nro.0.qty)))
            && (r.orderType == EntryGridInflatedLong ==>
                  r.price == reentry.0.price
                  && Abs(r.qty - CropTarget(bot.walletExposureLimit, we, reentry.1, pos.size, reentry.0.qty))
                       <= ex.qtyStep / 2.0)
  {
    var (reentryOrder, weIfFilled, _) := reentry;
    var (nextPsize, nextPprice) :=
      NewPsizePprice(pos.size, pos.price, reentryOrder.qty, reentryOrder.price, ex.qtyStep);
    var (nextReentryOrder, _, nextIsCropped) :=
      CalcReentryOrder(ex, bot, Position(nextPsize, nextPprice), st, initialEntry);
    if !nextIsCropped then reentryOrder
    else if NextRungTooSmall(bot, (nextPsize, nextReentryOrder.qty)) then
      var walletExposure := WalletExposure(ex.cMult, st.balance, pos.size, pos.price);
      var newEntryQty :=
        CropTarget(bot.walletExposureLimit, walletExposure, weIfFilled, pos.size, reentryOrder.qty);
      Order(Round(newEntryQty, ex.qtyStep), reentryOrder.price, EntryGridInflatedLong)
    else
      Order(reentryOrder.qty, reentryOrder.price, EntryGridNormalLong)
  }

  /** calc_next_grid_entry_short: the short initial entry when it has a
      quantity, otherwise a grid re-entry built by CalcReentryOrder with the
      same lookahead inflation as the long grid. */
  function CalcNextGridEntryShort(ex: ExchangeParams, st: StateParams, bot: BotParams, pos: Position)
    : (r: Order)
    requires ex.Valid()
    ensures bot.walletExposureLimit == 0.0 || st.balance <= 0.0 ==> r == NoOrder
    ensures bot.walletExposureLimit != 0.0 && st.balance > 0.0
            && CalcInitialEntryShort(ex, st, bot, pos).qty != 0.0 ==>
              r == CalcInitialEntryShort(ex, st, bot, pos)
    ensures r.orderType in {EntryInitialNormalShort, EntryInitialPartialShort, Empty,
                            EntryGridNormalLong, EntryGridCroppedLong, EntryGridInflatedLong}
    ensures r.orderType in {EntryGridNormalLong, EntryGridCroppedLong, EntryGridInflatedLong} ==>
              ex.priceStep < r.price <= st.orderBook.bid
    ensures bot.walletExposureLimit != 0.0 && st.balance > 0.0 && CalcInitialEntryShort(ex, st, bot, pos).qty == 0.0
            && WalletExposure(ex.cMult, st.balance, pos.size, pos.price) >= bot.walletExposureLimit * 0.999
            ==> r == NoOrder
    ensures bot.walletExposureLimit != 0.0 && st.balance > 0.0
            && r.orderType in {EntryGridNormalLong, EntryGridCroppedLong} ==>
              r == CalcReentryOrder(ex, bot, pos, st, CalcInitialEntryShort(ex, st, bot, pos)).0
    ensures var initialEntry := CalcInitialEntryShort(ex, st, bot, pos);
            var we := WalletExposure(ex.cMult, st.balance, pos.size, pos.price);
            bot.walletExposureLimit != 0.0 && st.balance > 0.0 && initialEntry.qty == 0.0
            && we < bot.walletExposureLimit * 0.999 ==>
              var ro := CalcReentryOrder(ex, bot, pos, st, initialEntry);
              var next := NewPsizePprice(pos.size, pos.price, ro.0.qty, ro.0.price, ex.qtyStep);
              var nro := CalcReentryOrder(ex, bot, Position(next.0, next.1), st, initialEntry);
              && (r.orderType == EntryGridInflatedLong <==> !ro.2 && nro.2 && NextRungTooSmall(bot, (next.0, nro.0.qty)))
              && (r.orderType == EntryGridInflatedLong ==>
                    r.price == ro.0.price
                    && Abs(r.qty - CropTarget(bot.walletExposureLimit, we, ro.1, pos.size, ro.0.qty))
                         <= ex.qtyStep / 2.0)
  {
    if bot.walletExposureLimit == 0.0 || st.balance <= 0.0 then NoOrder
    else
      var initialEntry := CalcInitialEntryShort(ex, st, bot, pos);
      if initialEntry.qty != 0.0 then initialEntry
      else GridReentryShort(ex, st, bot, pos, initialEntry)
  }

  // ---------------------------------------------------------------------------
  // Trailing entries

  /** The long trailing trigger: price fell at least the threshold below the
      position price and has since bounced at least the drawdown off that low. */
  predicate TrailingEntryLongTriggered(bot: BotParams, pos: Position, minPriceSinceOpen: real,
                                       maxPriceSinceMin: real)
  {
    && minPriceSinceOpen <= pos.price * (1.0 - bot.entryTrailingThresholdPct)
    && maxPriceSinceMin >= minPriceSinceOpen * (1.0 + bot.entryTrailingDrawdownPct)
  }

  /** The price of a triggered long trailing entry. */
  function TrailingEntryPriceLong(ex: ExchangeParams, st: StateParams, bot: BotParams, pos: Position): (p: real)
    requires ex.Valid()
    ensures p <= st.orderBook.bid
    ensures p == st.orderBook.bid || Jitted.IsMultiple(p, ex.priceStep)
    ensures p <= pos.price * (1.0 - bot.entryTrailingThresholdPct + bot.entryTrailingDrawdownPct)
    ensures p == st.orderBook.bid
            || p > pos.price * (1.0 - bot.entryTrailingThresholdPct + bot.entryTrailingDrawdownPct) - ex.priceStep
  {
    Jitted.RoundDnMultiple(pos.price * (1.0 - bot.entryTrailingThresholdPct + bot.entryTrailingDrawdownPct),
                           ex.priceStep);
    Min(st.orderBook.bid,
        RoundDn(pos.price * (1.0 - bot.entryTrailingThresholdPct + bot.entryTrailingDrawdownPct), ex.priceStep))
  }

  /** The order of a triggered long trailing entry (entries.rs:761-811): the
      re-entry quantity sized at the bid, floored at the initial quantity
      `initialQty`, priced off the position price and cropped to the limit. */
  function TrailingReentryLong(ex: ExchangeParams, st: StateParams, bot: BotParams, pos: Position,
                               initialQty: real): (r: Order)
    requires ex.Valid()
    ensures var we := WalletExposure(ex.cMult, st.balance, pos.size, pos.price);
            we > bot.walletExposureLimit * 0.999 ==> r == NoOrder
    ensures var we := WalletExposure(ex.cMult, st.balance, pos.size, pos.price);
            var proposed := Max(CalcReentryQty(st.orderBook.bid, st.balance, pos.size, ex, bot), initialQty);
            we <= bot.walletExposureLimit * 0.999 ==>
              && r.price == TrailingEntryPriceLong(ex, st, bot, pos)
              && r.orderType in {EntryTrailingNormalLong, EntryTrailingCroppedLong}
              && (r.orderType == EntryTrailingCroppedLong <==> r.qty < proposed)
              && (r.orderType == EntryTrailingNormalLong ==> r.qty == proposed)
              && (r.orderType == EntryTrailingCroppedLong ==>
                    WalletExposureIfFilled(st.balance, pos.size, pos.price, proposed, r.price, ex)
                      > bot.walletExposureLimit * 1.01)
              && (r.orderType == EntryTrailingCroppedLong ==>
                    r.qty == CalcCroppedReentryQtyLong(ex, bot, pos, we, st.balance, proposed, r.price).1)
    ensures bot.walletExposureLimit >= 0.0 ==> r.qty >= 0.0
  {
    var walletExposure := WalletExposure(ex.cMult, st.balance, pos.size, pos.price);
    if walletExposure > bot.walletExposureLimit * 0.999 then NoOrder
    else
      var reentryQty := Max(CalcReentryQty(st.orderBook.bid, st.balance, pos.size, ex, bot), initialQty);
      var reentryPrice := TrailingEntryPriceLong(ex, st, bot, pos);
      var (_, reentryQtyCropped) :=
        CalcCroppedReentryQtyLong(ex, bot, pos, walletExposure, st.balance, reentryQty, reentryPrice);
      if reentryQtyCropped < reentryQty then
        Order(reentryQtyCropped, reentryPrice, EntryTrailingCroppedLong)
      else
        Order(reentryQty, reentryPrice, EntryTrailingNormalLong)
  }

  /** A cropped long trailing re-entry at a positive price, once filled,
      leaves the position within half a quantity step's notional of the wallet
      exposure limit (the position size a quantity-step multiple). */
  lemma TrailingCroppedOrderLandsNearLimit(ex: ExchangeParams, st: StateParams, bot: BotParams, pos: Position,
                                           initialQty: real)
    requires ex.Valid() && bot.walletExposureLimit > 0.0 && st.balance > 0.0
    requires pos.size > 0.0 && Jitted.IsMultiple(pos.size, ex.qtyStep)
    ensures var r := TrailingReentryLong(ex, st, bot, pos, initialQty);
            r.orderType == EntryTrailingCroppedLong && r.price > 0.0 ==>
              Notional(Abs(WalletExposureIfFilled(st.balance, pos.size, pos.price, r.qty, r.price, ex)
                           - bot.walletExposureLimit), st.balance)
                <= FillNotional(r.price, ex.qtyStep / 2.0, ex.cMult)
  {
    var r := TrailingReentryLong(ex, st, bot, pos, initialQty);
    if r.orderType == EntryTrailingCroppedLong && r.price > 0.0 {
      var we := WalletExposure(ex.cMult, st.balance, pos.size, pos.price);
      var proposed := Max(CalcReentryQty(st.orderBook.bid, st.balance, pos.size, ex, bot), initialQty);
      var crop := CalcCroppedReentryQtyLong(ex, bot, pos, we, st.balance, proposed, r.price);
      assert r.qty < proposed && r.qty == crop.1;
      assert crop.0 > bot.walletExposureLimit * 1.01;
      assert crop.1 >= 0.0;
      RoundKeepsLong(pos.size, proposed, ex.qtyStep);
      RoundKeepsLong(pos.size, crop.1, ex.qtyStep);
      CroppedReentryLandsNearLimit(ex, bot, pos, st.balance, proposed, r.price);
    }
  }

  /** calc_trailing_entry_long.  An armed but untriggered trail answers with a
      zero-quantity order tagged as a normal trailing entry, which is distinct
      from the empty order. */
  function CalcTrailingEntryLong(ex: ExchangeParams, st: StateParams, bot: BotParams, pos: Position,
                                 minPriceSinceOpen: real, maxPriceSinceMin: real): (r: Order)
    requires ex.Valid()
    ensures var q := CalcInitialEntryQty(ex, bot, st.balance, InitialEntryPriceLong(ex, st, bot));
            InitialEntryPriceLong(ex, st, bot) <= ex.priceStep || pos.size == 0.0 || pos.size < q * 0.8 ==>
              r == CalcInitialEntryLong(ex, st, bot, pos)
    ensures var q := CalcInitialEntryQty(ex, bot, st.balance, InitialEntryPriceLong(ex, st, bot));
            InitialEntryPriceLong(ex, st, bot) > ex.priceStep && pos.size != 0.0 && pos.size >= q * 0.8 ==>
              && (!TrailingEntryLongTriggered(bot, pos, minPriceSinceOpen, maxPriceSinceMin) ==>
                    r == Order(0.0, 0.0, EntryTrailingNormalLong))
              && (TrailingEntryLongTriggered(bot, pos, minPriceSinceOpen, maxPriceSinceMin) ==>
                    r == TrailingReentryLong(ex, st, bot, pos, q))
    ensures r.orderType != Empty && r.qty != 0.0 ==> r.price <= st.orderBook.bid
    ensures bot.walletExposureLimit >= 0.0 ==> r.qty >= 0.0
  {
    var initialEntryPrice := InitialEntryPriceLong(ex, st, bot);
    if initialEntryPrice <= ex.priceStep then NoOrder
    else
      var initialEntryQty := CalcInitialEntryQty(ex, bot, st.balance, initialEntryPrice);
      if pos.size == 0.0 then
        Order(initialEntryQty, initialEntryPrice, EntryInitialNormalLong)
      else if pos.size < initialEntryQty * 0.8 then
        Order(TopUpQty(ex, initialEntryPrice, initialEntryQty, pos.size),
              initialEntryPrice, EntryInitialPartialLong)
      else TrailingGateLong(bot, pos, minPriceSinceOpen, maxPriceSinceMin,
                            TrailingReentryLong(ex, st, bot, pos, initialEntryQty))
  }

  /** The two trigger checks of calc_trailing_entry_long (entries.rs:747-760):
      either one unmet answers with the armed-trail order. */
  function TrailingGateLong(bot: BotParams, pos: Position, minPriceSinceOpen: real, maxPriceSinceMin: real,
                            triggered: Order): (r: Order)
    ensures !TrailingEntryLongTriggered(bot, pos, minPriceSinceOpen, maxPriceSinceMin) ==>
              r == Order(0.0, 0.0, EntryTrailingNormalLong)
    ensures TrailingEntryLongTriggered(bot, pos, minPriceSinceOpen, maxPriceSinceMin) ==> r == triggered
  {
    if minPriceSinceOpen > pos.price * (1.0 - bot.entryTrailingThresholdPct) then
      Order(0.0, 0.0, EntryTrailingNormalLong)
    else if maxPriceSinceMin < minPriceSinceOpen * (1.0 + bot.entryTrailingDrawdownPct) then
      Order(0.0, 0.0, EntryTrailingNormalLong)
    else triggered
  }

  /** The short trailing trigger: price rose at least the threshold above the
      position price and has since pulled back at least the drawdown off that high. */
  predicate TrailingEntryShortTriggered(bot: BotParams, pos: Position, maxPriceSinceOpen: real,
                                        minPriceSinceMax: real)
  {
    && maxPriceSinceOpen >= pos.price * (1.0 + bot.entryTrailingThresholdPct)
    && minPriceSinceMax <= maxPriceSinceOpen * (1.0 - bot.entryTrailingDrawdownPct)
  }

  /** The price of a triggered short trailing entry. */
  function TrailingEntryPriceShort(ex: ExchangeParams, st: StateParams, bot: BotParams, pos: Position): (p: real)
    requires ex.Valid()
    ensures p >= st.orderBook.ask
    ensures p == st.orderBook.ask || Jitted.IsMultiple(p, ex.priceStep)
    ensures p >= pos.price * (1.0 + bot.entryTrailingThresholdPct - bot.entryTrailingDrawdownPct)
    ensures p == st.orderBook.ask
            || p < pos.price * (1.0 + bot.entryTrailingThresholdPct - bot.entryTrailingDrawdownPct) + ex.priceStep
  {
    Jitted.RoundUpMultiple(pos.price * (1.0 + bot.entryTrailingThresholdPct - bot.entryTrailingDrawdownPct),
                           ex.priceStep);
    Max(st.orderBook.ask,
        RoundUp(pos.price * (1.0 + bot.entryTrailingThresholdPct - bot.entryTrailingDrawdownPct), ex.priceStep))
  }

  /** The order of a triggered short trailing entry (entries.rs:838-890): the
      negated re-entry quantity sized at the ask, cropped to the limit when
      filling it at the ask would overshoot it by more than 1%. */
  function TrailingReentryShort(ex: ExchangeParams, st: StateParams, bot: BotParams, pos: Position)
    : (r: Order)
    requires ex.Valid() && bot.walletExposureLimit > 0.0
    ensures var we := WalletExposure(ex.cMult, st.balance, pos.size, pos.price);
            we > bot.walletExposureLimit * 0.999 ==> r == NoOrder
    ensures var we := WalletExposure(ex.cMult, st.balance, pos.size, pos.price);
            var proposed := -CalcReentryQty(st.orderBook.ask, st.balance, pos.size, ex, bot);
            var weIf := WalletExposureIfFilled(st.balance, pos.size, pos.price, proposed, st.orderBook.ask, ex);
            we <= bot.walletExposureLimit * 0.999 ==>
              && r.price == TrailingEntryPriceShort(ex, st, bot, pos)
              && (r.orderType == EntryTrailingCroppedShort <==> weIf > bot.walletExposureLimit * 1.01)
              && (r.orderType == EntryTrailingNormalShort <==> weIf <= bot.walletExposureLimit * 1.01)
              && (r.orderType == EntryTrailingNormalShort ==> r.qty == proposed)
              && (r.orderType == EntryTrailingCroppedShort ==>
                    var c := CropTarget(bot.walletExposureLimit, we, weIf, pos.size, proposed);
                    proposed <= c <= 0.0 && Abs(r.qty - c) <= ex.qtyStep / 2.0)
    ensures r.qty <= 0.0
  {
    var walletExposure := WalletExposure(ex.cMult, st.balance, pos.size, pos.price);
    if walletExposure > bot.walletExposureLimit * 0.999 then NoOrder
    else
      var entryQty := -CalcReentryQty(st.orderBook.ask, st.balance, pos.size, ex, bot);
      var weIfFilled := WalletExposureIfFilled(st.balance, pos.size, pos.price, entryQty, st.orderBook.ask, ex);
      var entryPrice := TrailingEntryPriceShort(ex, st, bot, pos);
      if weIfFilled > bot.walletExposureLimit * 1.01 then
        var c := CropTarget(bot.walletExposureLimit, walletExposure, weIfFilled, pos.size, entryQty);
        CropTargetBetween(bot.walletExposureLimit, walletExposure, weIfFilled, pos.size, entryQty);
        Jitted.RoundNonPositive(c, ex.qtyStep);
        Order(Round(c, ex.qtyStep), entryPrice, EntryTrailingCroppedShort)
      else
        Order(entryQty, entryPrice, EntryTrailingNormalShort)
  }

  /** calc_trailing_entry_short: for a flat position or a non-positive limit
      the short initial entry; otherwise the mirror of the long trailing
      entry, without the initial-quantity floor. */
  function CalcTrailingEntryShort(ex: ExchangeParams, st: StateParams, bot: BotParams, pos: Position,
                                  maxPriceSinceOpen: real, minPriceSinceMax: real): (r: Order)
    requires ex.Valid()
    ensures pos.size == 0.0 || bot.walletExposureLimit <= 0.0 ==> r == CalcInitialEntryShort(ex, st, bot, pos)
    ensures pos.size != 0.0 && bot.walletExposureLimit > 0.0 ==>
              && (!TrailingEntryShortTriggered(bot, pos, maxPriceSinceOpen, minPriceSinceMax) ==>
                    r == Order(0.0, 0.0, EntryTrailingNormalShort))
              && (TrailingEntryShortTriggered(bot, pos, maxPriceSinceOpen, minPriceSinceMax) ==>
                    r == TrailingReentryShort(ex, st, bot, pos))
    ensures r.orderType != Empty && r.qty != 0.0 ==> r.price >= st.orderBook.ask
    ensures r.qty <= 0.0
  {
    if pos.size == 0.0 || bot.walletExposureLimit <= 0.0 then CalcInitialEntryShort(ex, st, bot, pos)
    else TrailingGateShort(bot, pos, maxPriceSinceOpen, minPriceSinceMax, TrailingReentryShort(ex, st, bot, pos))
  }

  /** The two trigger checks of calc_trailing_entry_short (entries.rs:824-837). */
  function TrailingGateShort(bot: BotParams, pos: Position, maxPriceSinceOpen: real, minPriceSinceMax: real,
                             triggered: Order): (r: Order)
    ensures !TrailingEntryShortTriggered(bot, pos, maxPriceSinceOpen, minPriceSinceMax) ==>
              r == Order(0.0, 0.0, EntryTrailingNormalShort)
    ensures TrailingEntryShortTriggered(bot, pos, maxPriceSinceOpen, minPriceSinceMax) ==> r == triggered
  {
    if maxPriceSinceOpen < pos.price * (1.0 + bot.entryTrailingThresholdPct) then
      Order(0.0, 0.0, EntryTrailingNormalShort)
    else if minPriceSinceMax > maxPriceSinceOpen * (1.0 - bot.entryTrailingDrawdownPct) then
      Order(0.0, 0.0, EntryTrailingNormalShort)
    else triggered
  }

  // ---------------------------------------------------------------------------
  // Blending trailing and grid entries (long side)

  /** Which engine the long blender runs, and with which parameters. */
  datatype Route = NoRoute | TrailingRoute(params: BotParams) | GridRoute(params: BotParams)

  /** The wallet exposure limit scaled down to one engine's share, plus 1%. */
  function ScaledLimit(limit: real, share: real): (l: real)
    ensures limit > 0.0 && share > 0.0 ==> l > 0.0
  {
    if limit > 0.0 && share > 0.0 then
      Jitted.MulStrict(0.0, share * 1.01, limit);
      assert limit * share * 1.01 == share * 1.01 * limit;
      limit * share * 1.01
    else limit * share * 1.01
  }

  /** The share of the wallet exposure limit already taken. */
  function ExposureRatio(walletExposure: real, bot: BotParams): real
    requires bot.walletExposureLimit != 0.0
  {
    walletExposure / bot.walletExposureLimit
  }

  /** The routing decision of calc_next_entry_long for a ratio in (0, 1):
      trailing first, with its limit scaled down to its share (plus 1%) once
      there is a position, until the exposure ratio reaches the ratio. */
  function TrailingFirstRoute(walletExposure: real, bot: BotParams): (rt: Route)
    requires bot.walletExposureLimit != 0.0 && 0.0 < bot.entryTrailingGridRatio < 1.0
    ensures !rt.NoRoute?
    ensures rt.params == bot.(walletExposureLimit := rt.params.walletExposureLimit)
    ensures walletExposure == 0.0 ==> rt.params == bot
    ensures rt.TrailingRoute? <==> ExposureRatio(walletExposure, bot) < bot.entryTrailingGridRatio
    ensures rt.params.walletExposureLimit != bot.walletExposureLimit ==>
              rt.TrailingRoute?
              && rt.params.walletExposureLimit == ScaledLimit(bot.walletExposureLimit, bot.entryTrailingGridRatio)
    ensures bot.walletExposureLimit > 0.0 ==> rt.params.walletExposureLimit > 0.0
  {
    if ExposureRatio(walletExposure, bot) < bot.entryTrailingGridRatio then
      if walletExposure == 0.0 then TrailingRoute(bot)
      else
        TrailingRoute(bot.(walletExposureLimit := ScaledLimit(bot.walletExposureLimit, bot.entryTrailingGridRatio)))
    else GridRoute(bot)
  }

  /** The routing decision of calc_next_entry_long for a ratio in (-1, 0):
      grid first, with its limit scaled down to its share (plus 1%) once there
      is a position, until the exposure ratio reaches 1 + ratio. */
  function GridFirstRoute(walletExposure: real, bot: BotParams): (rt: Route)
    requires bot.walletExposureLimit != 0.0 && -1.0 < bot.entryTrailingGridRatio < 0.0
    ensures !rt.NoRoute?
    ensures rt.params == bot.(walletExposureLimit := rt.params.walletExposureLimit)
    ensures walletExposure == 0.0 ==> rt.params == bot
    ensures rt.TrailingRoute? <==> ExposureRatio(walletExposure, bot) >= 1.0 + bot.entryTrailingGridRatio
    ensures rt.params.walletExposureLimit != bot.walletExposureLimit ==>
              rt.GridRoute?
              && rt.params.walletExposureLimit == ScaledLimit(bot.walletExposureLimit, 1.0 + bot.entryTrailingGridRatio)
    ensures bot.walletExposureLimit > 0.0 ==> rt.params.walletExposureLimit > 0.0
  {
    if ExposureRatio(walletExposure, bot) < 1.0 + bot.entryTrailingGridRatio then
      if walletExposure == 0.0 then GridRoute(bot)
      else
        GridRoute(bot.(walletExposureLimit := ScaledLimit(bot.walletExposureLimit, 1.0 + bot.entryTrailingGridRatio)))
    else TrailingRoute(bot)
  }

  /** The routing decision of calc_next_entry_long. */
  function NextEntryLongRoute(ex: ExchangeParams, st: StateParams, bot: BotParams, pos: Position): (rt: Route)
    requires ex.Valid()
    ensures rt.NoRoute? <==> bot.walletExposureLimit == 0.0 || st.balance <= 0.0
    ensures !rt.NoRoute? ==> rt.params == bot.(walletExposureLimit := rt.params.walletExposureLimit)
    ensures !rt.NoRoute? && WalletExposure(ex.cMult, st.balance, pos.size, pos.price) == 0.0 ==> rt.params == bot
    ensures var ratio := bot.entryTrailingGridRatio;
            !rt.NoRoute? && (ratio >= 1.0 || ratio <= -1.0) ==> rt == TrailingRoute(bot)
    ensures !rt.NoRoute? && bot.entryTrailingGridRatio == 0.0 ==> rt == GridRoute(bot)
    ensures bot.walletExposureLimit != 0.0 && st.balance > 0.0 ==>
              var ratio := bot.entryTrailingGridRatio;
              var weRatio := ExposureRatio(WalletExposure(ex.cMult, st.balance, pos.size, pos.price), bot);
              (rt.TrailingRoute? <==> (ratio >= 1.0 || ratio <= -1.0
                                       || (0.0 < ratio && weRatio < ratio)
                                       || (ratio < 0.0 && weRatio >= 1.0 + ratio)))
    ensures !rt.NoRoute? && rt.params.walletExposureLimit != bot.walletExposureLimit ==>
              var ratio := bot.entryTrailingGridRatio;
              || (rt.TrailingRoute? && 0.0 < ratio < 1.0
                  && rt.params.walletExposureLimit == ScaledLimit(bot.walletExposureLimit, ratio))
              || (rt.GridRoute? && -1.0 < ratio < 0.0
                  && rt.params.walletExposureLimit == ScaledLimit(bot.walletExposureLimit, 1.0 + ratio))
    ensures !rt.NoRoute? && bot.walletExposureLimit > 0.0 ==> rt.params.walletExposureLimit > 0.0
  {
    if bot.walletExposureLimit == 0.0 || st.balance <= 0.0 then NoRoute
    else if bot.entryTrailingGridRatio >= 1.0 || bot.entryTrailingGridRatio <= -1.0 then TrailingRoute(bot)
    else if bot.entryTrailingGridRatio == 0.0 then GridRoute(bot)
    else if bot.entryTrailingGridRatio > 0.0 then
      TrailingFirstRoute(WalletExposure(ex.cMult, st.balance, pos.size, pos.price), bot)
    else GridFirstRoute(WalletExposure(ex.cMult, st.balance, pos.size, pos.price), bot)
  }

  /** calc_next_entry_long: the order of the engine the route selects. */
  function CalcNextEntryLong(ex: ExchangeParams, st: StateParams, bot: BotParams, pos: Position,
                             minPriceSinceOpen: real, maxPriceSinceMin: real): (r: Order)
    requires ex.Valid()
    ensures bot.walletExposureLimit == 0.0 || st.balance <= 0.0 ==> r == NoOrder
    ensures var ratio := bot.entryTrailingGridRatio;
            bot.walletExposureLimit != 0.0 && st.balance > 0.0 && (ratio >= 1.0 || ratio <= -1.0) ==>
              r == CalcTrailingEntryLong(ex, st, bot, pos, minPriceSinceOpen, maxPriceSinceMin)
    ensures bot.walletExposureLimit != 0.0 && st.balance > 0.0 && bot.entryTrailingGridRatio == 0.0 ==>
              r == CalcGridEntryLong(ex, st, bot, pos)
    ensures bot.walletExposureLimit > 0.0 && r.orderType != EntryGridInflatedLong ==> r.qty >= 0.0
  {
    match NextEntryLongRoute(ex, st, bot, pos)
    case NoRoute => NoOrder
    case TrailingRoute(p) => CalcTrailingEntryLong(ex, st, p, pos, minPriceSinceOpen, maxPriceSinceMin)
    case GridRoute(p) => CalcGridEntryLong(ex, st, p, pos)
  }

  // ---------------------------------------------------------------------------
  // Boundaries and worked scenarios

  /** At exactly 0.999 of the limit the grid stops (`>=`) while a triggered
      trailing entry still places an order (`>`). */
  lemma ExposureCapBoundary(ex: ExchangeParams, st: StateParams, bot: BotParams, pos: Position, initialQty: real)
    requires ex.Valid() && bot.walletExposureLimit != 0.0
    requires WalletExposure(ex.cMult, st.balance, pos.size, pos.price) == bot.walletExposureLimit * 0.999
    ensures GridReentryLong(ex, st, bot, pos) == NoOrder
    ensures TrailingReentryLong(ex, st, bot, pos, initialQty).orderType != Empty
  {
  }

  /** The instrument of the worked scenarios: price step 0.01, quantity step
      0.001, minimum quantity 0.001, minimum cost 5, linear contracts. */
  const ScenarioExchange := ExchangeParams(0.001, 0.01, 0.001, 5.0, 1.0)

  /** Balance 1000, bid 100 (ask 100.01), lower EMA band 100. */
  const ScenarioState := StateParams(1000.0, OrderBook(100.0, 100.01), EmaBands(100.0, 100.0))

  /** Limit 1, initial entries of 1% of the budget placed at the band, a 1%
      trailing threshold and the grid only (ratio 0). */
  const ScenarioBot := BotParams(0.0, 0.0, 1.0, 0.01, 0.0, 1.0, 0.02, 1.0, 0.0, 0.01, 0.005)

  /** The scenario's initial entry: price 100 and quantity 1000 * 1 * 0.01 / 100. */
  lemma {:induction false} ScenarioInitialEntry()
    ensures InitialEntryPriceLong(ScenarioExchange, ScenarioState, ScenarioBot) == 100.0
    ensures CalcMinEntryQty(100.0, ScenarioExchange) == 0.05
    ensures CalcInitialEntryQty(ScenarioExchange, ScenarioBot, 1000.0, 100.0) == 0.1
  {
    assert (100.0 / 0.01).Floor == 10000;
    assert RoundDn(100.0, 0.01) == 100.0;
    assert CostToQty(5.0, 100.0, 1.0) == 0.05;
    assert Jitted.Ceil(0.05 / 0.001) == 50;
    assert RoundUp(0.05, 0.001) == 0.05;
    assert InitialBudgetQty(ScenarioExchange, ScenarioBot, 1000.0, 100.0) == 0.1;
    assert Jitted.RoundHalfEven(0.1 / 0.001) == 100;
    assert Round(0.1, 0.001) == 0.1;
  }

  /** From flat, the grid (and the blender at ratio 0) opens with 0.1 at 100. */
  lemma ScenarioFlatOpensInitialEntry()
    ensures CalcGridEntryLong(ScenarioExchange, ScenarioState, ScenarioBot, Position(0.0, 0.0))
            == Order(0.1, 100.0, EntryInitialNormalLong)
    ensures CalcNextEntryLong(ScenarioExchange, ScenarioState, ScenarioBot, Position(0.0, 0.0), 100.0, 100.0)
            == Order(0.1, 100.0, EntryInitialNormalLong)
  {
    ScenarioInitialEntry();
  }

  /** A position of 0.09 is at least 0.8 of the 0.1 initial entry: no initial entry. */
  lemma ScenarioInitialisedPositionIsComplete()
    ensures CalcInitialEntryLong(ScenarioExchange, ScenarioState, ScenarioBot, Position(0.09, 100.0)) == NoOrder
  {
    ScenarioInitialEntry();
  }

  /** Without a retrace below the position price the trail is armed but not
      triggered: a zero order tagged as a trailing entry, not the empty order. */
  lemma ScenarioArmedTrailIsNotEmpty()
    ensures CalcTrailingEntryLong(ScenarioExchange, ScenarioState, ScenarioBot, Position(0.09, 100.0), 100.0, 100.0)
            == Order(0.0, 0.0, EntryTrailingNormalLong)
    ensures Order(0.0, 0.0, EntryTrailingNormalLong) != NoOrder
  {
    ScenarioInitialEntry();
  }
}
