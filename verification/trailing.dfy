/** trailing.rs: the trailing full-exit close of a long position, and the
    older long trailing entry that answers "no order" where the entry engine
    in `Entries` answers with an armed zero-quantity order. */
module Trailing {
  import Jitted
  import opened Types
  import opened Utils
  import Entries

  // ---------------------------------------------------------------------------
  // Trailing close

  /** The close trigger: price rallied at least the threshold above the
      position price and has since pulled back at least the drawdown. */
  predicate TrailingCloseLongTriggered(bot: BotParams, pos: Position, maxPriceSinceOpen: real,
                                       minPriceSinceMax: real)
  {
    && maxPriceSinceOpen >= pos.price * (1.0 + bot.closeTrailingThresholdPct)
    && minPriceSinceMax <= maxPriceSinceOpen * (1.0 - bot.closeTrailingDrawdownPct)
  }

  /** The price of a trailing close: the position price marked up by what the
      threshold exceeds the drawdown by (never marked down), rounded up and
      never below the ask. */
  function TrailingClosePriceLong(ex: ExchangeParams, st: StateParams, bot: BotParams, pos: Position)
    : (p: real)
    requires ex.Valid()
    ensures p >= st.orderBook.ask
    ensures pos.price >= 0.0 ==> p >= RoundUp(pos.price, ex.priceStep) && p >= pos.price
    ensures p == st.orderBook.ask || Jitted.IsMultiple(p, ex.priceStep)
  {
    var markup := Max(0.0, bot.closeTrailingThresholdPct - bot.closeTrailingDrawdownPct);
    var target := pos.price * (1.0 + markup);
    Jitted.RoundUpMultiple(target, ex.priceStep);
    if pos.price >= 0.0 then
      Jitted.MulMonotone(1.0, 1.0 + markup, pos.price);
      assert pos.price * 1.0 <= (1.0 + markup) * pos.price;
      Jitted.RoundersMonotone(pos.price, target, ex.priceStep);
      Max(st.orderBook.ask, RoundUp(target, ex.priceStep))
    else Max(st.orderBook.ask, RoundUp(target, ex.priceStep))
  }

  /** The trailing close price is the marked-up position price rounded up to
      less than one price step above it, unless the ask is higher. */
  lemma TrailingClosePriceIsMarkedUp(ex: ExchangeParams, st: StateParams, bot: BotParams, pos: Position)
    requires ex.Valid()
    ensures var target := pos.price * (1.0 + Max(0.0, bot.closeTrailingThresholdPct - bot.closeTrailingDrawdownPct));
            var p := TrailingClosePriceLong(ex, st, bot, pos);
            && p >= target
            && (p == st.orderBook.ask || p < target + ex.priceStep)
  {
    var target := pos.price * (1.0 + Max(0.0, bot.closeTrailingThresholdPct - bot.closeTrailingDrawdownPct));
    var up := RoundUp(target, ex.priceStep);
    assert target <= up < target + ex.priceStep;
  }

  /** calc_trailing_close_long: the whole position closed at the trailing close
      price, immediately when the drawdown is zero and otherwise once the
      trail has triggered. */
  function CalcTrailingCloseLong(ex: ExchangeParams, st: StateParams, bot: BotParams, pos: Position,
                                 maxPriceSinceOpen: real, minPriceSinceMax: real): (r: Order)
    requires ex.Valid()
    ensures pos.size == 0.0 ==> r == NoOrder
    ensures r.orderType in {CloseTrailingLong, Empty}
    ensures r.orderType != Empty ==>
              r == Order(-pos.size, TrailingClosePriceLong(ex, st, bot, pos), CloseTrailingLong)
    ensures r.orderType != Empty ==> r.price >= st.orderBook.ask
    ensures pos.size != 0.0 && bot.closeTrailingDrawdownPct == 0.0 ==> r.orderType == CloseTrailingLong
    ensures pos.size != 0.0 && bot.closeTrailingDrawdownPct != 0.0 ==>
              (r.orderType == CloseTrailingLong <==>
                 TrailingCloseLongTriggered(bot, pos, maxPriceSinceOpen, minPriceSinceMax))
    ensures r.orderType == Empty ==> r == NoOrder
  {
    if pos.size == 0.0 then NoOrder
    else if bot.closeTrailingDrawdownPct == 0.0 then
      Order(-pos.size, TrailingClosePriceLong(ex, st, bot, pos), CloseTrailingLong)
    else if maxPriceSinceOpen < pos.price * (1.0 + bot.closeTrailingThresholdPct) then NoOrder
    else if minPriceSinceMax > maxPriceSinceOpen * (1.0 - bot.closeTrailingDrawdownPct) then NoOrder
    else Order(-pos.size, TrailingClosePriceLong(ex, st, bot, pos), CloseTrailingLong)
  }

  /** A close of a long position sells: its quantity is not positive, and it
      is priced at or above the position price. */
  lemma CloseLongSells(ex: ExchangeParams, st: StateParams, bot: BotParams, pos: Position,
                       maxPriceSinceOpen: real, minPriceSinceMax: real)
    requires ex.Valid() && pos.size >= 0.0 && pos.price >= 0.0
    ensures var r := CalcTrailingCloseLong(ex, st, bot, pos, maxPriceSinceOpen, minPriceSinceMax);
            r.qty <= 0.0 && (r.orderType != Empty ==> r.price >= pos.price)
  {
  }

  /** With a zero drawdown the extrema play no part: any two histories give
      the same close. */
  lemma ImmediateCloseIgnoresExtrema(ex: ExchangeParams, st: StateParams, bot: BotParams, pos: Position,
                                     max1: real, min1: real, max2: real, min2: real)
    requires ex.Valid() && bot.closeTrailingDrawdownPct == 0.0
    ensures CalcTrailingCloseLong(ex, st, bot, pos, max1, min1) == CalcTrailingCloseLong(ex, st, bot, pos, max2, min2)
  {
  }

  // ---------------------------------------------------------------------------
  // Legacy trailing entry

  /** The legacy calc_trailing_entry_long: the re-entry quantity of a grid
      step, sized and cropped at the bid, with no initial-entry branch, no
      initial-quantity floor and no armed sentinel. */
  function CalcTrailingEntryLong(ex: ExchangeParams, st: StateParams, bot: BotParams, pos: Position,
                                 minPriceSinceOpen: real, maxPriceSinceMin: real): (r: Order)
    requires ex.Valid()
    ensures pos.size == 0.0 || bot.walletExposureLimit <= 0.0 ==> r == NoOrder
    ensures !Entries.TrailingEntryLongTriggered(bot, pos, minPriceSinceOpen, maxPriceSinceMin) ==> r == NoOrder
    ensures pos.size != 0.0 && bot.walletExposureLimit > 0.0
            && Entries.TrailingEntryLongTriggered(bot, pos, minPriceSinceOpen, maxPriceSinceMin) ==>
              r == TriggeredEntryLong(ex, st, bot, pos)
    ensures r.qty >= 0.0
  {
    if pos.size == 0.0 || bot.walletExposureLimit <= 0.0 then NoOrder
    else EntryGateLong(bot, pos, minPriceSinceOpen, maxPriceSinceMin, TriggeredEntryLong(ex, st, bot, pos))
  }

  /** The two trigger checks of the legacy entry (trailing.rs:74-79): either
      one unmet answers with no order. */
  function EntryGateLong(bot: BotParams, pos: Position, minPriceSinceOpen: real, maxPriceSinceMin: real,
                         triggered: Order): (r: Order)
    ensures !Entries.TrailingEntryLongTriggered(bot, pos, minPriceSinceOpen, maxPriceSinceMin) ==> r == NoOrder
    ensures Entries.TrailingEntryLongTriggered(bot, pos, minPriceSinceOpen, maxPriceSinceMin) ==> r == triggered
  {
    if minPriceSinceOpen > pos.price * (1.0 - bot.entryTrailingThresholdPct) then NoOrder
    else if maxPriceSinceMin < minPriceSinceOpen * (1.0 + bot.entryTrailingDrawdownPct) then NoOrder
    else triggered
  }

  /** The triggered part of the legacy entry (trailing.rs:80-138). */
  function TriggeredEntryLong(ex: ExchangeParams, st: StateParams, bot: BotParams, pos: Position): (r: Order)
    requires ex.Valid() && bot.walletExposureLimit > 0.0
    ensures WalletExposure(ex.cMult, st.balance, pos.size, pos.price) > bot.walletExposureLimit * 0.999 ==>
              r == NoOrder
    ensures r.orderType in {EntryTrailingNormalLong, EntryTrailingCroppedLong, Empty}
    ensures r.orderType == Empty ==> r == NoOrder
    ensures r.orderType != Empty ==>
              var proposed := Entries.CalcReentryQty(st.orderBook.bid, st.balance, pos.size, ex, bot);
              var weIf := WalletExposureIfFilled(st.balance, pos.size, pos.price, proposed, st.orderBook.bid, ex);
              && r.price == Entries.TrailingEntryPriceLong(ex, st, bot, pos)
              && r.price <= st.orderBook.bid
              && (r.orderType == EntryTrailingCroppedLong <==> weIf > bot.walletExposureLimit * 1.01)
              && (r.orderType == EntryTrailingNormalLong ==> r.qty == proposed)
              && (r.orderType == EntryTrailingCroppedLong ==>
                    var we := WalletExposure(ex.cMult, st.balance, pos.size, pos.price);
                    Abs(r.qty - Entries.CropTarget(bot.walletExposureLimit, we, weIf, pos.size, proposed))
                      <= ex.qtyStep / 2.0)
    ensures r.qty >= 0.0
  {
    var walletExposure := WalletExposure(ex.cMult, st.balance, pos.size, pos.price);
    if walletExposure > bot.walletExposureLimit * 0.999 then NoOrder
    else
      var entryQty := Entries.CalcReentryQty(st.orderBook.bid, st.balance, pos.size, ex, bot);
      var weIfFilled := WalletExposureIfFilled(st.balance, pos.size, pos.price, entryQty, st.orderBook.bid, ex);
      var entryPrice := Entries.TrailingEntryPriceLong(ex, st, bot, pos);
      if weIfFilled > bot.walletExposureLimit * 1.01 then
        var c := Entries.CropTarget(bot.walletExposureLimit, walletExposure, weIfFilled, pos.size, entryQty);
        Entries.CropTargetBetween(bot.walletExposureLimit, walletExposure, weIfFilled, pos.size, entryQty);
        Jitted.RoundNonNegative(c, ex.qtyStep);
        Order(Round(c, ex.qtyStep), entryPrice, EntryTrailingCroppedLong)
      else
        Order(entryQty, entryPrice, EntryTrailingNormalLong)
  }

  /** Where the entry engine answers an untriggered trail with the armed
      zero-quantity order, the legacy entry answers with no order at all. */
  lemma LegacyEntryHasNoArmedSentinel(ex: ExchangeParams, st: StateParams, bot: BotParams, pos: Position,
                                      minPriceSinceOpen: real, maxPriceSinceMin: real)
    requires ex.Valid() && pos.size != 0.0
    requires Entries.InitialEntryPriceLong(ex, st, bot) > ex.priceStep
    requires pos.size >= Entries.CalcInitialEntryQty(ex, bot, st.balance, Entries.InitialEntryPriceLong(ex, st, bot))
                         * 0.8
    requires !Entries.TrailingEntryLongTriggered(bot, pos, minPriceSinceOpen, maxPriceSinceMin)
    ensures Entries.CalcTrailingEntryLong(ex, st, bot, pos, minPriceSinceOpen, maxPriceSinceMin)
            == Order(0.0, 0.0, EntryTrailingNormalLong)
    ensures CalcTrailingEntryLong(ex, st, bot, pos, minPriceSinceOpen, maxPriceSinceMin) == NoOrder
  {
  }
}
