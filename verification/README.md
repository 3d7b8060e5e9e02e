# passivbot next-order engine, in Dafny

This project models the per-side next-order decision engine of passivbot and proves
properties of that model. For one position side, the engine computes the single next
entry or close order from:

- the exchange's quantisation rules,
- the balance and order book,
- the EMA bands,
- the strategy parameters,
- the trailing extrema.

The modelled parts are:

- `entries.dfy` (module `Entries`), from `passivbot-rust/src/entries.rs`:
  - initial entries, with the 0.8 partial-fill threshold;
  - the long grid re-entry, including the 0.999 exposure cap, the 1% crop tolerance and the one-step lookahead inflation;
  - the short grid path, which goes through `calc_reentry_order`;
  - the long and short trailing entries;
  - `calc_next_entry_long`, which blends trailing and grid entries by `entry_trailing_grid_ratio`.
- `trailing.dfy` (module `Trailing`), from `passivbot-rust/src/trailing.rs`: the trailing full-exit close of a long position, and the older long trailing entry.
- `jitted.dfy` (module `Jitted`), from the pure numeric helpers of `jitted.py`:
  - the three step rounders;
  - `calc_diff` and `calc_ema`;
  - the EMA-anchored initial prices;
  - the minimum entry quantity;
  - the position merge.
- `forager.dfy` (module `Forager`), from the pure fragments of `src/passivbot_forager.py`:
  - the fold over 1m candles that `update_trailing_data` uses to produce the trailing extrema;
  - the split of a side's total wallet exposure limit among its positions in `set_live_configs`;
  - the final filter and duplicate-removal pass of `calc_ideal_orders`;
  - the `manual` and `tp_only` mode filter of `calc_orders_to_cancel_and_create`.
- `types.dfy` (module `Types`): the engine's value types.
- `utils.dfy` (module `Utils`): the primitives the Rust engine imports from `crate::utils`. That module is not part of this model, so each primitive is defined from its interface:
  - rounding and merging follow the `jitted.py` helpers;
  - `cost_to_qty` gives 0 for a non-positive price;
  - wallet exposure is 0 without a balance or without a position;
  - `interpolate` is the two-point Lagrange form.

Every `f64` is a `real`. Python's `ZeroDivisionError` is the `Jitted.Outcome` variant `ZeroDivisionError`, and `np.inf` is `Forager.Bound.Inf`.

In these places the model follows the code:

- **Trailing triggers are not strict.** The trailing-entry and trailing-close triggers pass when the extremum exactly meets its threshold, because the code returns early only on a strict `>` or `<` (entries.rs:747-760, trailing.rs:37-42).
- **The 0.999 cap differs between grid and trailing.** At exactly `0.999 × wallet_exposure_limit`, the grid stops (`>=` at entries.rs:171). The long trailing entry and the legacy trailing entry still place an order there (`>` at entries.rs:767 and trailing.rs:86). `Entries.ExposureCapBoundary` proves this.
- **The long trailing entry price** is the position price times `(1 - threshold + drawdown)`, rounded down and capped at the bid (entries.rs:780-788). The short one is the mirror.
- **The short initial entry has no guard on a degenerate anchor price.** Only the long initial entry has one (`Entries.InitialEntryGuardIsLongOnly`).
- **The short trailing re-entry is not floored at the initial-entry quantity.** It is also sized at the ask.
- **The short grid path** (`calc_next_grid_entry_short`) reuses `calc_reentry_order`. That function prices off the bid with `round_dn` and tags its orders with the long grid tags. The model keeps both, and so proves no sign or book-side property for that path beyond what the code guarantees.

## Model

| member | source | states |
|---|---|---|
| Jitted.RoundHalfEven | jitted.py:29-31 | np.round on a scalar: an integer within 1/2 of its argument, strictly within off a tie, and even at a tie |
| Jitted.RoundUp | jitted.py:19-21 | round_up lands in [n, n + step) |
| Jitted.RoundDn | jitted.py:24-26 | round_dn lands in (n - step, n] |
| Jitted.Round | jitted.py:29-31 | round_ lands within step/2 of n |
| Jitted.RoundTiesToEven | jitted.py:29-31 | round_ lands strictly within step/2 of n off a tie; at a tie it lands on the neighbouring step multiple that is an even multiple |
| Jitted.RoundUpMultiple | jitted.py:19-21 | round_up returns an integer multiple of the step |
| Jitted.RoundDnMultiple | jitted.py:24-26 | round_dn returns an integer multiple of the step |
| Jitted.RoundMultiple | jitted.py:29-31 | round_ returns an integer multiple of the step |
| Jitted.RoundersIdempotent | jitted.py:19-31 | all three rounders leave a multiple of the step unchanged |
| Jitted.RoundersMonotone | jitted.py:19-31 | all three rounders are monotone in the rounded value |
| Jitted.RoundNonNegative | jitted.py:29-31 | round_ keeps a non-negative value non-negative |
| Jitted.RoundNonPositive | jitted.py:29-31 | round_ keeps a non-positive value non-positive |
| Jitted.CalcDiff | jitted.py:34-36 | defined exactly when y != 0; non-negative; zero iff x == y; times abs(y) it is abs(x - y) |
| Jitted.CalcEma | jitted.py:44-46 | with weights alpha and 1 - alpha in [0, 1] the new EMA lies between the previous EMA and the new value; alpha 1 or 0 selects one of them |
| Jitted.CalcInitialLongEntryPrice | jitted.py:76-78 | never above the highest bid or the spread-shifted EMA; otherwise a price-step multiple within one step below the shifted EMA |
| Jitted.CalcInitialShrtEntryPrice | jitted.py:81-83 | never below the lowest ask or the spread-shifted EMA; otherwise a price-step multiple within one step above it |
| Jitted.CalcMinEntryQty | jitted.py:86-88 | as written: at least min_qty and the min-cost quantity, and either min_qty or a price-step multiple less than one price step above the min-cost quantity; a ZeroDivisionError exactly when the min-cost quantity divides by zero |
| Jitted.MinEntryQtyUsesPriceStep | jitted.py:86-88 | an input where the as-written result is not a qty-step multiple and exceeds the corrected one |
| Jitted.CalcMinEntryQtyCorrected | jitted.py:86-88 | the least qty-step multiple covering the min-cost quantity, or min_qty when larger |
| Jitted.CalcNewPsizePprice | jitted.py:121-130 | no fill leaves the position; otherwise the size is round_(psize + qty) and size times price keeps the combined notional; ZeroDivisionError iff the new size rounds to 0 |
| Jitted.MergeIsWeightedAverage | jitted.py:121-130 | with no rounding and two long legs, the new price is the size-weighted average and lies between the two prices |
| Utils.CostToQty | passivbot-rust/src/entries.rs:101-105 | the quantity whose notional at the price is the cost; 0 for a non-positive price |
| Utils.WalletExposure | passivbot-rust/src/entries.rs:165-170 | exposure times balance is the position notional; 0 without a balance or a position |
| Utils.NewPsizePprice | passivbot-rust/src/entries.rs:214-220 | the merged position keeps the combined notional, or is flat when the size rounds to 0 |
| Utils.WalletExposureIfFilled | passivbot-rust/src/entries.rs:282-289 | a zero fill keeps the current exposure; no balance or a fill that rounds the position flat gives 0 |
| Utils.ExposureIfFilledIsCombinedNotional | passivbot-rust/src/entries.rs:282-289 | exposure if filled times balance is the position notional plus the fill notional |
| Utils.ExposureOfFill | passivbot-rust/src/entries.rs:282-289 | for a long position, filling adds exactly the fill's notional to the exposure's notional |
| Utils.AddsNotionalUnique | passivbot-rust/src/entries.rs:282-289 | on a non-zero balance, the exposure reached by adding a notional is unique |
| Utils.Interpolate | passivbot-rust/src/entries.rs:292-296 | the result lies on the line through the two points and passes through both |
| Utils.InterpolateWithin | passivbot-rust/src/entries.rs:292-296 | inside the abscissa interval the result lies between the two ordinates |
| Utils.EmaPriceBid | passivbot-rust/src/entries.rs:13-18 | the anchor is never above the bid or the shifted lower band, and it is the bid or a price-step multiple less than one price step below the shifted lower band |
| Utils.EmaPriceAsk | passivbot-rust/src/entries.rs:55-60 | the anchor is never below the ask or the shifted upper band, and it is the ask or a price-step multiple less than one price step above the shifted upper band |
| Entries.CalcMinEntryQty | passivbot-rust/src/entries.rs:111-123 | at least min_qty; its notional meets min_cost; otherwise a qty-step multiple less than one step above the min-cost quantity |
| Entries.CalcInitialEntryQty | passivbot-rust/src/entries.rs:92-109 | at least the minimum entry quantity and the initial budget share rounded to the qty step; otherwise a qty-step multiple within step/2 of that share |
| Entries.CalcReentryQty | passivbot-rust/src/entries.rs:387-406 | exactly the largest of the minimum entry quantity, the rounded double-down of the position and the rounded initial budget share |
| Entries.TopUpQty | passivbot-rust/src/entries.rs:35-43 | the top-up is at least the minimum entry quantity; otherwise it is a qty-step multiple within one step below the missing quantity |
| Entries.CalcInitialEntryLong | passivbot-rust/src/entries.rs:7-47 | Empty at a degenerate anchor; full entry from flat; top-up below 0.8 of the target; Empty above; orders priced in (price_step, bid] |
| Entries.CalcInitialEntryShort | passivbot-rust/src/entries.rs:49-90 | the mirror on abs(size) with non-positive quantities priced at or above the ask |
| Entries.InitialEntryGuardIsLongOnly | passivbot-rust/src/entries.rs:19-21 | at an anchor at or below one price step the long initial entry is Empty, while the short one opens its full entry from flat whatever its anchor |
| Entries.CalcReentryPrice | passivbot-rust/src/entries.rs:408-428 | 0, or a price in (price_step, bid] not above the exposure-widened spaced price and, unless it is the bid, less than one price step below it; 0 exactly when the bid or the rounded spaced price is at most one step |
| Entries.CropTargetBetween | passivbot-rust/src/entries.rs:290-296 | heading to the limit from below, the crop target is a fraction of the proposed quantity |
| Entries.CropTargetAtEqualExposures | passivbot-rust/src/entries.rs:254-258 | when filling leaves the exposure unchanged, the crop target and its rounding are 0, in place of the code's division by zero |
| Entries.CropTarget | passivbot-rust/src/entries.rs:290-296 | no quantity when the exposure already sits at the limit, the whole proposed quantity when the exposure if filled is the limit |
| Entries.CropTargetOnLine | passivbot-rust/src/entries.rs:290-296 | the crop target is where the exposure line meets the wallet exposure limit |
| Entries.CropTargetNotional | passivbot-rust/src/entries.rs:290-296 | when a fill adds its notional to the exposure, the crop target's notional is exactly what takes the exposure to the limit |
| Entries.CropTargetLandsOnLimit | passivbot-rust/src/entries.rs:290-296 | filling the unrounded crop target puts a long position exactly on the wallet exposure limit |
| Entries.RoundedCropNearLimit | passivbot-rust/src/entries.rs:290-300 | filling a quantity within step/2 of the crop target misses the limit by at most the notional of half a quantity step |
| Entries.GridCroppedOrderLandsNearLimit | passivbot-rust/src/entries.rs:197-212 | a cropped grid re-entry, once filled, leaves the position within the notional of half a quantity step of the wallet exposure limit |
| Entries.TrailingCroppedOrderLandsNearLimit | passivbot-rust/src/entries.rs:790-811 | a cropped trailing re-entry with a positive price, once filled, leaves the position within the notional of half a quantity step of the wallet exposure limit |
| Entries.RoundKeepsLong | passivbot-rust/src/entries.rs:290-300 | adding a non-negative quantity to a positive qty-step multiple keeps the rounded long size positive |
| Entries.CroppedReentryLandsNearLimit | passivbot-rust/src/entries.rs:273-304 | when calc_cropped_reentry_qty_long crops, filling its result misses the limit by at most the notional of half a quantity step |
| Entries.CalcCroppedReentryQtyLong | passivbot-rust/src/entries.rs:273-304 | returns the exposure if filled; keeps the quantity within 1% over the limit; else crops to a qty-step multiple within step/2 of the line target, which stays non-negative for a long entry below the cap |
| Entries.GridProposedQty | passivbot-rust/src/entries.rs:187-196 | the larger of the re-entry quantity and the initial-entry quantity: at least both and min_qty, and equal to one of them |
| Entries.GridReentryLong | passivbot-rust/src/entries.rs:165-270 | Empty at or above 0.999 of the limit; priced in (price_step, bid]; cropped exactly when the cropped quantity is below the proposed one, which takes a >1% overshoot; a cropped order has exactly the cropped quantity; otherwise inflated exactly when the lookahead finds the next rung too small, to within step/2 of the crop target; normal is the proposed size; every order sits at the re-entry price |
| Entries.NextRungTooSmall | passivbot-rust/src/entries.rs:251-252 | the next rung is too small iff its cropped quantity is below a quarter of the double-down factor times the filled position, the comparison turning for a negative position and a zero position counting only a negative quantity |
| Entries.NextRung | passivbot-rust/src/entries.rs:213-250 | the position after the fill is unchanged for a zero fill and otherwise the rounded merged size |
| Entries.RatioBelow | passivbot-rust/src/entries.rs:251-252 | the float quotient test num / den < bound, as num < bound × den for a positive and num > bound × den for a negative denominator, and num < 0 for a zero one |
| Entries.CalcGridEntryLong | passivbot-rust/src/entries.rs:125-271 | Empty for a zero limit, no balance, or an initial-entry anchor at most one price step; the initial entry for flat or small positions; prices in (price_step, bid] |
| Entries.CalcReentryOrder | passivbot-rust/src/entries.rs:430-512 | Empty at the cap; the cropped flag is exactly the cropped tag and means a >1% overshoot; a cropped order is within step/2 of the crop target; a normal order has the floored re-entry quantity |
| Entries.GridReentryShort | passivbot-rust/src/entries.rs:323-385 | Empty at or above 0.999 of the limit; normal and cropped re-entries are the reentry order itself; below the cap, inflated exactly when the reentry order is not cropped and the lookahead's is, with a too-small next rung; priced in (price_step, bid] |
| Entries.InflateReentryShort | passivbot-rust/src/entries.rs:344-385 | for a normal (not cropped) re-entry priced in (price_step, bid]: inflated exactly when the lookahead's re-entry is cropped and its rung is too small, and then at the re-entry price within step/2 of the crop target; otherwise the re-entry itself |
| Entries.CalcNextGridEntryShort | passivbot-rust/src/entries.rs:306-385 | Empty for a zero limit or no balance; the short initial entry when it has a quantity; at or above 0.999 of the limit with no initial entry, Empty; normal and cropped re-entries are the reentry order itself; inflated exactly when the reentry order is not cropped and the lookahead's is, with a too-small next rung, and then within step/2 of the crop target; grid re-entries carry long tags and are priced in (price_step, bid] |
| Entries.TrailingEntryPriceLong | passivbot-rust/src/entries.rs:780-788 | never above the bid or the threshold-and-drawdown price; otherwise a price-step multiple less than one step below that price |
| Entries.TrailingReentryLong | passivbot-rust/src/entries.rs:761-811 | Empty strictly above 0.999 of the limit; otherwise cropped iff below the floored re-entry quantity (a >1% overshoot), and then exactly the cropped quantity; normal is that quantity |
| Entries.CalcTrailingEntryLong | passivbot-rust/src/entries.rs:707-811 | the initial entry for flat or small positions; the armed zero order while untriggered; the triggered re-entry otherwise; never negative for a non-negative limit |
| Entries.TrailingGateLong | passivbot-rust/src/entries.rs:747-760 | the armed zero order unless the retrace-then-rebound trigger holds |
| Entries.TrailingEntryPriceShort | passivbot-rust/src/entries.rs:862-870 | never below the ask or the threshold-and-drawdown price; otherwise a price-step multiple less than one step above that price |
| Entries.TrailingReentryShort | passivbot-rust/src/entries.rs:838-890 | Empty strictly above 0.999 of the limit; cropped iff the fill at the ask overshoots by >1%, to within step/2 of a target between the proposed quantity and 0; never positive |
| Entries.CalcTrailingEntryShort | passivbot-rust/src/entries.rs:813-890 | the short initial entry for flat or a non-positive limit; the armed zero order while untriggered; the triggered re-entry otherwise; never positive |
| Entries.TrailingGateShort | passivbot-rust/src/entries.rs:824-837 | the armed zero order unless the rally-then-pullback trigger holds |
| Entries.TrailingFirstRoute | passivbot-rust/src/entries.rs:548-577 | trailing iff the exposure ratio is below the grid ratio; only the limit changes, to limit × ratio × 1.01, and only with a position |
| Entries.GridFirstRoute | passivbot-rust/src/entries.rs:578-608 | trailing iff the exposure ratio reaches 1 + ratio; only the limit changes, to limit × (1 + ratio) × 1.01 for the grid, and only with a position |
| Entries.NextEntryLongRoute | passivbot-rust/src/entries.rs:514-608 | no route iff a zero limit or no balance; trailing only for abs(ratio) >= 1, grid only for ratio 0; the trailing/grid choice as an iff on the exposure ratio; a positive limit stays positive |
| Entries.CalcNextEntryLong | passivbot-rust/src/entries.rs:514-609 | Empty for a zero limit or no balance; equals the trailing engine for abs(ratio) >= 1 and the grid engine for ratio 0; non-negative except an inflated grid order |
| Entries.ExposureCapBoundary | passivbot-rust/src/entries.rs:761-769 | at exactly 0.999 of the limit the grid re-entry is Empty while the trailing re-entry is not |
| Entries.ScenarioInitialEntry | passivbot-rust/src/entries.rs:92-123 | at bid 100, balance 1000, limit 1 and 1% initial share, the anchor is 100, the minimum 0.05 and the initial quantity 0.1 |
| Entries.ScenarioFlatOpensInitialEntry | passivbot-rust/src/entries.rs:28-34 | from flat the grid and the blender open with 0.1 at 100 |
| Entries.ScenarioInitialisedPositionIsComplete | passivbot-rust/src/entries.rs:35-46 | a position of 0.09 is at least 0.8 of 0.1, so there is no initial entry |
| Entries.ScenarioArmedTrailIsNotEmpty | passivbot-rust/src/entries.rs:747-760 | an untriggered trail answers with a zero order that differs from Empty |
| Trailing.TrailingClosePriceIsMarkedUp | passivbot-rust/src/trailing.rs:19-35 | the close price is at or above the marked-up position price and, unless it is the ask, less than one price step above it |
| Trailing.TrailingClosePriceLong | passivbot-rust/src/trailing.rs:19-35 | at or above the ask and, for a non-negative position price, the rounded-up position price; otherwise a price-step multiple |
| Trailing.CalcTrailingCloseLong | passivbot-rust/src/trailing.rs:7-60 | Empty when flat; a full exit at the close price immediately for a zero drawdown, else exactly when the trigger holds |
| Trailing.CloseLongSells | passivbot-rust/src/trailing.rs:7-60 | a long close never buys, and it is priced at or above the position price |
| Trailing.ImmediateCloseIgnoresExtrema | passivbot-rust/src/trailing.rs:18-36 | with a zero drawdown the close does not depend on the extrema |
| Trailing.CalcTrailingEntryLong | passivbot-rust/src/trailing.rs:62-139 | Empty when flat, for a non-positive limit or while untriggered; the triggered entry otherwise; never negative |
| Trailing.EntryGateLong | passivbot-rust/src/trailing.rs:74-79 | Empty unless the retrace-then-rebound trigger holds |
| Trailing.TriggeredEntryLong | passivbot-rust/src/trailing.rs:80-138 | Empty strictly above 0.999 of the limit; priced at or below the bid; cropped iff the fill at the bid overshoots by >1%, and then within step/2 of the crop target; normal is the re-entry quantity |
| Trailing.LegacyEntryHasNoArmedSentinel | passivbot-rust/src/trailing.rs:74-79 | where the entry engine answers the armed zero order, the legacy entry answers Empty |
| Forager.MinBound | src/passivbot_forager.py:582-584 | Python min with +inf: finite, at most both arguments, and one of them |
| Forager.Step | src/passivbot_forager.py:578-591 | a new high resets the pullback low to the close, else that low follows the lows down; a new low resets the bounce high to the close, else it follows the highs up |
| Forager.Fold | src/passivbot_forager.py:575-591 | stale candles leave the extrema as they were; the highest high never falls and the lowest low never rises |
| Forager.After | src/passivbot_forager.py:575-577 | exactly the candles after the last position change |
| Forager.FoldIgnoresStaleCandles | src/passivbot_forager.py:575-577 | the fold over all candles equals the fold over the candles after the last change |
| Forager.FoldMaxSinceOpen | src/passivbot_forager.py:578-580 | the highest high is at least the start and every counted high, and is the start or one of them |
| Forager.FoldMinSinceOpen | src/passivbot_forager.py:585-587 | the lowest low is at most the start and every counted low, and is the start or one of them |
| Forager.FoldPullbackWithoutNewHigh | src/passivbot_forager.py:578-584 | without a new high the pullback low only decreases and ends at or below every counted low |
| Forager.FoldBounceWithoutNewLow | src/passivbot_forager.py:585-591 | without a new low the bounce high only increases and ends at or above every counted high |
| Forager.ExtremaOf | src/passivbot_forager.py:569-591 | the sentinels without a position change of that side or without candles; else the fold from the sentinels over the candles after the change |
| Forager.UpdateTrailingData | src/passivbot_forager.py:549-591 | one entry for every known, changed or active symbol; the sentinels for symbols without a change or candles; per-side extrema otherwise |
| Forager.TrailingDataExtremes | src/passivbot_forager.py:555-591 | the highest high is max(0, counted highs) and the lowest low is min(+inf, counted lows) |
| Forager.WalletExposureLimit | src/passivbot_forager.py:292-306 | the total limit shared evenly among the half-to-even rounded position count, 0 when that count is not positive |
| Forager.LiveWalletExposureLimits | src/passivbot_forager.py:295-306 | every market gets the long and short per-position limits |
| Forager.Kept | src/passivbot_forager.py:1626-1630 | a non-zero order is kept unless an initial or unstucking order lies farther from the last price than the threshold times the last price |
| Forager.ToLive | src/passivbot_forager.py:1633-1643 | the record has the absolute quantity and the price; reduce-only iff "close" is in the tag, long iff "long" is in the tag |
| Forager.Dedup | src/passivbot_forager.py:1622-1644 | emitted orders have distinct (qty, price) keys, none already seen, positive quantities and flags matching their tags |
| Forager.DedupSound | src/passivbot_forager.py:1623-1643 | every emitted order is the record of a kept ideal order |
| Forager.DedupComplete | src/passivbot_forager.py:1623-1644 | a kept ideal order whose key was not seen has its key emitted |
| Forager.FilterIdealOrders | src/passivbot_forager.py:1616-1645 | ZeroDivisionError iff a zero last price with orders; else sound, complete up to duplicates, duplicate-free and with flags matching tags |
| Forager.OfSide | src/passivbot_forager.py:1787-1788 | exactly the orders of the side |
| Forager.DropSide | src/passivbot_forager.py:1787-1806 | exactly the orders not of the side, plus its reduce-only ones when kept |
| Forager.DropSideKeepsOtherSide | src/passivbot_forager.py:1784-1806 | dropping one side's orders leaves the other side's orders unchanged and in order |
| Forager.ApplyMode | src/passivbot_forager.py:1785-1806 | manual drops the side, tp_only keeps only its reduce-only orders, other modes change nothing; the other side is untouched |
| Forager.ApplyModes | src/passivbot_forager.py:1784-1806 | no order is added; manual sides have none left, tp_only sides only reduce-only ones that all survive; other modes keep the side |
| Forager.FilterByModes | src/passivbot_forager.py:1783-1806 | the mode guarantees hold for both the orders to cancel and the orders to create |

## Left out

- `crate::utils`, `crate::types` and `crate::grids` are not part of this model. The primitives they provide are defined in `Utils` and `Types` from their interfaces. The legacy entry's `crate::grids::calc_reentry_qty` is taken to be the `calc_reentry_qty` of entries.rs.
- Floating point is not modelled. All arithmetic is exact over the reals:
  - there is no NaN or ±inf (except `np.inf` in the extrema);
  - there is no `nan_to_0` (jitted.py:121-130 uses it on the position price);
  - the final `np.round(…, 10)` safety rounding of the rounders is left out.

  A zero denominator is the `ZeroDivisionError` outcome in the Python helpers. In the Rust merge and in `RatioBelow`, it is the float result the code would go on to compare.
- The dead `calc_next_entry_short` (entries.rs:611-705) lies inside a comment and is not modelled. The other, unnamed helpers of jitted.py are not modelled either.
- The forager's I/O and asynchronous code is not modelled: exchange calls, logging, `update_PB_modes`, `calc_unstucking_close`, and the files that only wire things together.
- Forager.FilterIdealOrders: the pass does not sort orders by their distance from the last price. Soundness, completeness up to duplicates and duplicate-freedom hold for any order. Which of two duplicates survives, and the output order, are not stated.
- Forager.Dedup: the duplicate key is the pair `(abs(qty), price)`, not the string concatenation the code uses. The model does not capture a collision where two different pairs concatenate to the same string.
- Forager.ToLive: the `side` field is left out, because `determine_side_from_order_tuple` is not part of this model. The forager's `calc_diff` comes from a module that is not part of this model. It is taken to be `Jitted.CalcDiff`, which has the same formula.
- Forager.FilterByModes: the `filter_orders` diff between actual and ideal orders is not modelled. The mode filter is stated for any given lists of orders to cancel and to create.
- Forager.UpdateTrailingData: only the "long" and "short" position-side keys are modelled.
- Entries.CalcNextGridEntryShort: no sign property is stated. The code tags its re-entries with the long grid tags and prices them off the bid, and the sign of an inflated quantity depends on the interpolation.
- Entries.CalcNextGridEntryShort: the same degenerate interpolation is called in its inflate branch (entries.rs:363-367). When the exposure if filled equals the wallet exposure, the model's inflated quantity is 0, where the code divides by zero.
- Entries.GridReentryLong: no sign is stated for an inflated quantity. The line target can lie beyond the proposed quantity, so only its distance to that target is proved.
- Entries.GridReentryLong: a zero proposed quantity with a too-small next rung gives an inflated order of quantity 0. The exposure if filled then equals the wallet exposure, and the code's `interpolate` (entries.rs:254-258) divides by zero there, giving an inf or NaN quantity. The min_qty = min_cost = 0 exchange parameters, a zero initial share and a double-down below half a quantity step reach this case. `Entries.CropTargetAtEqualExposures` states the model's value.
- Entries.GridCroppedOrderLandsNearLimit: assumes a positive long position whose size is a qty-step multiple, so that the rounded filled size stays positive. The code does not check this.
- Entries.TrailingCroppedOrderLandsNearLimit: assumes the same as the grid lemma and states the bound only for an order with a positive price. The trailing price is rounded down and can reach 0 for a tiny position price.
- Entries.TrailingReentryShort: the cropped quantity is stated only to within step/2 of the line target. The code does not compare it with the proposed quantity.
- Utils.Interpolate: equal abscissae give the first ordinate. In `f64` the division by zero gives ±inf or NaN, so in the code the following `reentry_qty_cropped < reentry_qty` test would be false. In the crop branch of `calc_cropped_reentry_qty_long` (entries.rs:290-296), the callers' 0.999 cap and the 1% overshoot guard keep the two exposures apart. The inflate branches are not guarded, and the case does arise there (see the `Entries.GridReentryLong` and `Entries.CalcNextGridEntryShort` lines).
- Entries.CalcNextEntryLong: when the ratio is strictly between -1 and 1 and not 0, the contract states only sign and routing. `Entries.NextEntryLongRoute` states which engine runs with which limit.

## Findings

| source | as written | input that shows it | evidently intended | confidence | as-written member | corrected member |
|---|---|---|---|---|---|---|
| jitted.py:86-88 | `calc_min_entry_qty` rounds the min-cost quantity up to `xk[1]`, the price step | qty_step 0.3, price_step 0.5, min_qty 0.001, min_cost 5, linear, price 100: the result is 0.5, which is not a multiple of 0.3, while 0.3 already meets both minimums | rounding up to `xk[0]`, the quantity step, as entries.rs:111-123 does | not executed | Jitted.MinEntryQtyUsesPriceStep | Jitted.CalcMinEntryQtyCorrected |
