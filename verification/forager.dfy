/** The pure fragments of the live forager bot (src/passivbot_forager.py) that
    feed and consume the order engine: the trailing-extrema fold over 1m
    candles, the per-symbol wallet exposure limit, the final filter and dedup
    pass over ideal orders, and the per-mode filtering of orders to cancel and
    to create. */
module Forager {
  import Jitted

  datatype Side = Long | Short

  function Opposite(side: Side): Side
  {
    if side == Long then Short else Long
  }

  // ---------------------------------------------------------------------------
  // Trailing extrema

  /** A price bound that may be +infinity (numpy's `np.inf`). */
  datatype Bound = Fin(value: real) | Inf

  /** x < b */
  predicate Below(x: real, b: Bound)
  {
    b.Inf? || x < b.value
  }

  /** a <= b */
  predicate AtMost(a: Bound, b: Bound)
  {
    b.Inf? || (a.Fin? && a.value <= b.value)
  }

  /** Python's `min(b, x)`: the first argument unless the second is smaller. */
  function MinBound(b: Bound, x: real): (r: Bound)
    ensures r.Fin? && r.value <= x && AtMost(r, b)
    ensures r == b || r == Fin(x)
  {
    if b.Fin? && b.value <= x then b else Fin(x)
  }

  /** A 1m candle `[timestamp, high, low, close]`. */
  datatype Candle = Candle(ts: int, high: real, low: real, close: real)

  /** The trailing prices of one symbol and position side. */
  datatype Extrema = Extrema(maxSinceOpen: real, minSinceMax: Bound, minSinceOpen: Bound, maxSinceMin: real)

  /** The values before any candle is counted. */
  const Sentinels := Extrema(0.0, Inf, Inf, 0.0)

  /** One candle of the fold: a new high restarts the pullback watch at the
      close, otherwise the pullback low follows the lows; a new low restarts
      the bounce watch at the close, otherwise the bounce high follows the
      highs. */
  function Step(e: Extrema, x: Candle): (r: Extrema)
    ensures r.maxSinceOpen >= e.maxSinceOpen && r.maxSinceOpen >= x.high
    ensures r.maxSinceOpen == e.maxSinceOpen || r.maxSinceOpen == x.high
    ensures x.high > e.maxSinceOpen ==> r.minSinceMax == Fin(x.close)
    ensures x.high <= e.maxSinceOpen ==>
              && AtMost(r.minSinceMax, e.minSinceMax) && AtMost(r.minSinceMax, Fin(x.low))
              && (r.minSinceMax == e.minSinceMax || r.minSinceMax == Fin(x.low))
    ensures AtMost(r.minSinceOpen, e.minSinceOpen) && AtMost(r.minSinceOpen, Fin(x.low))
    ensures r.minSinceOpen == e.minSinceOpen || r.minSinceOpen == Fin(x.low)
    ensures Below(x.low, e.minSinceOpen) ==> r.maxSinceMin == x.close
    ensures !Below(x.low, e.minSinceOpen) ==>
              && r.maxSinceMin >= e.maxSinceMin && r.maxSinceMin >= x.high
              && (r.maxSinceMin == e.maxSinceMin || r.maxSinceMin == x.high)
  {
    var (maxSinceOpen, minSinceMax) :=
      if x.high > e.maxSinceOpen then (x.high, Fin(x.close))
      else (e.maxSinceOpen, MinBound(e.minSinceMax, x.low));
    var (minSinceOpen, maxSinceMin) :=
      if Below(x.low, e.minSinceOpen) then (Fin(x.low), x.close)
      else (e.minSinceOpen, Jitted.Max(e.maxSinceMin, x.high));
    Extrema(maxSinceOpen, minSinceMax, minSinceOpen, maxSinceMin)
  }

  /** The candle loop of update_trailing_data for one symbol and side:
      candles at or before the last position change are skipped. */
  function Fold(e: Extrema, candles: seq<Candle>, lastChange: int): (r: Extrema)
    ensures (forall i :: 0 <= i < |candles| ==> candles[i].ts <= lastChange) ==> r == e
    ensures r.maxSinceOpen >= e.maxSinceOpen
    ensures AtMost(r.minSinceOpen, e.minSinceOpen)
    decreases |candles|
  {
    if |candles| == 0 then e
    else Fold(if candles[0].ts <= lastChange then e else Step(e, candles[0]), candles[1..], lastChange)
  }

  /** The candles after the last position change. */
  function After(candles: seq<Candle>, lastChange: int): (r: seq<Candle>)
    ensures forall x :: x in r <==> x in candles && x.ts > lastChange
    ensures |r| <= |candles|
    decreases |candles|
  {
    if |candles| == 0 then []
    else if candles[0].ts <= lastChange then After(candles[1..], lastChange)
    else [candles[0]] + After(candles[1..], lastChange)
  }

  /** Candles up to the last position change play no part in the fold. */
  lemma {:induction false} FoldIgnoresStaleCandles(e: Extrema, candles: seq<Candle>, lastChange: int)
    ensures Fold(e, candles, lastChange) == Fold(e, After(candles, lastChange), lastChange)
    decreases |candles|
  {
    if |candles| > 0 {
      var c := candles[0];
      if c.ts <= lastChange {
        FoldIgnoresStaleCandles(e, candles[1..], lastChange);
      } else {
        FoldIgnoresStaleCandles(Step(e, c), candles[1..], lastChange);
        var rest := After(candles[1..], lastChange);
        assert ([c] + rest)[1..] == rest;
      }
    }
  }

  /** The fold's highest high is the running maximum over the counted candles. */
  lemma {:induction false} FoldMaxSinceOpen(e: Extrema, candles: seq<Candle>, lastChange: int)
    ensures var r := Fold(e, candles, lastChange);
            && r.maxSinceOpen >= e.maxSinceOpen
            && (forall i :: 0 <= i < |candles| && candles[i].ts > lastChange ==> candles[i].high <= r.maxSinceOpen)
            && (r.maxSinceOpen == e.maxSinceOpen
                || exists i :: 0 <= i < |candles| && candles[i].ts > lastChange && candles[i].high == r.maxSinceOpen)
    decreases |candles|
  {
    if |candles| > 0 {
      var e' := if candles[0].ts <= lastChange then e else Step(e, candles[0]);
      var tail := candles[1..];
      FoldMaxSinceOpen(e', tail, lastChange);
      var r := Fold(e, candles, lastChange);
      assert r == Fold(e', tail, lastChange);
      forall i | 0 <= i < |candles| && candles[i].ts > lastChange
        ensures candles[i].high <= r.maxSinceOpen
      {
        if i > 0 {
          assert candles[i] == tail[i - 1];
        }
      }
      if r.maxSinceOpen != e.maxSinceOpen && r.maxSinceOpen != e'.maxSinceOpen {
        var j :| 0 <= j < |tail| && tail[j].ts > lastChange && tail[j].high == r.maxSinceOpen;
        assert candles[j + 1] == tail[j];
      }
    }
  }

  /** The fold's lowest low is the running minimum over the counted candles. */
  lemma {:induction false} FoldMinSinceOpen(e: Extrema, candles: seq<Candle>, lastChange: int)
    ensures var r := Fold(e, candles, lastChange);
            && AtMost(r.minSinceOpen, e.minSinceOpen)
            && (forall i :: 0 <= i < |candles| && candles[i].ts > lastChange ==>
                  AtMost(r.minSinceOpen, Fin(candles[i].low)))
            && (r.minSinceOpen == e.minSinceOpen
                || exists i :: 0 <= i < |candles| && candles[i].ts > lastChange && r.minSinceOpen == Fin(candles[i].low))
    decreases |candles|
  {
    if |candles| > 0 {
      var e' := if candles[0].ts <= lastChange then e else Step(e, candles[0]);
      var tail := candles[1..];
      FoldMinSinceOpen(e', tail, lastChange);
      var r := Fold(e, candles, lastChange);
      assert r == Fold(e', tail, lastChange);
      forall i | 0 <= i < |candles| && candles[i].ts > lastChange
        ensures AtMost(r.minSinceOpen, Fin(candles[i].low))
      {
        if i > 0 {
          assert candles[i] == tail[i - 1];
        }
      }
      if r.minSinceOpen != e.minSinceOpen && r.minSinceOpen != e'.minSinceOpen {
        var j :| 0 <= j < |tail| && tail[j].ts > lastChange && r.minSinceOpen == Fin(tail[j].low);
        assert candles[j + 1] == tail[j];
      }
    }
  }

  /** Without a new high the pullback low only follows the lows down: it ends
      at or below where it started and at or below every counted low. */
  lemma {:induction false} FoldPullbackWithoutNewHigh(e: Extrema, candles: seq<Candle>, lastChange: int)
    requires forall i :: 0 <= i < |candles| && candles[i].ts > lastChange ==> candles[i].high <= e.maxSinceOpen
    ensures var r := Fold(e, candles, lastChange);
            && r.maxSinceOpen == e.maxSinceOpen
            && AtMost(r.minSinceMax, e.minSinceMax)
            && (forall i :: 0 <= i < |candles| && candles[i].ts > lastChange ==>
                  AtMost(r.minSinceMax, Fin(candles[i].low)))
    decreases |candles|
  {
    if |candles| > 0 {
      var e' := if candles[0].ts <= lastChange then e else Step(e, candles[0]);
      var tail := candles[1..];
      forall i | 0 <= i < |tail| && tail[i].ts > lastChange ensures tail[i].high <= e'.maxSinceOpen {
        assert tail[i] == candles[i + 1];
      }
      FoldPullbackWithoutNewHigh(e', tail, lastChange);
      var r := Fold(e, candles, lastChange);
      assert r == Fold(e', tail, lastChange);
      forall i | 0 <= i < |candles| && candles[i].ts > lastChange
        ensures AtMost(r.minSinceMax, Fin(candles[i].low))
      {
        if i > 0 {
          assert candles[i] == tail[i - 1];
        }
      }
    }
  }

  /** Without a new low the bounce high only follows the highs up. */
  lemma {:induction false} FoldBounceWithoutNewLow(e: Extrema, candles: seq<Candle>, lastChange: int)
    requires forall i :: 0 <= i < |candles| && candles[i].ts > lastChange ==> !Below(candles[i].low, e.minSinceOpen)
    ensures var r := Fold(e, candles, lastChange);
            && r.minSinceOpen == e.minSinceOpen
            && r.maxSinceMin >= e.maxSinceMin
            && (forall i :: 0 <= i < |candles| && candles[i].ts > lastChange ==> r.maxSinceMin >= candles[i].high)
    decreases |candles|
  {
    if |candles| > 0 {
      var e' := if candles[0].ts <= lastChange then e else Step(e, candles[0]);
      var tail := candles[1..];
      forall i | 0 <= i < |tail| && tail[i].ts > lastChange ensures !Below(tail[i].low, e'.minSinceOpen) {
        assert tail[i] == candles[i + 1];
      }
      FoldBounceWithoutNewLow(e', tail, lastChange);
      var r := Fold(e, candles, lastChange);
      assert r == Fold(e', tail, lastChange);
      forall i | 0 <= i < |candles| && candles[i].ts > lastChange
        ensures r.maxSinceMin >= candles[i].high
      {
        if i > 0 {
          assert candles[i] == tail[i - 1];
        }
      }
    }
  }

  datatype SidesExtrema = SidesExtrema(long: Extrema, short: Extrema)

  /** The trailing prices of one symbol and side: the fold from the sentinels
      over the symbol's candles, when both a last position change of that
      side and candles are known; the sentinels otherwise. */
  function ExtremaOf(symbol: string, side: Side, lastChanges: map<string, map<Side, int>>,
                     candles: map<string, seq<Candle>>): (r: Extrema)
    ensures symbol !in lastChanges || side !in lastChanges[symbol] || symbol !in candles ==> r == Sentinels
    ensures symbol in lastChanges && side in lastChanges[symbol] && symbol in candles ==>
              r == Fold(Sentinels, After(candles[symbol], lastChanges[symbol][side]), lastChanges[symbol][side])
  {
    if symbol in lastChanges && side in lastChanges[symbol] && symbol in candles then
      FoldIgnoresStaleCandles(Sentinels, candles[symbol], lastChanges[symbol][side]);
      Fold(Sentinels, candles[symbol], lastChanges[symbol][side])
    else Sentinels
  }

  /** update_trailing_data: fresh trailing prices for every symbol that had
      them, had a position change, or is active. */
  function UpdateTrailingData(known: set<string>, active: set<string>, lastChanges: map<string, map<Side, int>>,
                              candles: map<string, seq<Candle>>): (r: map<string, SidesExtrema>)
    ensures r.Keys == known + lastChanges.Keys + active
    ensures forall s :: s in r && (s !in lastChanges || s !in candles) ==> r[s] == SidesExtrema(Sentinels, Sentinels)
    ensures forall s :: s in r ==>
              r[s] == SidesExtrema(ExtremaOf(s, Long, lastChanges, candles), ExtremaOf(s, Short, lastChanges, candles))
  {
    map s | s in known + lastChanges.Keys + active ::
      SidesExtrema(ExtremaOf(s, Long, lastChanges, candles), ExtremaOf(s, Short, lastChanges, candles))
  }

  /** After the update, the highest high since open is max(0, highs) and the
      lowest low since open is min(+inf, lows) over the candles after the last
      position change. */
  lemma TrailingDataExtremes(symbol: string, side: Side, lastChanges: map<string, map<Side, int>>,
                             candles: map<string, seq<Candle>>)
    requires symbol in lastChanges && side in lastChanges[symbol] && symbol in candles
    ensures var e := ExtremaOf(symbol, side, lastChanges, candles);
            var t := lastChanges[symbol][side];
            var cs := candles[symbol];
            && e.maxSinceOpen >= 0.0
            && (forall i :: 0 <= i < |cs| && cs[i].ts > t ==> cs[i].high <= e.maxSinceOpen)
            && (e.maxSinceOpen == 0.0 || exists i :: 0 <= i < |cs| && cs[i].ts > t && cs[i].high == e.maxSinceOpen)
            && (forall i :: 0 <= i < |cs| && cs[i].ts > t ==> AtMost(e.minSinceOpen, Fin(cs[i].low)))
            && (e.minSinceOpen == Inf || exists i :: 0 <= i < |cs| && cs[i].ts > t && e.minSinceOpen == Fin(cs[i].low))
  {
    var t := lastChanges[symbol][side];
    FoldMaxSinceOpen(Sentinels, candles[symbol], t);
    FoldMinSinceOpen(Sentinels, candles[symbol], t);
  }

  // ---------------------------------------------------------------------------
  // Per-symbol wallet exposure limit

  /** set_live_configs: a side's total exposure limit shared evenly among its
      `n_positions` (rounded half to even, as Python's `round`), or 0 when
      that rounds to no position. */
  function WalletExposureLimit(totalLimit: real, nPositions: real): (r: real)
    ensures var n := Jitted.RoundHalfEven(nPositions);
            && (n > 0 ==> r * n as real == totalLimit)
            && (n <= 0 ==> r == 0.0)
    ensures totalLimit >= 0.0 ==> r >= 0.0
  {
    var n := Jitted.RoundHalfEven(nPositions);
    if n > 0 then totalLimit / n as real else 0.0
  }

  /** Each symbol of `symbols` gets the (long, short) limits of its side. */
  function LiveWalletExposureLimits(symbols: set<string>, longTotal: real, longN: real,
                                    shortTotal: real, shortN: real): (r: map<string, (real, real)>)
    ensures r.Keys == symbols
    ensures forall s :: s in r ==>
              r[s] == (WalletExposureLimit(longTotal, longN), WalletExposureLimit(shortTotal, shortN))
  {
    map s | s in symbols :: (WalletExposureLimit(longTotal, longN), WalletExposureLimit(shortTotal, shortN))
  }

  // ---------------------------------------------------------------------------
  // Ideal orders

  /** `sub` occurs in `s`, as Python's `sub in s`. */
  predicate Contains(s: string, sub: string)
    decreases |s|
  {
    if |s| < |sub| then false
    else if s[..|sub|] == sub then true
    else |s| > 0 && Contains(s[1..], sub)
  }

  /** An order tuple `(qty, price, tag)` the engine computed. */
  datatype IdealOrder = IdealOrder(qty: real, price: real, tag: string)

  /** An order the bot wants on the book, or has on it. */
  datatype LiveOrder = LiveOrder(symbol: string, positionSide: Side, qty: real, price: real,
                                 reduceOnly: bool, customId: string)

  /** The record an ideal order tuple becomes. */
  function ToLive(symbol: string, o: IdealOrder): (r: LiveOrder)
    ensures r.qty == Jitted.Abs(o.qty) && r.price == o.price && r.customId == o.tag && r.symbol == symbol
    ensures r.reduceOnly <==> Contains(o.tag, "close")
    ensures r.positionSide == Long <==> Contains(o.tag, "long")
  {
    LiveOrder(symbol, if Contains(o.tag, "long") then Long else Short, Jitted.Abs(o.qty), o.price,
              Contains(o.tag, "close"), o.tag)
  }

  /** An ideal order survives the pass unless its quantity is zero, or it is
      an initial or unstucking order farther from the last price than the
      threshold. */
  function Kept(o: IdealOrder, last: real, threshold: real): (k: bool)
    requires last != 0.0
    ensures !(Contains(o.tag, "initial") || Contains(o.tag, "unstuck")) ==> (k <==> o.qty != 0.0)
    ensures Contains(o.tag, "initial") || Contains(o.tag, "unstuck") ==>
              (k <==> o.qty != 0.0 && Jitted.Abs(o.price - last) <= threshold * Jitted.Abs(last))
  {
    var d := Jitted.CalcDiff(o.price, last).value;
    Jitted.RelativeDistanceAbove(d, Jitted.Abs(o.price - last), Jitted.Abs(last), threshold);
    && o.qty != 0.0
    && !((Contains(o.tag, "initial") || Contains(o.tag, "unstuck")) && d > threshold)
  }

  /** The duplicate key: absolute quantity and price. */
  function Key(o: IdealOrder): (real, real)
  {
    (Jitted.Abs(o.qty), o.price)
  }

  /** The loop of calc_ideal_orders' final pass over one symbol's orders,
      with the keys seen so far. */
  function Dedup(symbol: string, orders: seq<IdealOrder>, last: real, threshold: real,
                 seen: set<(real, real)>): (r: seq<LiveOrder>)
    requires last != 0.0
    ensures forall i, j :: 0 <= i < j < |r| ==> (r[i].qty, r[i].price) != (r[j].qty, r[j].price)
    ensures forall i :: 0 <= i < |r| ==> (r[i].qty, r[i].price) !in seen
    ensures forall i :: 0 <= i < |r| ==>
              && r[i].qty > 0.0 && r[i].symbol == symbol
              && (r[i].reduceOnly <==> Contains(r[i].customId, "close"))
              && (r[i].positionSide == Long <==> Contains(r[i].customId, "long"))
    ensures |r| <= |orders|
    decreases |orders|
  {
    if |orders| == 0 then []
    else
      var o := orders[0];
      if !Kept(o, last, threshold) || Key(o) in seen then Dedup(symbol, orders[1..], last, threshold, seen)
      else [ToLive(symbol, o)] + Dedup(symbol, orders[1..], last, threshold, seen + {Key(o)})
  }

  /** Every order the pass emits comes from a kept ideal order. */
  lemma {:induction false} DedupSound(symbol: string, orders: seq<IdealOrder>, last: real, threshold: real,
                                      seen: set<(real, real)>)
    requires last != 0.0
    ensures forall o :: o in Dedup(symbol, orders, last, threshold, seen) ==>
              exists i :: 0 <= i < |orders| && Kept(orders[i], last, threshold) && o == ToLive(symbol, orders[i])
    decreases |orders|
  {
    if |orders| > 0 {
      var o := orders[0];
      var tail := orders[1..];
      var seen' := if !Kept(o, last, threshold) || Key(o) in seen then seen else seen + {Key(o)};
      DedupSound(symbol, tail, last, threshold, seen');
      forall x | x in Dedup(symbol, orders, last, threshold, seen)
        ensures exists i :: 0 <= i < |orders| && Kept(orders[i], last, threshold) && x == ToLive(symbol, orders[i])
      {
        if x in Dedup(symbol, tail, last, threshold, seen') {
          var j :| 0 <= j < |tail| && Kept(tail[j], last, threshold) && x == ToLive(symbol, tail[j]);
          assert orders[j + 1] == tail[j];
        } else {
          assert x == ToLive(symbol, o);
        }
      }
    }
  }

  /** Some order of `r` has key `k`. */
  predicate HasKey(r: seq<LiveOrder>, k: (real, real))
  {
    exists j :: 0 <= j < |r| && (r[j].qty, r[j].price) == k
  }

  /** No kept ideal order is lost except as a duplicate: a kept order whose
      key was not seen before has its key on an emitted order. */
  lemma {:induction false} DedupComplete(symbol: string, orders: seq<IdealOrder>, last: real, threshold: real,
                                         seen: set<(real, real)>, i: int)
    requires last != 0.0
    requires 0 <= i < |orders| && Kept(orders[i], last, threshold) && Key(orders[i]) !in seen
    ensures HasKey(Dedup(symbol, orders, last, threshold, seen), Key(orders[i]))
    decreases |orders|
  {
    var o := orders[0];
    var tail := orders[1..];
    var r := Dedup(symbol, orders, last, threshold, seen);
    if !Kept(o, last, threshold) || Key(o) in seen {
      assert orders[i] == tail[i - 1];
      DedupComplete(symbol, tail, last, threshold, seen, i - 1);
    } else {
      var seen' := seen + {Key(o)};
      var rt := Dedup(symbol, tail, last, threshold, seen');
      assert r == [ToLive(symbol, o)] + rt;
      if i == 0 || Key(orders[i]) == Key(o) {
        assert (r[0].qty, r[0].price) == Key(orders[i]);
      } else {
        assert orders[i] == tail[i - 1];
        DedupComplete(symbol, tail, last, threshold, seen', i - 1);
        var j :| 0 <= j < |rt| && (rt[j].qty, rt[j].price) == Key(orders[i]);
        assert r[j + 1] == rt[j];
      }
    }
  }

  /** The final pass of calc_ideal_orders for one symbol.  Computing each
      order's distance divides by the last price, so a zero last price with
      any order to filter is a ZeroDivisionError. */
  function FilterIdealOrders(symbol: string, orders: seq<IdealOrder>, last: real, threshold: real)
    : (r: Jitted.Outcome<seq<LiveOrder>>)
    ensures r.ZeroDivisionError? <==> last == 0.0 && |orders| > 0
    ensures r.Value? ==>
              && (forall i, j :: 0 <= i < j < |r.value| ==>
                    (r.value[i].qty, r.value[i].price) != (r.value[j].qty, r.value[j].price))
              && (forall i :: 0 <= i < |r.value| ==>
                    && r.value[i].qty > 0.0
                    && (r.value[i].reduceOnly <==> Contains(r.value[i].customId, "close"))
                    && (r.value[i].positionSide == Long <==> Contains(r.value[i].customId, "long")))
    ensures r.Value? && last != 0.0 ==>
              && (forall o :: o in r.value ==>
                    exists i :: 0 <= i < |orders| && Kept(orders[i], last, threshold) && o == ToLive(symbol, orders[i]))
              && (forall i :: 0 <= i < |orders| && Kept(orders[i], last, threshold) ==> HasKey(r.value, Key(orders[i])))
  {
    if |orders| == 0 then Jitted.Value([])
    else if last == 0.0 then Jitted.ZeroDivisionError
    else
      DedupSound(symbol, orders, last, threshold, {});
      var r := Dedup(symbol, orders, last, threshold, {});
      forall i | 0 <= i < |orders| && Kept(orders[i], last, threshold) ensures HasKey(r, Key(orders[i])) {
        DedupComplete(symbol, orders, last, threshold, {}, i);
      }
      Jitted.Value(r)
  }

  // ---------------------------------------------------------------------------
  // Per-mode filtering of orders to cancel and to create

  /** A position side's mode; only "manual" and "tp_only" filter orders. */
  datatype Mode = Manual | TpOnly | OtherMode

  /** The orders of one position side, in order. */
  function OfSide(orders: seq<LiveOrder>, side: Side): (r: seq<LiveOrder>)
    ensures forall o :: o in r <==> o in orders && o.positionSide == side
    decreases |orders|
  {
    if |orders| == 0 then []
    else if orders[0].positionSide == side then [orders[0]] + OfSide(orders[1..], side)
    else OfSide(orders[1..], side)
  }

  /** The orders of `side` removed, except reduce-only ones when `keepReduceOnly`. */
  function DropSide(orders: seq<LiveOrder>, side: Side, keepReduceOnly: bool): (r: seq<LiveOrder>)
    ensures forall o :: o in r <==> o in orders && (o.positionSide != side || (keepReduceOnly && o.reduceOnly))
    ensures |r| <= |orders|
    decreases |orders|
  {
    if |orders| == 0 then []
    else if orders[0].positionSide != side || (keepReduceOnly && orders[0].reduceOnly) then
      [orders[0]] + DropSide(orders[1..], side, keepReduceOnly)
    else DropSide(orders[1..], side, keepReduceOnly)
  }

  /** Dropping orders of one side leaves the other side's orders as they were,
      in the same order. */
  lemma {:induction false} DropSideKeepsOtherSide(orders: seq<LiveOrder>, side: Side, keepReduceOnly: bool)
    ensures OfSide(DropSide(orders, side, keepReduceOnly), Opposite(side)) == OfSide(orders, Opposite(side))
    decreases |orders|
  {
    if |orders| > 0 {
      var o := orders[0];
      var tail := orders[1..];
      DropSideKeepsOtherSide(tail, side, keepReduceOnly);
      if o.positionSide != side || (keepReduceOnly && o.reduceOnly) {
        var rest := DropSide(tail, side, keepReduceOnly);
        assert ([o] + rest)[1..] == rest;
      }
    }
  }

  /** The filter of one side's mode. */
  function ApplyMode(orders: seq<LiveOrder>, side: Side, mode: Mode): (r: seq<LiveOrder>)
    ensures mode == Manual ==> forall o :: o in r <==> o in orders && o.positionSide != side
    ensures mode == TpOnly ==> forall o :: o in r <==> o in orders && (o.positionSide != side || o.reduceOnly)
    ensures mode == OtherMode ==> r == orders
    ensures OfSide(r, Opposite(side)) == OfSide(orders, Opposite(side))
  {
    match mode
    case Manual => DropSideKeepsOtherSide(orders, side, false); DropSide(orders, side, false)
    case TpOnly => DropSideKeepsOtherSide(orders, side, true); DropSide(orders, side, true)
    case OtherMode => orders
  }

  /** The mode loop of calc_orders_to_cancel_and_create over one symbol's
      orders: the long side's mode first, then the short side's. */
  function ApplyModes(orders: seq<LiveOrder>, longMode: Mode, shortMode: Mode): (r: seq<LiveOrder>)
    ensures forall o :: o in r ==> o in orders
    ensures longMode == Manual ==> forall o :: o in r ==> o.positionSide != Long
    ensures shortMode == Manual ==> forall o :: o in r ==> o.positionSide != Short
    ensures longMode == TpOnly ==> forall o :: o in r && o.positionSide == Long ==> o.reduceOnly
    ensures shortMode == TpOnly ==> forall o :: o in r && o.positionSide == Short ==> o.reduceOnly
    ensures longMode != Manual ==> forall o :: o in orders && o.positionSide == Long && o.reduceOnly ==> o in r
    ensures shortMode != Manual ==> forall o :: o in orders && o.positionSide == Short && o.reduceOnly ==> o in r
    ensures longMode == OtherMode ==> OfSide(r, Long) == OfSide(orders, Long)
    ensures shortMode == OtherMode ==> OfSide(r, Short) == OfSide(orders, Short)
  {
    var afterLong := ApplyMode(orders, Long, longMode);
    assert OfSide(afterLong, Short) == OfSide(orders, Short);
    var r := ApplyMode(afterLong, Short, shortMode);
    assert OfSide(r, Long) == OfSide(afterLong, Long);
    r
  }

  /** The orders to cancel and to create of one symbol, after the modes. */
  function FilterByModes(toCancel: seq<LiveOrder>, toCreate: seq<LiveOrder>, longMode: Mode, shortMode: Mode)
    : (r: (seq<LiveOrder>, seq<LiveOrder>))
    ensures longMode == Manual ==> forall o :: o in r.0 + r.1 ==> o.positionSide != Long
    ensures shortMode == Manual ==> forall o :: o in r.0 + r.1 ==> o.positionSide != Short
    ensures longMode == TpOnly ==> forall o :: o in r.0 + r.1 && o.positionSide == Long ==> o.reduceOnly
    ensures shortMode == TpOnly ==> forall o :: o in r.0 + r.1 && o.positionSide == Short ==> o.reduceOnly
    ensures longMode == OtherMode ==>
              OfSide(r.0, Long) == OfSide(toCancel, Long) && OfSide(r.1, Long) == OfSide(toCreate, Long)
    ensures shortMode == OtherMode ==>
              OfSide(r.0, Short) == OfSide(toCancel, Short) && OfSide(r.1, Short) == OfSide(toCreate, Short)
  {
    (ApplyModes(toCancel, longMode, shortMode), ApplyModes(toCreate, longMode, shortMode))
  }
}
