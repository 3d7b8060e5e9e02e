/** The pure numeric helpers of the legacy `jitted.py`: step rounding, relative
    difference, one EMA step, EMA-anchored initial prices, the minimum entry
    quantity and the position merge.  Floats are modelled as `real`; the final
    `np.round(…, 10)` safety rounding is not modelled.  Division by zero, which
    raises `ZeroDivisionError` under numba's Python error model, is the
    `ZeroDivisionError` outcome. */
module Jitted {

  /** A computed value, or the `ZeroDivisionError` the helper raises. */
  datatype Outcome<T> = Value(value: T) | ZeroDivisionError

  /** The `xk` parameter tuple, restricted to the slots these helpers read:
      0 qty_step, 1 price_step, 3 min_qty, 4 min_cost, 5 contract multiplier,
      11 ema_spread, 16 inverse. */
  datatype Xk = Xk(qtyStep: real, priceStep: real, minQty: real, minCost: real,
                   cMult: real, emaSpread: real, inverse: bool)
  {
    /** Exchange increments are positive. */
    predicate Valid() { qtyStep > 0.0 && priceStep > 0.0 }
  }

  // ---------------------------------------------------------------------------
  // Rounding to an increment (np.floor / np.ceil / np.round, the last one ties-to-even)

  function Ceil(x: real): (k: int)
    ensures x <= k as real < x + 1.0
  {
    -((-x).Floor)
  }

  /** np.round on a scalar: the nearest integer, ties to the even one. */
  function RoundHalfEven(x: real): (k: int)
    ensures x - 0.5 <= k as real <= x + 0.5
    ensures x - x.Floor as real != 0.5 ==> x - 0.5 < k as real < x + 0.5
    ensures x - x.Floor as real == 0.5 ==> k % 2 == 0
  {
    var f := x.Floor;
    var d := x - f as real;
    if d < 0.5 then f
    else if d > 0.5 then f + 1
    else if f % 2 == 0 then f
    else f + 1
  }

  /** `x` is an integer multiple of `step`. */
  predicate IsMultiple(x: real, step: real)
    requires step > 0.0
  {
    (x / step).Floor as real == x / step
  }

  lemma MultipleOfStep(k: int, step: real)
    requires step > 0.0
    ensures IsMultiple(k as real * step, step)
  {
    assert (k as real * step) / step == k as real;
  }

  lemma MulMonotone(a: real, b: real, s: real)
    requires a <= b && s >= 0.0
    ensures a * s <= b * s
  {
  }

  lemma MulStrict(a: real, b: real, s: real)
    requires a < b && s > 0.0
    ensures a * s < b * s
  {
  }

  /** Scaling `x - lo <= k <= x + hi` (in units of `step`) back to values. */
  lemma ScaleBounds(n: real, step: real, k: int, lo: real, hi: real)
    requires step > 0.0 && lo >= 0.0 && hi >= 0.0
    requires n / step - lo <= k as real <= n / step + hi
    ensures n - lo * step <= k as real * step <= n + hi * step
  {
    MulMonotone(n / step - lo, k as real, step);
    MulMonotone(k as real, n / step + hi, step);
    assert (n / step - lo) * step == n - lo * step;
    assert (n / step + hi) * step == n + hi * step;
  }

  /** Scaling `k < x + 1` (in units of `step`) back to values. */
  lemma ScaleAbove(n: real, step: real, k: int)
    requires step > 0.0 && k as real < n / step + 1.0
    ensures k as real * step < n + step
  {
    MulStrict(k as real, n / step + 1.0, step);
    assert (n / step + 1.0) * step == n / step * step + step;
    assert n / step * step == n;
  }

  /** Scaling `x - 1 < k` (in units of `step`) back to values. */
  lemma ScaleBelow(n: real, step: real, k: int)
    requires step > 0.0 && n / step - 1.0 < k as real
    ensures n - step < k as real * step
  {
    MulStrict(n / step - 1.0, k as real, step);
    assert (n / step - 1.0) * step == n / step * step - step;
    assert n / step * step == n;
  }

  /** Scaling `x - 1/2 < k < x + 1/2` (in units of `step`) back to values. */
  lemma ScaleStrictHalf(n: real, x: real, step: real, k: real)
    requires step > 0.0 && x * step == n && x - 0.5 < k < x + 0.5
    ensures n - step / 2.0 < k * step < n + step / 2.0
  {
    MulStrict(x - 0.5, k, step);
    assert (x - 0.5) * step < k * step;
    MulStrict(k, x + 0.5, step);
  }

  /** round_up: the least multiple of `step` that is not below `n`. */
  function RoundUp(n: real, step: real): (r: real)
    requires step > 0.0
    ensures n <= r < n + step
  {
    var k := Ceil(n / step);
    ScaleBounds(n, step, k, 0.0, 1.0);
    ScaleAbove(n, step, k);
    k as real * step
  }

  /** round_dn: the greatest multiple of `step` that is not above `n`. */
  function RoundDn(n: real, step: real): (r: real)
    requires step > 0.0
    ensures n - step < r <= n
  {
    var k := (n / step).Floor;
    ScaleBounds(n, step, k, 1.0, 0.0);
    ScaleBelow(n, step, k);
    k as real * step
  }

  /** round_: a nearest multiple of `step`. */
  function Round(n: real, step: real): (r: real)
    requires step > 0.0
    ensures n - step / 2.0 <= r <= n + step / 2.0
  {
    var k := RoundHalfEven(n / step);
    ScaleBounds(n, step, k, 0.5, 0.5);
    k as real * step
  }

  /** round_ off a tie is strictly the nearest multiple of `step`; at a tie
      (n exactly halfway between two multiples) it is the one of the two
      that is an even multiple of `step`. */
  lemma RoundTiesToEven(n: real, step: real)
    requires step > 0.0
    ensures var q := n / step;
            q - q.Floor as real != 0.5 ==> n - step / 2.0 < Round(n, step) < n + step / 2.0
    ensures var q := n / step;
            q - q.Floor as real == 0.5 ==>
              && (Round(n, step) == n - step / 2.0 || Round(n, step) == n + step / 2.0)
              && IsMultiple(Round(n, step), 2.0 * step)
  {
    var q := n / step;
    var k := RoundHalfEven(q);
    RoundIs(n, step);
    var r := Round(n, step);
    assert r == k as real * step;
    if q - q.Floor as real != 0.5 {
      assert q * step == n;
      ScaleStrictHalf(n, q, step, k as real);
    } else {
      var m := k / 2;
      assert k == 2 * m;
      if k as real == q - 0.5 {
        assert r == (q - 0.5) * step == n - step / 2.0;
      } else {
        assert k as real == q + 0.5;
        assert r == (q + 0.5) * step == n + step / 2.0;
      }
      var step2 := 2.0 * step;
      assert r == m as real * step2;
      MultipleOfStep(m, step2);
    }
  }

  /** Each rounder lands on a multiple of `step`. */
  lemma RoundDnMultiple(n: real, step: real)
    requires step > 0.0
    ensures IsMultiple(RoundDn(n, step), step)
  {
    var k := (n / step).Floor;
    RoundDnIs(n, step);
    MultipleOfStep(k, step);
    var r, m := RoundDn(n, step), k as real * step;
    assert r == m && IsMultiple(m, step);
  }

  lemma RoundUpMultiple(n: real, step: real)
    requires step > 0.0
    ensures IsMultiple(RoundUp(n, step), step)
  {
    var k := Ceil(n / step);
    RoundUpIs(n, step);
    MultipleOfStep(k, step);
    var r, m := RoundUp(n, step), k as real * step;
    assert r == m && IsMultiple(m, step);
  }

  lemma RoundMultiple(n: real, step: real)
    requires step > 0.0
    ensures IsMultiple(Round(n, step), step)
  {
    var k := RoundHalfEven(n / step);
    RoundIs(n, step);
    MultipleOfStep(k, step);
    var r, m := Round(n, step), k as real * step;
    assert r == m && IsMultiple(m, step);
  }

  /** A multiple of `step` is the integer it stands for times `step`. */
  lemma MultipleIsIntTimesStep(n: real, step: real)
    requires step > 0.0 && IsMultiple(n, step)
    ensures (n / step).Floor as real * step == n
  {
    assert n / step * step == n;
  }

  /** All three rounders leave an exact multiple of `step` unchanged. */
  lemma {:induction false} RoundersIdempotent(n: real, step: real)
    requires step > 0.0 && IsMultiple(n, step)
    ensures RoundDn(n, step) == n
    ensures RoundUp(n, step) == n
    ensures Round(n, step) == n
  {
    var k := (n / step).Floor;
    MultipleIsIntTimesStep(n, step);
    assert -(n / step) == (-k) as real;
    assert (-(n / step)).Floor == -k;
    assert Ceil(n / step) == k;
    assert RoundHalfEven(n / step) == k;
  }

  lemma FloorMonotone(x: real, y: real)
    requires x <= y
    ensures x.Floor <= y.Floor
  {
  }

  lemma RoundHalfEvenMonotone(x: real, y: real)
    requires x <= y
    ensures RoundHalfEven(x) <= RoundHalfEven(y)
  {
    FloorMonotone(x, y);
  }

  lemma DivMonotone(a: real, b: real, step: real)
    requires step > 0.0 && a <= b
    ensures a / step <= b / step
  {
  }

  /** Rounding is monotone in the value rounded. */
  lemma {:induction false} RoundersMonotone(a: real, b: real, step: real)
    requires step > 0.0 && a <= b
    ensures RoundDn(a, step) <= RoundDn(b, step)
    ensures RoundUp(a, step) <= RoundUp(b, step)
    ensures Round(a, step) <= Round(b, step)
  {
    DivMonotone(a, b, step);
    RoundDnMonotone(a, b, step);
    RoundUpMonotone(a, b, step);
    RoundMonotone(a, b, step);
  }

  lemma RoundDnMonotone(a: real, b: real, step: real)
    requires step > 0.0 && a / step <= b / step
    ensures RoundDn(a, step) <= RoundDn(b, step)
  {
    var ka, kb := (a / step).Floor, (b / step).Floor;
    FloorMonotone(a / step, b / step);
    assert ka <= kb;
    MulMonotone(ka as real, kb as real, step);
    RoundDnIs(a, step);
    RoundDnIs(b, step);
  }

  lemma RoundUpMonotone(a: real, b: real, step: real)
    requires step > 0.0 && a / step <= b / step
    ensures RoundUp(a, step) <= RoundUp(b, step)
  {
    var ka, kb := Ceil(a / step), Ceil(b / step);
    FloorMonotone(-(b / step), -(a / step));
    assert ka <= kb;
    MulMonotone(ka as real, kb as real, step);
    RoundUpIs(a, step);
    RoundUpIs(b, step);
  }

  lemma RoundMonotone(a: real, b: real, step: real)
    requires step > 0.0 && a / step <= b / step
    ensures Round(a, step) <= Round(b, step)
  {
    var ka, kb := RoundHalfEven(a / step), RoundHalfEven(b / step);
    RoundHalfEvenMonotone(a / step, b / step);
    assert ka <= kb;
    MulMonotone(ka as real, kb as real, step);
    RoundIs(a, step);
    RoundIs(b, step);
  }

  lemma RoundDnIs(n: real, step: real)
    requires step > 0.0
    ensures RoundDn(n, step) == (n / step).Floor as real * step
  {
  }

  lemma RoundUpIs(n: real, step: real)
    requires step > 0.0
    ensures RoundUp(n, step) == Ceil(n / step) as real * step
  {
  }

  lemma RoundIs(n: real, step: real)
    requires step > 0.0
    ensures Round(n, step) == RoundHalfEven(n / step) as real * step
  {
  }

  /** round_ of a non-negative value is non-negative. */
  lemma RoundNonNegative(n: real, step: real)
    requires step > 0.0 && n >= 0.0
    ensures Round(n, step) >= 0.0
  {
    RoundersIdempotent(0.0, step) by { MultipleOfStep(0, step); }
    RoundersMonotone(0.0, n, step);
  }

  /** round_ of a non-positive value is non-positive. */
  lemma RoundNonPositive(n: real, step: real)
    requires step > 0.0 && n <= 0.0
    ensures Round(n, step) <= 0.0
  {
    RoundersIdempotent(0.0, step) by { MultipleOfStep(0, step); }
    RoundersMonotone(n, 0.0, step);
  }

  // ---------------------------------------------------------------------------
  // Small helpers

  /** calc_diff: the distance from `x` to `y` relative to `|y|`. */
  function CalcDiff(x: real, y: real): (r: Outcome<real>)
    ensures r.Value? <==> y != 0.0
    ensures r.Value? ==> r.value >= 0.0 && (r.value == 0.0 <==> x == y)
    ensures r.Value? ==> r.value * Abs(y) == Abs(x - y)
  {
    if y == 0.0 then ZeroDivisionError else Value(Abs(x - y) / Abs(y))
  }

  /** A relative distance exceeds a threshold exactly when the absolute
      distance exceeds the threshold scaled by the reference. */
  lemma RelativeDistanceAbove(d: real, distance: real, scale: real, threshold: real)
    requires scale > 0.0 && distance == d * scale
    ensures threshold < d <==> threshold * scale < distance
  {
    if threshold < d {
      MulStrict(threshold, d, scale);
    } else {
      MulMonotone(d, threshold, scale);
    }
  }

  function Abs(x: real): real { if x < 0.0 then -x else x }

  function Min(a: real, b: real): real { if a <= b then a else b }

  function Max(a: real, b: real): real { if a >= b then a else b }

  /** calc_ema: one exponential-moving-average step. */
  function CalcEma(alpha: real, alpha_: real, prevEma: real, newVal: real): (r: real)
    ensures 0.0 <= alpha <= 1.0 && alpha_ == 1.0 - alpha ==>
              Min(prevEma, newVal) <= r <= Max(prevEma, newVal)
    ensures alpha == 1.0 && alpha_ == 0.0 ==> r == newVal
    ensures alpha == 0.0 && alpha_ == 1.0 ==> r == prevEma
  {
    var r := prevEma * alpha_ + newVal * alpha;
    if 0.0 <= alpha <= 1.0 && alpha_ == 1.0 - alpha then
      ConvexStep(alpha, alpha_, prevEma, newVal);
      r
    else r
  }

  lemma ConvexStep(alpha: real, alpha_: real, a: real, b: real)
    requires 0.0 <= alpha <= 1.0 && alpha_ == 1.0 - alpha
    ensures Min(a, b) <= a * alpha_ + b * alpha <= Max(a, b)
  {
    var y := a * alpha_ + b * alpha;
    assert y - a == alpha * (b - a);
    assert b - y == alpha_ * (b - a);
    if a <= b {
      NonNegativeProduct(alpha, b - a);
      NonNegativeProduct(alpha_, b - a);
    } else {
      NonNegativeProduct(alpha, a - b);
      NonNegativeProduct(alpha_, a - b);
      assert alpha * (b - a) == -(alpha * (a - b));
      assert alpha_ * (b - a) == -(alpha_ * (a - b));
    }
  }

  lemma NonNegativeProduct(x: real, y: real)
    requires x >= 0.0 && y >= 0.0
    ensures x * y >= 0.0
  {
  }

  /** A fraction in [0, 1] of a non-negative amount lies between 0 and the amount. */
  lemma FractionOf(alpha: real, x: real)
    requires 0.0 <= alpha <= 1.0 && x >= 0.0
    ensures 0.0 <= alpha * x <= x
  {
  }

  /** calc_initial_long_entry_price: the EMA shifted down by the spread,
      rounded down, but never above the highest bid. */
  function CalcInitialLongEntryPrice(xk: Xk, ema: real, highestBid: real): (r: real)
    requires xk.Valid()
    ensures r <= highestBid
    ensures r <= ema * (1.0 - xk.emaSpread)
    ensures r == highestBid || IsMultiple(r, xk.priceStep)
    ensures r == highestBid || r > ema * (1.0 - xk.emaSpread) - xk.priceStep
  {
    RoundDnMultiple(ema * (1.0 - xk.emaSpread), xk.priceStep);
    Min(highestBid, RoundDn(ema * (1.0 - xk.emaSpread), xk.priceStep))
  }

  /** calc_initial_shrt_entry_price: the EMA shifted up by the spread,
      rounded up, but never below the lowest ask. */
  function CalcInitialShrtEntryPrice(xk: Xk, ema: real, lowestAsk: real): (r: real)
    requires xk.Valid()
    ensures r >= lowestAsk
    ensures r >= ema * (1.0 + xk.emaSpread)
    ensures r == lowestAsk || IsMultiple(r, xk.priceStep)
    ensures r == lowestAsk || r < ema * (1.0 + xk.emaSpread) + xk.priceStep
  {
    RoundUpMultiple(ema * (1.0 + xk.emaSpread), xk.priceStep);
    Max(lowestAsk, RoundUp(ema * (1.0 + xk.emaSpread), xk.priceStep))
  }

  /** The quantity whose cost is `xk.minCost` at `price`: `min_cost * price / c_mult`
      for inverse contracts, `min_cost / price` for linear ones. */
  function MinCostQty(xk: Xk, price: real): Outcome<real>
  {
    if xk.inverse then (if xk.cMult == 0.0 then ZeroDivisionError else Value(xk.minCost * (price / xk.cMult)))
    else (if price == 0.0 then ZeroDivisionError else Value(xk.minCost * (1.0 / price)))
  }

  /** calc_min_entry_qty as written: the min-cost quantity is rounded up to
      slot 1 of `xk`, the PRICE step. */
  function CalcMinEntryQty(xk: Xk, price: real): (r: Outcome<real>)
    requires xk.Valid()
    ensures r.Value? <==> MinCostQty(xk, price).Value?
    ensures r.Value? ==> r.value >= xk.minQty
    ensures r.Value? ==> r.value >= MinCostQty(xk, price).value
    ensures r.Value? ==> r.value == xk.minQty
                         || (IsMultiple(r.value, xk.priceStep)
                             && r.value < MinCostQty(xk, price).value + xk.priceStep)
  {
    match MinCostQty(xk, price)
    case ZeroDivisionError => ZeroDivisionError
    case Value(q) =>
      RoundUpMultiple(q, xk.priceStep);
      Value(Max(xk.minQty, RoundUp(q, xk.priceStep)))
  }

  /** The as-written minimum entry quantity can be a quantity that the
      exchange's quantity step cannot express, and larger than the smallest
      valid one: with qty_step 0.3, price_step 0.5, min_qty 0.001, min_cost 5 and
      price 100 it is 0.5, while 0.3 already meets both minimums. */
  lemma MinEntryQtyUsesPriceStep()
    ensures var xk := Xk(0.3, 0.5, 0.001, 5.0, 1.0, 0.0, false);
            && CalcMinEntryQty(xk, 100.0) == Value(0.5)
            && !IsMultiple(0.5, xk.qtyStep)
            && CalcMinEntryQtyCorrected(xk, 100.0) == Value(0.3)
  {
    var xk := Xk(0.3, 0.5, 0.001, 5.0, 1.0, 0.0, false);
    assert MinCostQty(xk, 100.0) == Value(0.05);
    assert 0.05 / 0.5 == 0.1;
    assert (-0.1).Floor == -1;
    assert Ceil(0.1) == 1;
    assert RoundUp(0.05, 0.5) == 0.5;
    assert 0.5 / 0.3 == 5.0 / 3.0;
    assert (5.0 / 3.0).Floor == 1;
    assert 0.05 / 0.3 == 1.0 / 6.0;
    assert (-(1.0 / 6.0)).Floor == -1;
    assert Ceil(1.0 / 6.0) == 1;
    assert RoundUp(0.05, 0.3) == 0.3;
  }

  /** calc_min_entry_qty with the min-cost quantity rounded up to the
      quantity step, as the Rust engine does: the least quantity that meets
      `min_qty` and, up to the quantity step, `min_cost`. */
  function CalcMinEntryQtyCorrected(xk: Xk, price: real): (r: Outcome<real>)
    requires xk.Valid()
    ensures r.Value? <==> MinCostQty(xk, price).Value?
    ensures r.Value? ==> r.value >= xk.minQty
    ensures r.Value? ==> MinCostQty(xk, price).value <= r.value
    ensures r.Value? ==> r.value == xk.minQty || IsMultiple(r.value, xk.qtyStep)
    ensures r.Value? && r.value != xk.minQty ==>
              r.value < MinCostQty(xk, price).value + xk.qtyStep
  {
    match MinCostQty(xk, price)
    case ZeroDivisionError => ZeroDivisionError
    case Value(q) => RoundUpMultiple(q, xk.qtyStep); Value(Max(xk.minQty, RoundUp(q, xk.qtyStep)))
  }

  // ---------------------------------------------------------------------------
  // Position merge

  /** calc_new_psize_pprice: the position after `qty` fills at `price`; the new
      size is rounded to the quantity step and the new price is the
      size-weighted average.  A new size that rounds to zero divides by zero. */
  function CalcNewPsizePprice(qtyStep: real, psize: real, pprice: real, qty: real, price: real)
    : (r: Outcome<(real, real)>)
    requires qtyStep > 0.0
    ensures qty == 0.0 ==> r == Value((psize, pprice))
    ensures qty != 0.0 ==> (r.ZeroDivisionError? <==> Round(psize + qty, qtyStep) == 0.0)
    ensures qty != 0.0 && r.Value? ==>
              && r.value.0 == Round(psize + qty, qtyStep)
              && r.value.0 * r.value.1 == pprice * psize + price * qty
  {
    if qty == 0.0 then Value((psize, pprice))
    else
      var newPsize := Round(psize + qty, qtyStep);
      if newPsize == 0.0 then ZeroDivisionError
      else
        var newPprice := pprice * (psize / newPsize) + price * (qty / newPsize);
        assert newPsize * newPprice == pprice * psize + price * qty;
        Value((newPsize, newPprice))
  }

  /** When the new size needs no rounding and both legs are long, the new
      price is the size-weighted average and lies between the two prices. */
  lemma {:induction false} MergeIsWeightedAverage(qtyStep: real, psize: real, pprice: real, qty: real, price: real)
    requires qtyStep > 0.0 && psize > 0.0 && qty > 0.0
    requires IsMultiple(psize + qty, qtyStep)
    ensures CalcNewPsizePprice(qtyStep, psize, pprice, qty, price)
              == Value((psize + qty, (pprice * psize + price * qty) / (psize + qty)))
    ensures var p := CalcNewPsizePprice(qtyStep, psize, pprice, qty, price).value.1;
            Min(pprice, price) <= p <= Max(pprice, price)
  {
    RoundersIdempotent(psize + qty, qtyStep);
    var r := CalcNewPsizePprice(qtyStep, psize, pprice, qty, price);
    assert r.value.0 == psize + qty;
    assert r.value.1 == (pprice * psize + price * qty) / (psize + qty);
    var p := r.value.1;
    var lo, hi := Min(pprice, price), Max(pprice, price);
    assert lo * (psize + qty) <= pprice * psize + price * qty;
    assert pprice * psize + price * qty <= hi * (psize + qty);
  }
}
