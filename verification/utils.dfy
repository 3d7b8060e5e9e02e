/** The numeric primitives the Rust engine imports from crate::utils.  That
    module is not part of this model: each primitive is defined here from its
    interface (quantisation, cost/quantity conversion, wallet exposure,
    position merge, two-point interpolation, EMA-anchored price), with the
    rounding and merge semantics of the legacy Python helpers in `Jitted`, and
    the facts the engine relies on are proved about these definitions. */
module Utils {
  import Jitted
  import opened Types

  function Abs(x: real): real { Jitted.Abs(x) }
  function Min(a: real, b: real): real { Jitted.Min(a, b) }
  function Max(a: real, b: real): real { Jitted.Max(a, b) }

  function RoundUp(n: real, step: real): real requires step > 0.0 { Jitted.RoundUp(n, step) }
  function RoundDn(n: real, step: real): real requires step > 0.0 { Jitted.RoundDn(n, step) }
  function Round(n: real, step: real): real requires step > 0.0 { Jitted.Round(n, step) }

  /** cost_to_qty: the quantity whose notional at `price` is `cost`; zero for a
      non-positive price. */
  function CostToQty(cost: real, price: real, cMult: real): (q: real)
    requires cMult > 0.0
    ensures price > 0.0 ==> q * price * cMult == cost
    ensures price <= 0.0 ==> q == 0.0
    ensures cost >= 0.0 ==> q >= 0.0
  {
    if price > 0.0 then
      var q := cost / price / cMult;
      assert q * price * cMult == cost;
      q
    else 0.0
  }

  /** calc_wallet_exposure: position notional over balance; zero without a
      positive balance or without a position. */
  function WalletExposure(cMult: real, balance: real, size: real, price: real): (we: real)
    ensures balance > 0.0 ==> we * balance == Abs(size) * price * cMult
    ensures balance <= 0.0 || size == 0.0 ==> we == 0.0
    ensures price >= 0.0 && cMult >= 0.0 ==> we >= 0.0
  {
    if balance <= 0.0 || size == 0.0 then 0.0
    else
      var we := Abs(size) * price * cMult / balance;
      assert price >= 0.0 && cMult >= 0.0 ==> Abs(size) * price * cMult >= 0.0;
      we
  }

  /** calc_new_psize_pprice: the position after `qty` fills at `price`.  A
      merged size that rounds to zero leaves a flat position. */
  function NewPsizePprice(psize: real, pprice: real, qty: real, price: real, qtyStep: real)
    : (r: (real, real))
    requires qtyStep > 0.0
    ensures qty == 0.0 ==> r == (psize, pprice)
    ensures qty != 0.0 ==> r.0 == Round(psize + qty, qtyStep)
    ensures qty != 0.0 ==> r.0 * r.1 == pprice * psize + price * qty || r == (0.0, 0.0)
  {
    match Jitted.CalcNewPsizePprice(qtyStep, psize, pprice, qty, price)
    case Value(merged) => merged
    case ZeroDivisionError => (0.0, 0.0)
  }

  /** calc_wallet_exposure_if_filled: the wallet exposure of the merged position. */
  function WalletExposureIfFilled(balance: real, psize: real, pprice: real, qty: real, price: real,
                                  ex: ExchangeParams): (we: real)
    requires ex.Valid()
    ensures qty == 0.0 ==> we == WalletExposure(ex.cMult, balance, psize, pprice)
    ensures balance <= 0.0 ==> we == 0.0
    ensures qty != 0.0 && Round(psize + qty, ex.qtyStep) == 0.0 ==> we == 0.0
  {
    var merged := NewPsizePprice(psize, pprice, qty, price, ex.qtyStep);
    WalletExposure(ex.cMult, balance, merged.0, merged.1)
  }

  /** Filling never loses notional: when the merged long position is not
      flat, its exposure is the notional of the position plus the notional of
      the fill, over the balance, whatever the size rounding did. */
  lemma {:induction false} ExposureIfFilledIsCombinedNotional(
    balance: real, psize: real, pprice: real, qty: real, price: real, ex: ExchangeParams)
    requires ex.Valid() && balance > 0.0 && qty != 0.0
    requires Round(psize + qty, ex.qtyStep) > 0.0
    ensures WalletExposureIfFilled(balance, psize, pprice, qty, price, ex) * balance
              == (pprice * psize + price * qty) * ex.cMult
  {
    var merged := NewPsizePprice(psize, pprice, qty, price, ex.qtyStep);
    assert merged.0 > 0.0;
    assert merged.0 * merged.1 == pprice * psize + price * qty;
    var we := WalletExposure(ex.cMult, balance, merged.0, merged.1);
    assert we * balance == merged.0 * merged.1 * ex.cMult;
  }

  /** For a long position, a fill of `qty` at `price` adds its notional,
      `price * qty * cMult`, to the position's notional; a zero fill adds
      nothing. */
  lemma ExposureOfFill(balance: real, psize: real, pprice: real, qty: real, price: real, ex: ExchangeParams)
    requires ex.Valid() && balance > 0.0 && psize > 0.0
    requires qty == 0.0 || Round(psize + qty, ex.qtyStep) > 0.0
    ensures AddsNotional(WalletExposure(ex.cMult, balance, psize, pprice),
                         WalletExposureIfFilled(balance, psize, pprice, qty, price, ex),
                         balance, FillNotional(price, qty, ex.cMult))
  {
    var we := WalletExposure(ex.cMult, balance, psize, pprice);
    assert Abs(psize) == psize;
    assert we * balance == psize * pprice * ex.cMult;
    if qty != 0.0 {
      ExposureIfFilledIsCombinedNotional(balance, psize, pprice, qty, price, ex);
      var held, added := pprice * psize, price * qty;
      assert psize * pprice == held;
      Distributes(held, added, ex.cMult);
      assert FillNotional(price, qty, ex.cMult) == added * ex.cMult;
    }
  }

  /** Going from exposure `weBefore` to `weAfter` on `balance` adds `notional`
      to the position's notional. */
  predicate AddsNotional(weBefore: real, weAfter: real, balance: real, notional: real)
  {
    Notional(weAfter, balance) == Notional(weBefore, balance) + notional
  }

  /** The notional of a fill of `qty` at `price`. */
  function FillNotional(price: real, qty: real, cMult: real): real
  {
    price * qty * cMult
  }

  /** The position notional an exposure stands for on `balance`. */
  function Notional(we: real, balance: real): real
  {
    we * balance
  }

  /** On a non-zero balance the exposure reached by adding a notional is unique. */
  lemma AddsNotionalUnique(weBefore: real, x: real, y: real, balance: real, notional: real)
    requires balance != 0.0
    requires AddsNotional(weBefore, x, balance, notional) && AddsNotional(weBefore, y, balance, notional)
    ensures x == y
  {
    assert (x - y) * balance == 0.0;
  }

  lemma Distributes(a: real, b: real, c: real)
    ensures (a + b) * c == a * c + b * c
  {
  }

  /** interpolate with two points: the `y` at `x` on the line through
      (x0, y0) and (x1, y1), in Lagrange form.  Two equal abscissae (a division
      by zero in floating point) give y0. */
  function Interpolate(x: real, x0: real, x1: real, y0: real, y1: real): (y: real)
    ensures x0 != x1 ==> (y - y0) * (x1 - x0) == (x - x0) * (y1 - y0)
    ensures x == x0 ==> y == y0
    ensures x0 != x1 && x == x1 ==> y == y1
  {
    if x0 == x1 then y0
    else
      var y := y0 * ((x - x1) / (x0 - x1)) + y1 * ((x - x0) / (x1 - x0));
      InterpolateOnLine(x, x0, x1, y0, y1);
      y
  }

  lemma InterpolateOnLine(x: real, x0: real, x1: real, y0: real, y1: real)
    requires x0 != x1
    ensures var y := y0 * ((x - x1) / (x0 - x1)) + y1 * ((x - x0) / (x1 - x0));
            y == y0 + (y1 - y0) * ((x - x0) / (x1 - x0))
  {
    var d := x1 - x0;
    var t := (x - x0) / d;
    var u := (x - x1) / (x0 - x1);
    NegatedQuotient(x - x1, x0 - x1);
    assert u == (x1 - x) / d;
    SumOfQuotients(x1 - x, x - x0, d);
    assert u + t == d / d == 1.0;
    assert y0 * u == y0 * (1.0 - t) == y0 - y0 * t;
  }

  lemma NegatedQuotient(a: real, b: real)
    requires b != 0.0
    ensures a / b == (-a) / (-b)
  {
  }

  lemma SumOfQuotients(a: real, b: real, d: real)
    requires d != 0.0
    ensures a / d + b / d == (a + b) / d
  {
  }

  /** A quotient of a non-negative amount by a larger one is a fraction. */
  lemma FractionQuotient(a: real, b: real)
    requires 0.0 <= a <= b && b > 0.0
    ensures 0.0 <= a / b <= 1.0
  {
    var t := a / b;
    assert t * b == a;
    if t > 1.0 {
      Jitted.MulStrict(1.0, t, b);
    }
  }

  /** Interpolating strictly inside the abscissa interval stays between the
      two ordinates: the increment over y0 is a fraction of y1 - y0. */
  lemma {:induction false} InterpolateWithin(x: real, x0: real, x1: real, y0: real, y1: real)
    requires x0 <= x <= x1 && x0 < x1
    ensures Min(y0, y1) <= Interpolate(x, x0, x1, y0, y1) <= Max(y0, y1)
  {
    var t := (x - x0) / (x1 - x0);
    FractionQuotient(x - x0, x1 - x0);
    InterpolateOnLine(x, x0, x1, y0, y1);
    var y := Interpolate(x, x0, x1, y0, y1);
    assert y == y0 + (y1 - y0) * t;
    if y0 <= y1 {
      Jitted.FractionOf(t, y1 - y0);
      assert (y1 - y0) * t == t * (y1 - y0);
    } else {
      Jitted.FractionOf(t, y0 - y1);
      assert (y1 - y0) * t == -(t * (y0 - y1));
    }
  }

  /** calc_ema_price_bid: the lower EMA band shifted down by `dist`, rounded
      down, but never above the bid (the shape of calc_initial_long_entry_price). */
  function EmaPriceBid(priceStep: real, bid: real, emaLower: real, dist: real): (p: real)
    requires priceStep > 0.0
    ensures p <= bid
    ensures p <= emaLower * (1.0 - dist)
    ensures p == bid || Jitted.IsMultiple(p, priceStep)
    ensures p == bid || p > emaLower * (1.0 - dist) - priceStep
  {
    Jitted.RoundDnMultiple(emaLower * (1.0 - dist), priceStep);
    Min(bid, RoundDn(emaLower * (1.0 - dist), priceStep))
  }

  /** calc_ema_price_ask: the upper EMA band shifted up by `dist`, rounded up,
      but never below the ask. */
  function EmaPriceAsk(priceStep: real, ask: real, emaUpper: real, dist: real): (p: real)
    requires priceStep > 0.0
    ensures p >= ask
    ensures p >= emaUpper * (1.0 + dist)
    ensures p == ask || Jitted.IsMultiple(p, priceStep)
    ensures p == ask || p < emaUpper * (1.0 + dist) + priceStep
  {
    Jitted.RoundUpMultiple(emaUpper * (1.0 + dist), priceStep);
    Max(ask, RoundUp(emaUpper * (1.0 + dist), priceStep))
  }
}
