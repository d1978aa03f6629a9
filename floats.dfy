/**
  The outcome of a float division on a pandas column.  pandas never raises on a
  zero divisor: it yields a signed infinity, or NaN for 0 / 0.  Reals stand in for
  doubles; the sign of a floating-point zero is not modelled.
 */
module Floats {
  datatype Quotient = Value(v: real) | Inf(positive: bool) | NaN

  /** n / d with IEEE semantics on a zero divisor. */
  function Ratio(n: real, d: real): (q: Quotient)
    ensures q.Value? <==> d != 0.0
    ensures q.Value? ==> q.v * d == n
    ensures q.NaN? <==> d == 0.0 && n == 0.0
    ensures q.Inf? ==> q.positive == (n > 0.0)
  {
    if d != 0.0 then Value(n / d)
    else if n == 0.0 then NaN
    else Inf(n > 0.0)
  }

  /** Dividing by a quantity expressed in larger units scales the quotient. */
  lemma {:induction false} RatioScaled(n: real, p: real, scale: real)
    requires scale > 0.0
    ensures p != 0.0 ==> Ratio(n, p / scale) == Value(n * scale / p)
  {
    if p == 0.0 { return; }
    var d := p / scale;
    assert d * scale == p;
    assert d != 0.0;
    calc {
      n / d;
      (n * scale) / (d * scale);
      n * scale / p;
    }
  }

  /** `q > c` as a pandas mask evaluates it: NaN compares false. */
  predicate Greater(q: Quotient, c: real)
  {
    match q
    case Value(v) => v > c
    case Inf(positive) => positive
    case NaN => false
  }

  /** `q < c` as a pandas mask evaluates it: NaN compares false. */
  predicate Less(q: Quotient, c: real)
  {
    match q
    case Value(v) => v < c
    case Inf(positive) => !positive
    case NaN => false
  }
}
