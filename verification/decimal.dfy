/** Exact decimal arithmetic in the style of java.math.BigDecimal.

    A BigDecimal is an exact rational with a finite decimal expansion, so it is
    modelled as a `real`. Addition, subtraction, multiplication and `pow` of
    BigDecimals are exact and are modelled by the same operations on `real`.
    The only lossy operations the calculator uses are `setScale(k, HALF_UP)` and
    `divide(d, k, HALF_UP)`, and both are `RoundHalfUp(x, k)`. */
module Decimal {

  /** The two scales the calculator rounds to: 2 fractional digits for currency
      amounts and 15 (DECIMAL_PRECISION) for the monthly rate. */
  type Scale = k: nat | k == 2 || k == 15 witness 2

  /** x measured in the smallest unit of the scale (x * 10^scale). */
  function Units(x: real, scale: Scale): real {
    if scale == 2 then x * 100.0 else x * 1_000_000_000_000_000.0
  }

  /** The amount that is `u` smallest units of the scale (u / 10^scale). */
  function FromUnits(u: real, scale: Scale): (x: real)
    ensures Units(x, scale) == u
  {
    if scale == 2 then u / 100.0 else u / 1_000_000_000_000_000.0
  }

  /** x has at most `scale` fractional decimal digits. */
  predicate HasScale(x: real, scale: Scale) {
    Units(x, scale).Floor as real == Units(x, scale)
  }

  /** Rounding to `scale` fractional digits with RoundingMode.HALF_UP: to the
      nearest multiple of 10^-scale, a tie going away from zero. The three
      clauses determine the result uniquely. */
  function RoundHalfUp(x: real, scale: Scale): (r: real)
    ensures HasScale(r, scale)
    ensures x >= 0.0 ==> -0.5 < Units(r, scale) - Units(x, scale) <= 0.5
    ensures x < 0.0 ==> -0.5 <= Units(r, scale) - Units(x, scale) < 0.5
  {
    var u := Units(x, scale);
    var f := if x >= 0.0 then (u + 0.5).Floor else -((-u + 0.5).Floor);
    assert x >= 0.0 <==> u >= 0.0;
    FromUnits(f as real, scale)
  }

  /** Rounding half-up is monotone: it never reverses the order of two amounts. */
  lemma RoundMonotone(x: real, y: real, scale: Scale)
    requires x <= y
    ensures RoundHalfUp(x, scale) <= RoundHalfUp(y, scale)
  {
    var rx, ry := RoundHalfUp(x, scale), RoundHalfUp(y, scale);
    var ux, uy, urx, ury := Units(x, scale), Units(y, scale), Units(rx, scale), Units(ry, scale);
    var a, b := urx.Floor, ury.Floor;
    assert ux <= uy;
    assert a as real <= ux + 0.5;
    if y >= 0.0 {
      assert uy - 0.5 < b as real;
    } else {
      assert a as real < ux + 0.5;
    }
    assert a <= b;
    assert urx <= ury;
  }

  /** An amount that already has the target scale is left unchanged by rounding. */
  lemma RoundOfScaled(x: real, scale: Scale)
    requires HasScale(x, scale)
    ensures RoundHalfUp(x, scale) == x
  {
    var r := RoundHalfUp(x, scale);
    assert Units(r, scale).Floor == Units(x, scale).Floor;
  }

  /** Zero rounds to zero at every scale. */
  lemma RoundZero(scale: Scale)
    ensures RoundHalfUp(0.0, scale) == 0.0
  {
    RoundOfScaled(0.0, scale);
  }

  /** Rounding never turns a non-negative amount negative. */
  lemma RoundNonNegative(x: real, scale: Scale)
    ensures x >= 0.0 ==> RoundHalfUp(x, scale) >= 0.0
  {
    if x >= 0.0 {
      RoundZero(scale);
      RoundMonotone(0.0, x, scale);
    }
  }

  /** Sums and differences of amounts of a scale keep that scale. */
  lemma ScaledAddSub(x: real, y: real, scale: Scale)
    requires HasScale(x, scale) && HasScale(y, scale)
    ensures HasScale(x + y, scale) && HasScale(x - y, scale)
  {
    var a, b := Units(x, scale).Floor, Units(y, scale).Floor;
    assert Units(x + y, scale) == (a + b) as real;
    assert Units(x - y, scale) == (a - b) as real;
  }

  /** x ** n with an exact result, as BigDecimal.pow(n) without a MathContext. */
  function Pow(x: real, n: nat): (p: real)
    ensures x >= 1.0 ==> p >= 1.0
    ensures x > 1.0 && n >= 1 ==> p > 1.0
  {
    if n == 0 then 1.0 else x * Pow(x, n - 1)
  }
}
