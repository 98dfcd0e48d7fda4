/**
 * The divisions the dashboard performs. The essential-services ratio divides
 * without a guard, so a zero population gives an infinite or undefined float;
 * the other ratios return 0 when the divisor is 0. Values are exact reals,
 * before any rounding.
 */
module Ratios {

  /** A float quotient: a number, or the infinity or NaN that dividing by zero produces. */
  datatype Quotient = Finite(value: real) | NonFinite

  /** `num / den` with no guard. */
  function Divide(num: nat, den: nat): (q: Quotient)
    ensures q.Finite? <==> den > 0
    ensures q.Finite? ==> q.value * (den as real) == num as real
    ensures q.Finite? ==> 0.0 <= q.value
  {
    if den > 0 then Finite(num as real / den as real) else NonFinite
  }

  /** `part / whole if whole > 0 else 0`. */
  function Share(part: nat, whole: nat): (r: real)
    ensures whole > 0 ==> r * (whole as real) == part as real
    ensures whole == 0 ==> r == 0.0
    ensures 0.0 <= r
    ensures part <= whole ==> r <= 1.0
  {
    if whole > 0 then part as real / whole as real else 0.0
  }

  /** `(part / whole) * 100 if whole > 0 else 0`. */
  function Percent(part: nat, whole: nat): (r: real)
    ensures whole > 0 ==> r * (whole as real) == 100.0 * (part as real)
    ensures whole == 0 ==> r == 0.0
    ensures 0.0 <= r
    ensures part <= whole ==> r <= 100.0
  {
    if whole > 0 then (part as real / whole as real) * 100.0 else 0.0
  }

  /** Two shares of the same whole that make it up add to 1; with nothing to share both are 0. */
  lemma SharesComplement(a: nat, b: nat)
    ensures a + b > 0 ==> Share(a, a + b) + Share(b, a + b) == 1.0
    ensures a + b == 0 ==> Share(a, a + b) == 0.0 && Share(b, a + b) == 0.0
  {
    if a + b > 0 {
      PartsOfWhole(Share(a, a + b), Share(b, a + b), a as real, b as real, (a + b) as real);
    }
  }

  /** Two ratios of one positive whole whose parts make up the whole add to 1. */
  lemma PartsOfWhole(x: real, y: real, p: real, q: real, t: real)
    requires t > 0.0 && x * t == p && y * t == q && p + q == t
    ensures x + y == 1.0
  {
    assert (x + y - 1.0) * t == 0.0;
  }

  /** Percentages of one whole add up like their parts. */
  lemma PercentAdditive(a: nat, b: nat, whole: nat)
    ensures Percent(a, whole) + Percent(b, whole) == Percent(a + b, whole)
  {
    if whole > 0 {
      var w := whole as real;
      var x, y, z := Percent(a, whole), Percent(b, whole), Percent(a + b, whole);
      assert x * w == 100.0 * (a as real) && y * w == 100.0 * (b as real);
      assert z * w == 100.0 * (a as real) + 100.0 * (b as real);
      assert (x + y - z) * w == x * w + y * w - z * w;
      assert (x + y - z) * w == 0.0;
    }
  }

  /** A larger part never gives a smaller percentage of the same whole. */
  lemma PercentMonotone(a: nat, b: nat, whole: nat)
    requires a <= b
    ensures Percent(a, whole) <= Percent(b, whole)
  {
    if whole > 0 {
      var w := whole as real;
      var d := Percent(b, whole) - Percent(a, whole);
      assert d * w == 100.0 * ((b - a) as real);
    }
  }

  /** A part smaller than its whole is less than 100 percent of it. */
  lemma PercentBelowWhole(part: nat, whole: nat)
    requires part < whole
    ensures Percent(part, whole) < 100.0
  {
    var w := whole as real;
    assert (100.0 - Percent(part, whole)) * w == 100.0 * ((whole - part) as real);
  }
}
