/** The few facts about products of reals that the score needs. Each takes the product as an
    argument of its own, so that what it concludes is linear. */
module Reals {
  function Times(x: real, f: real): real {
    x * f
  }

  lemma TimesNonNegative(x: real, y: real, p: real)
    requires x >= 0.0 && y >= 0.0 && p == x * y
    ensures p >= 0.0
    ensures x > 0.0 && y > 0.0 ==> p > 0.0
  {
  }

  /** A factor between 0 and 1 shrinks what it multiplies. */
  lemma TimesShrinks(x: real, f: real)
    requires 0.0 <= x && 0.0 < f < 1.0
    ensures 0.0 <= Times(x, f) <= x
    ensures x > 0.0 ==> 0.0 < Times(x, f) < x
  {
    var p, q := x * f, x * (1.0 - f);
    TimesNonNegative(x, f, p);
    TimesNonNegative(x, 1.0 - f, q);
    assert q == x - p;
  }

  lemma TimesMonotone(x: real, y: real, f: real)
    requires x <= y && 0.0 <= f
    ensures Times(x, f) <= Times(y, f)
  {
    var q := (y - x) * f;
    TimesNonNegative(y - x, f, q);
    assert q == y * f - x * f;
  }

  lemma TimesCommutes(x: real, f: real, g: real)
    ensures Times(Times(x, f), g) == Times(Times(x, g), f)
  {
  }

  function Power(x: real, n: nat): real {
    if n == 0 then 1.0 else x * Power(x, n - 1)
  }

  lemma ProductAssoc(x: real, y: real, z: real)
    ensures (x * y) * z == x * (y * z)
  {
  }
}
