/** Percentages as exact rationals: an idealisation of the widgets' `Double` arithmetic. */
module Ratios {

  /** `(part / whole) * 100` */
  function Percentage(part: int, whole: int): real
    requires whole > 0
  {
    part as real / whole as real * 100.0
  }

  /** A proper part of the whole is at least 0 and below 100 percent. */
  lemma PercentageBounds(part: int, whole: int)
    requires 0 <= part < whole
    ensures 0.0 <= Percentage(part, whole) < 100.0
  {
    var q := part as real / whole as real;
    assert q * whole as real == part as real;
  }

  /** A larger part is a larger percentage. */
  lemma PercentageStrictlyMonotone(a: int, b: int, whole: int)
    requires whole > 0 && a < b
    ensures Percentage(a, whole) < Percentage(b, whole)
  {
    var qa := a as real / whole as real;
    var qb := b as real / whole as real;
    assert qa * whole as real == a as real;
    assert qb * whole as real == b as real;
  }

  lemma PercentageMonotone(a: int, b: int, whole: int)
    requires whole > 0 && a <= b
    ensures Percentage(a, whole) <= Percentage(b, whole)
  {
    if a < b {
      PercentageStrictlyMonotone(a, b, whole);
    }
  }

  /** The rest of the whole is the rest of 100 percent. */
  lemma PercentageComplement(part: int, whole: int)
    requires whole > 0
    ensures Percentage(whole - part, whole) == 100.0 - Percentage(part, whole)
  {
    var w := whole as real;
    var p := part as real;
    assert w != 0.0;
    calc {
      (whole - part) as real / w;
      (w - p) / w;
      w / w - p / w;
      1.0 - p / w;
    }
  }
}
