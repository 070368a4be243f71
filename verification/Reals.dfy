/** Arithmetic on reals that several components share. */
module Reals {
  function Abs(x: real): real {
    if x < 0.0 then -x else x
  }

  function Max(x: real, y: real): real {
    if x < y then y else x
  }

  /** Python's int() of a float: towards zero. */
  function Truncate(x: real): int { if x >= 0.0 then x.Floor else -(-x).Floor }

  /** t of the way from a to b. */
  function Mix(a: real, b: real, t: real): real { a + (b - a) * t }

  lemma MixStaysBetween(a: real, b: real, t: real)
    requires 0.0 <= t <= 1.0
    ensures a <= b ==> a <= Mix(a, b, t) <= b
    ensures b <= a ==> b <= Mix(a, b, t) <= a
  {
    if a <= b {
      RisingMix(a, b, t);
    } else {
      RisingMix(b, a, 1.0 - t);
      MixBackwards(a, b, t);
    }
  }

  lemma RisingMix(a: real, b: real, t: real)
    requires 0.0 <= t <= 1.0 && a <= b
    ensures a <= Mix(a, b, t) <= b
  {
    var d := b - a;
    assert d * t >= 0.0;
    assert d * (1.0 - t) >= 0.0;
  }

  lemma MixBackwards(a: real, b: real, t: real)
    ensures Mix(a, b, t) == Mix(b, a, 1.0 - t)
  {}

  lemma Grow(x: real, y: real, z: real)
    requires x <= y && z >= 0.0
    ensures x * z <= y * z
  {
    assert (y - x) * z >= 0.0;
  }
}
