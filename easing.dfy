/** The easing curve of the animation scheduler (globe.js `ease`). */
module Easing {

  /** Cubic ease-in up to the midpoint, cubic ease-out after it. */
  function Ease(t: real): real
  {
    if t <= 0.5 then 4.0 * t * t * t else 1.0 - 4.0 * (1.0 - t) * (1.0 - t) * (1.0 - t)
  }

  /** The curve starts at 0, passes the midpoint at 1/2, ends at 1, and its two branches meet at 1/2. */
  lemma EaseFixedPoints()
    ensures Ease(0.0) == 0.0 && Ease(0.5) == 0.5 && Ease(1.0) == 1.0
    ensures 1.0 - 4.0 * (1.0 - 0.5) * (1.0 - 0.5) * (1.0 - 0.5) == Ease(0.5)
  {
  }

  lemma CubeMonotone(a: real, b: real)
    requires 0.0 <= a <= b
    ensures a * a * a <= b * b * b
  {
    assert b * b * b - a * a * a == (b - a) * (b * b + a * b + a * a);
    assert b * b + a * b + a * a >= 0.0;
  }

  /** Every progress value in [0, 1] is eased into [0, 1]; the ease-in half stays below 1/2 and the ease-out half above. */
  lemma EaseStaysInUnitInterval(t: real)
    requires 0.0 <= t <= 1.0
    ensures 0.0 <= Ease(t) <= 1.0
    ensures t <= 0.5 ==> Ease(t) <= 0.5
    ensures t > 0.5 ==> Ease(t) >= 0.5
  {
    if t <= 0.5 {
      CubeMonotone(0.0, t);
      CubeMonotone(t, 0.5);
    } else {
      CubeMonotone(0.0, 1.0 - t);
      CubeMonotone(1.0 - t, 0.5);
    }
  }

  /** The curve never goes backwards on [0, 1]. */
  lemma EaseMonotone(x: real, y: real)
    requires 0.0 <= x <= y <= 1.0
    ensures Ease(x) <= Ease(y)
  {
    if y <= 0.5 {
      CubeMonotone(x, y);
    } else if x > 0.5 {
      CubeMonotone(1.0 - y, 1.0 - x);
    } else {
      EaseStaysInUnitInterval(x);
      EaseStaysInUnitInterval(y);
    }
  }
}
