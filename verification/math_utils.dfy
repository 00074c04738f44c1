/**
 * `clamp(value = 0)`: keeps a value between 0 and 1, as
 * `Math.max(0, Math.min(value, 1)) || 0`. Numbers are reals, so there is no
 * `NaN` and no `-0`; the trailing `|| 0` then only maps 0 to 0.
 */
module MathUtils {
  import opened Basics

  function MinReal(a: real, b: real): real {
    if a <= b then a else b
  }

  function MaxReal(a: real, b: real): real {
    if a >= b then a else b
  }

  /** `clamp(value)`; `None` is a call without an argument. */
  function Clamp(value: Option<real>): (r: real)
    ensures 0.0 <= r <= 1.0
    ensures value.None? ==> r == 0.0
    ensures value.Some? && 0.0 <= value.value <= 1.0 ==> r == value.value
    ensures value.Some? && value.value < 0.0 ==> r == 0.0
    ensures value.Some? && value.value > 1.0 ==> r == 1.0
  {
    var v := value.GetOr(0.0);
    var m := MaxReal(0.0, MinReal(v, 1.0));
    if m == 0.0 then 0.0 else m
  }

  /** Clamping a clamped value changes nothing. */
  lemma ClampIdempotent(value: Option<real>)
    ensures Clamp(Some(Clamp(value))) == Clamp(value)
  {
  }

  /** Clamp never reverses the order of two values. */
  lemma ClampMonotone(a: real, b: real)
    requires a <= b
    ensures Clamp(Some(a)) <= Clamp(Some(b))
  {
  }
}
