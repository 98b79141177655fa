/** The servo that drives the lock (ucontroller_code.py, lines 135-145 and 158-163):
    a target angle becomes a PWM duty value by linear interpolation over the calibration
    constants, truncated to an integer. */
module LockActuator {

  const AngleMin: int := 0
  const AngleMax: int := 270
  const DutyMin: int := 2000
  const DutyMax: int := 7500
  const AngleRange: int := AngleMax - AngleMin
  const DutyRange: int := DutyMax - DutyMin

  /** Python's `int()` applied to the exact quotient `n / d`: rounds toward zero. */
  function Truncate(n: int, d: int): (q: int)
    requires d > 0
    ensures n >= 0 ==> 0 <= n - q * d < d
    ensures n < 0 ==> -d < n - q * d <= 0
    ensures n >= 0 ==> q >= 0
    ensures n < 0 ==> q <= 0
  {
    if n >= 0 then n / d else -((-n) / d)
  }

  /** `duty_target` of `servo_lock(angle)`:
      `int((angle - angle_min) / angle_range * duty_range + duty_min)`, with the quotient
      taken exactly. The whole expression is one fraction over `angle_range`, so its
      truncation is `Truncate` of that fraction's numerator. */
  function Duty(angle: int): (duty: int)
    ensures var exact := (angle - AngleMin) * DutyRange + DutyMin * AngleRange;
      && (exact >= 0 ==> duty * AngleRange <= exact < (duty + 1) * AngleRange)
      && (exact < 0 ==> (duty - 1) * AngleRange < exact <= duty * AngleRange)
  {
    Truncate((angle - AngleMin) * DutyRange + DutyMin * AngleRange, AngleRange)
  }

  /** Over the calibrated range the duty is the floor of the interpolated value and so
      lies between the calibration endpoints. */
  lemma DutyInRange(angle: int)
    requires AngleMin <= angle <= AngleMax
    ensures DutyMin <= Duty(angle) <= DutyMax
    ensures (Duty(angle) - DutyMin) * AngleRange <= (angle - AngleMin) * DutyRange
    ensures (angle - AngleMin) * DutyRange < (Duty(angle) - DutyMin + 1) * AngleRange
  {
    var n := (angle - AngleMin) * DutyRange + DutyMin * AngleRange;
    assert n >= 0;
    var q := Duty(angle);
    assert 0 <= n - q * AngleRange < AngleRange;
    assert (angle - AngleMin) * DutyRange <= AngleRange * DutyRange;
  }

  /** A positive multiple of a positive number is at least that number. */
  lemma {:induction false} MultipleAtLeast(k: int, d: int)
    requires k >= 1 && d > 0
    ensures k * d >= d
    decreases k
  {
    if k > 1 {
      MultipleAtLeast(k - 1, d);
      assert k * d == (k - 1) * d + d;
    }
  }

  /** Comparing multiples of a positive number compares the multipliers. */
  lemma MultipleBelow(x: int, y: int, d: int)
    requires d > 0 && x * d < y * d + d
    ensures x <= y
  {
    if x > y {
      MultipleAtLeast(x - y, d);
    }
  }

  /** Truncation toward zero never reverses the order of two numerators. */
  lemma TruncateMonotone(m: int, n: int, d: int)
    requires d > 0 && m <= n
    ensures Truncate(m, d) <= Truncate(n, d)
  {
    if m >= 0 || n < 0 {
      SameSignMonotone(m, n, d);
    } else {
      assert Truncate(m, d) <= 0 <= Truncate(n, d);
    }
  }

  /** Monotonicity when both numerators have the same sign, from the bounds of `Truncate`. */
  lemma SameSignMonotone(m: int, n: int, d: int)
    requires d > 0 && m <= n && (m >= 0 || n < 0)
    ensures Truncate(m, d) <= Truncate(n, d)
  {
    var qm := Truncate(m, d);
    var qn := Truncate(n, d);
    var pm := qm * d;
    var pn := qn * d;
    assert pm < pn + d;
    MultipleBelow(qm, qn, d);
  }

  /** A larger angle never gives a smaller duty. */
  lemma DutyMonotone(a: int, b: int)
    requires a <= b
    ensures Duty(a) <= Duty(b)
  {
    assert (a - AngleMin) * DutyRange <= (b - AngleMin) * DutyRange;
    TruncateMonotone((a - AngleMin) * DutyRange + DutyMin * AngleRange,
                     (b - AngleMin) * DutyRange + DutyMin * AngleRange, AngleRange);
  }

  /** The duties of the calibration endpoints, the midpoint, and the two unlock angles. */
  lemma DutyValues()
    ensures Duty(0) == 2000
    ensures Duty(110) == 4240
    ensures Duty(135) == 4750
    ensures Duty(270) == 7500
  {
  }
}
