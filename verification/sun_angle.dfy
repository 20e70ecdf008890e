/** The sun-angle helper: maps a time of day to the simulator's sun angle,
    -80 at 08:00 and 80 at 18:00, with 13:00 as the zero point. */
module SunAngle {

  /** Minutes past midnight at which the angle is zero (13:00). */
  const NoonOffset: int := 780

  /** Integer division truncating toward zero, as Python's int() does to a float quotient. */
  function TruncDiv(a: int, b: int): int
    requires b > 0
  {
    if a >= 0 then a / b else -((-a) / b)
  }

  /** Offset in minutes from the zero point. */
  function OffsetMinutes(hours: int, minutes: int): int {
    hours * 60 + minutes - NoonOffset
  }

  /** Angle for an offset t of minutes from 13:00: 8 * (t / 30) truncated, that is 4t/15 truncated. */
  function AngleOfOffset(t: int): (r: int)
    ensures t >= 0 ==> 0 <= r && 15 * r <= 4 * t < 15 * (r + 1)
    ensures t < 0 ==> r <= 0 && 15 * (r - 1) < 4 * t <= 15 * r
  {
    TruncDiv(4 * t, 15)
  }

  /** The angle printed for hours:minutes. */
  function Angle(hours: int, minutes: int): (r: int)
    ensures var t := OffsetMinutes(hours, minutes);
      (t >= 0 ==> 15 * r <= 4 * t < 15 * (r + 1)) && (t < 0 ==> 15 * (r - 1) < 4 * t <= 15 * r)
  {
    AngleOfOffset(OffsetMinutes(hours, minutes))
  }

  /** Python's int() on a float: truncation toward zero. */
  function TruncReal(x: real): int {
    if x >= 0.0 then x.Floor else -((-x).Floor)
  }

  /** The source's formula int((t / 30) * 8), evaluated over exact reals. */
  function AngleOfOffsetReal(t: int): int {
    TruncReal((t as real / 30.0) * 8.0)
  }

  /** The integer model agrees with the real-valued formula for every offset. */
  lemma IntegerMatchesReal(t: int)
    ensures AngleOfOffset(t) == AngleOfOffsetReal(t)
  {
    var x := (t as real / 30.0) * 8.0;
    assert x == (4 * t) as real / 15.0;
    var q := AngleOfOffset(t);
    if t >= 0 {
      assert q as real <= x < q as real + 1.0;
      assert x.Floor == q;
    } else {
      assert -(q as real) <= -x < -(q as real) + 1.0;
      assert (-x).Floor == -q;
    }
  }

  lemma ReferenceTimes()
    ensures Angle(8, 0) == -80
    ensures Angle(16, 30) == 56
    ensures Angle(18, 0) == 80
    ensures Angle(13, 0) == 0
  {
  }

  /** Exactly representable case: a multiple of 15 minutes gives 4/15 of it exactly. */
  lemma QuarterHourExact(t: int)
    requires t % 15 == 0
    ensures AngleOfOffset(t) * 15 == 4 * t
  {
  }

  /** The angle never decreases as the clock moves forward. */
  lemma Monotonic(t1: int, t2: int)
    requires t1 <= t2
    ensures AngleOfOffset(t1) <= AngleOfOffset(t2)
  {
  }

  /** Every time of day between 08:00 and 18:00 gives an angle in [-80, 80]. */
  lemma WorkingDayRange(hours: int, minutes: int)
    requires 8 * 60 <= hours * 60 + minutes <= 18 * 60
    ensures -80 <= Angle(hours, minutes) <= 80
  {
    Monotonic(OffsetMinutes(8, 0), OffsetMinutes(hours, minutes));
    Monotonic(OffsetMinutes(hours, minutes), OffsetMinutes(18, 0));
  }
}
