/**
 * The countdown to the seminar: the time left until the start, split
 * into whole days, hours, minutes and seconds. Times are integer
 * milliseconds; the clock and the one-second interval are parameters of
 * the caller.
 */
module CountdownTimer {
  const SecondMs := 1000
  const MinuteMs := 60 * SecondMs
  const HourMs := 60 * MinuteMs
  const DayMs := 24 * HourMs

  datatype TimeLeft = TimeLeft(days: int, hours: int, minutes: int, seconds: int)

  /** The milliseconds a TimeLeft stands for. */
  function Milliseconds(t: TimeLeft): int {
    t.days * DayMs + t.hours * HourMs + t.minutes * MinuteMs + t.seconds * SecondMs
  }

  /**
   * `calculateTimeLeft` for `difference` = target − now: the fields shown,
   * and whether the completion flag is set. The source's `Math.floor` of
   * a positive quotient and its `%` of positive operands agree with
   * Dafny's `/` and `%`.
   */
  function CalculateTimeLeft(difference: int): (r: (TimeLeft, bool))
    ensures r.1 <==> difference <= 0
    ensures r.1 ==> r.0 == TimeLeft(0, 0, 0, 0)
    ensures !r.1 ==> r.0.days == difference / DayMs
    ensures 0 <= r.0.days && 0 <= r.0.hours < 24 && 0 <= r.0.minutes < 60 && 0 <= r.0.seconds < 60
  {
    if difference <= 0 then
      (TimeLeft(0, 0, 0, 0), true)
    else
      (TimeLeft(
        difference / DayMs,
        (difference % DayMs) / HourMs,
        (difference % HourMs) / MinuteMs,
        (difference % MinuteMs) / SecondMs), false)
  }

  /**
   * The four fields lose nothing but the milliseconds: what they stand
   * for is at most the difference and less than a second short of it.
   */
  lemma TimeLeftSandwich(difference: int)
    requires difference > 0
    ensures var total := Milliseconds(CalculateTimeLeft(difference).0);
      total <= difference < total + SecondMs
  {
    var d := difference;
    var days, r1 := d / DayMs, d % DayMs;
    assert d == days * DayMs + r1;
    ModOfMultiple(d, 24, HourMs);
    ModOfMultiple(d, 60, MinuteMs);
    ModOfMultiple(d, 60, SecondMs);
    assert r1 == (r1 / HourMs) * HourMs + d % HourMs;
    assert d % HourMs == ((d % HourMs) / MinuteMs) * MinuteMs + d % MinuteMs;
    assert d % MinuteMs == ((d % MinuteMs) / SecondMs) * SecondMs + d % SecondMs;
  }

  /** Taking the remainder by a multiple of `b` first does not change the remainder by `b`. */
  lemma ModOfMultiple(d: int, k: int, b: int)
    requires d >= 0 && k > 0 && b > 0
    ensures (d % (k * b)) % b == d % b
  {
    var q, r := d / (k * b), d % (k * b);
    assert d == q * (k * b) + r;
    var s, t := r / b, r % b;
    assert r == s * b + t;
    assert d == (q * k + s) * b + t;
    DivModUnique(d, b, q * k + s, t);
  }

  /** The quotient and remainder by a positive divisor are the only ones with the remainder in range. */
  lemma DivModUnique(d: int, b: int, q: int, t: int)
    requires b > 0 && 0 <= t < b && d == q * b + t
    ensures d % b == t
  {
    var q', t' := d / b, d % b;
    assert d == q' * b + t';
    if q > q' {
      MultipleAtLeast(q - q', b);
    } else if q < q' {
      MultipleAtLeast(q' - q, b);
    }
  }

  lemma {:induction false} MultipleAtLeast(x: int, b: int)
    requires x >= 1 && b > 0
    ensures x * b >= b
    decreases x
  {
    if x > 1 {
      MultipleAtLeast(x - 1, b);
      assert x * b == (x - 1) * b + b;
    }
  }
}
