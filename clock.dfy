/** What `TimeOnly` and `TimeOfDay` share: the constants of the 24-hour dial,
    the reduction of any second count onto it, the `ArgumentError` their
    constructors raise, and the arithmetic that splits a second count into
    hours, minutes and seconds. */
module Clock {
  import opened Decimal

  const SECONDS_PER_MIN: int := 60
  const SECONDS_PER_HOUR: int := 60 * SECONDS_PER_MIN
  const SECONDS_PER_DAY: int := 24 * SECONDS_PER_HOUR

  /** A second of the day: the only values a time of day ever stores. */
  type Seconds = s: int | 0 <= s < SECONDS_PER_DAY

  /** Ruby's `ArgumentError`, with its message. */
  datatype ArgumentError = ArgumentError(message: string)

  /** The outcome of a constructor call: the new time, or the error it raised. */
  datatype Result<T> = Ok(value: T) | Err(error: ArgumentError)

  /** `mod_by_day`: Ruby's `%`, which floors, so the result takes the sign of
      the divisor; it is the one second of the day congruent to `seconds`. */
  function ModByDay(seconds: int): (r: Seconds)
    ensures (seconds - r) % SECONDS_PER_DAY == 0
  {
    seconds % SECONDS_PER_DAY
  }

  /** The reduction is the unique representative: any second of the day
      congruent to `seconds` is the one `ModByDay` picks. */
  lemma ModByDayUnique(seconds: int, r: int)
    requires 0 <= r < SECONDS_PER_DAY
    requires (seconds - r) % SECONDS_PER_DAY == 0
    ensures ModByDay(seconds) == r
  {
    var k := (seconds - r) / SECONDS_PER_DAY;
    assert seconds == k * SECONDS_PER_DAY + r;
  }

  /** Within one day of the dial the reduction adds or removes at most one day. */
  lemma ModByDayNear(seconds: int)
    ensures 0 <= seconds < SECONDS_PER_DAY ==> ModByDay(seconds) == seconds
    ensures SECONDS_PER_DAY <= seconds < 2 * SECONDS_PER_DAY ==>
      ModByDay(seconds) == seconds - SECONDS_PER_DAY
    ensures -SECONDS_PER_DAY <= seconds < 0 ==> ModByDay(seconds) == seconds + SECONDS_PER_DAY
  {
    if 0 <= seconds < SECONDS_PER_DAY {
      ModByDayUnique(seconds, seconds);
    } else if SECONDS_PER_DAY <= seconds < 2 * SECONDS_PER_DAY {
      ModByDayUnique(seconds, seconds - SECONDS_PER_DAY);
    } else if -SECONDS_PER_DAY <= seconds < 0 {
      ModByDayUnique(seconds, seconds + SECONDS_PER_DAY);
    }
  }

  /** Shifting by whole days does not change the reduction. */
  lemma ModByDayPeriodic(seconds: int, days: int)
    ensures ModByDay(seconds + days * SECONDS_PER_DAY) == ModByDay(seconds)
  {
    var r := ModByDay(seconds);
    assert (seconds + days * SECONDS_PER_DAY - r) == (seconds - r) + days * SECONDS_PER_DAY;
    ModByDayUnique(seconds + days * SECONDS_PER_DAY, r);
  }

  /** Reducing a sum does not depend on whether the summands were reduced first. */
  lemma ModByDayAdd(a: int, b: int)
    ensures ModByDay(ModByDay(a) + b) == ModByDay(a + b)
  {
    var ra := ModByDay(a);
    var q := (a - ra) / SECONDS_PER_DAY;
    assert a == ra + q * SECONDS_PER_DAY;
    ModByDayPeriodic(ra + b, q);
    assert ra + b + q * SECONDS_PER_DAY == a + b;
  }

  /** The message both constructors raise for any argument count but 1 or 3. */
  function ArityMessage(given: nat): string {
    "wrong number of arguments (" + NatToString(given) + " for 1 or 3)"
  }

  /** Hours, minutes and seconds as the accessors derive them recombine to
      the second count. */
  lemma Recombine(s: Seconds)
    ensures 0 <= s / SECONDS_PER_HOUR < 24
    ensures 0 <= (s % SECONDS_PER_HOUR) / SECONDS_PER_MIN < 60
    ensures (s / SECONDS_PER_HOUR) * SECONDS_PER_HOUR
          + ((s % SECONDS_PER_HOUR) / SECONDS_PER_MIN) * SECONDS_PER_MIN
          + s % SECONDS_PER_MIN == s
  {
    var h, rest := s / SECONDS_PER_HOUR, s % SECONDS_PER_HOUR;
    assert s == h * SECONDS_PER_HOUR + rest;
    var m, sec := rest / SECONDS_PER_MIN, rest % SECONDS_PER_MIN;
    assert rest == m * SECONDS_PER_MIN + sec;
    assert s == (h * 60 + m) * SECONDS_PER_MIN + sec;
    assert s % SECONDS_PER_MIN == sec;
  }

  /** Conversely, in-range hours, minutes and seconds combine to a second of
      the day from which the accessors give them back. */
  lemma Split(hours: int, minutes: int, seconds: int)
    requires 0 <= hours < 24 && 0 <= minutes < 60 && 0 <= seconds < 60
    ensures var s := hours * SECONDS_PER_HOUR + minutes * SECONDS_PER_MIN + seconds;
      0 <= s < SECONDS_PER_DAY &&
      s / SECONDS_PER_HOUR == hours &&
      (s % SECONDS_PER_HOUR) / SECONDS_PER_MIN == minutes &&
      s % SECONDS_PER_MIN == seconds
  {
    var rest := minutes * SECONDS_PER_MIN + seconds;
    var s := hours * SECONDS_PER_HOUR + rest;
    assert 0 <= rest < SECONDS_PER_HOUR;
    assert s / SECONDS_PER_HOUR == hours;
    assert s % SECONDS_PER_HOUR == rest;
    assert rest / SECONDS_PER_MIN == minutes;
    assert s == (hours * 60 + minutes) * SECONDS_PER_MIN + seconds;
  }
}
