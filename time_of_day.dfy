/** The `TimeOfDay` class as a value: the older of the two time-of-day
    classes. It stores the same second count as `TimeOnly`, but its
    three-argument constructor checks no ranges and reduces the combined
    count onto the dial, and it prints through `String#%` rather than
    `strftime`, which it does not have. */
module TimeOfDay {
  import opened Decimal
  import opened Clock

  datatype Time = Time(secondsSinceMidnight: Seconds)

  /** `TimeOfDay.new(*args)`. One argument is a raw second count; three are
      hours, minutes and seconds combined without any range check; both are
      reduced onto the dial. Any other count raises. */
  function New(args: seq<int>): (r: Result<Time>)
    ensures r.Ok? <==> |args| == 1 || |args| == 3
    ensures |args| == 1 ==> (ToI(r.value) - args[0]) % SECONDS_PER_DAY == 0
    ensures |args| == 3 ==>
      (ToI(r.value) - (args[0] * SECONDS_PER_HOUR + args[1] * SECONDS_PER_MIN + args[2]))
        % SECONDS_PER_DAY == 0
    ensures !r.Ok? ==> r.error == ArgumentError(ArityMessage(|args|))
  {
    if |args| == 1 then
      Ok(Time(ModByDay(args[0])))
    else if |args| == 3 then
      Ok(Time(ModByDay(args[0] * SECONDS_PER_HOUR + args[1] * SECONDS_PER_MIN + args[2])))
    else
      Err(ArgumentError(ArityMessage(|args|)))
  }

  /** `TimeOfDay.at(seconds)`: the one-argument constructor. */
  function At(seconds: int): (r: Time)
    ensures New([seconds]) == Ok(r)
    ensures 0 <= seconds < SECONDS_PER_DAY ==> ToI(r) == seconds
  {
    ModByDayNear(seconds);
    Time(ModByDay(seconds))
  }

  /** `to_i`: the stored second count. */
  function ToI(t: Time): (r: int)
    ensures 0 <= r < SECONDS_PER_DAY
  {
    t.secondsSinceMidnight
  }

  /** `t + seconds`: the time `seconds` later, rolling past midnight either way. */
  function Add(t: Time, seconds: int): (r: Time)
    ensures (ToI(r) - ToI(t) - seconds) % SECONDS_PER_DAY == 0
    ensures 0 <= ToI(t) + seconds < SECONDS_PER_DAY ==> ToI(r) == ToI(t) + seconds
    ensures SECONDS_PER_DAY <= ToI(t) + seconds < 2 * SECONDS_PER_DAY ==>
      ToI(r) == ToI(t) + seconds - SECONDS_PER_DAY
    ensures -SECONDS_PER_DAY <= ToI(t) + seconds < 0 ==>
      ToI(r) == ToI(t) + seconds + SECONDS_PER_DAY
  {
    ModByDayNear(t.secondsSinceMidnight + seconds);
    At(ModByDay(t.secondsSinceMidnight + seconds))
  }

  /** `t - seconds`: addition of the negated count. */
  function Sub(t: Time, seconds: int): (r: Time)
    ensures (ToI(t) - ToI(r) - seconds) % SECONDS_PER_DAY == 0
    ensures 0 <= ToI(t) - seconds < SECONDS_PER_DAY ==> ToI(r) == ToI(t) - seconds
    ensures -SECONDS_PER_DAY <= ToI(t) - seconds < 0 ==>
      ToI(r) == ToI(t) - seconds + SECONDS_PER_DAY
  {
    Add(t, seconds * -1)
  }

  /** `succ`: the next second, 23:59:59 being followed by midnight. */
  function Succ(t: Time): (r: Time)
    ensures ToI(t) < SECONDS_PER_DAY - 1 ==> ToI(r) == ToI(t) + 1
    ensures ToI(t) == SECONDS_PER_DAY - 1 ==> ToI(r) == 0
  {
    Add(t, 1)
  }

  /** `==` (and `eql?`): equality of the second counts. */
  function Equal(t: Time, u: Time): (r: bool)
    ensures r <==> t == u
  {
    ToI(t) == ToI(u)
  }

  /** `<=>`: integer comparison of the second counts. */
  function Compare(t: Time, u: Time): (r: int)
    ensures r == -1 <==> ToI(t) < ToI(u)
    ensures r == 0 <==> ToI(t) == ToI(u)
    ensures r == 1 <==> ToI(t) > ToI(u)
  {
    if ToI(t) < ToI(u) then -1 else if ToI(t) == ToI(u) then 0 else 1
  }

  /** `hour`: whole hours since midnight. */
  function Hour(t: Time): (h: nat)
    ensures h < 24
    ensures h * SECONDS_PER_HOUR <= ToI(t) < (h + 1) * SECONDS_PER_HOUR
  {
    t.secondsSinceMidnight / SECONDS_PER_HOUR
  }

  /** `min`: whole minutes since the start of the hour. */
  function Min(t: Time): (m: nat)
    ensures m < 60
    ensures Hour(t) * SECONDS_PER_HOUR + m * SECONDS_PER_MIN <= ToI(t)
    ensures ToI(t) < Hour(t) * SECONDS_PER_HOUR + (m + 1) * SECONDS_PER_MIN
  {
    (t.secondsSinceMidnight % SECONDS_PER_HOUR) / SECONDS_PER_MIN
  }

  /** `sec`: seconds since the start of the minute. */
  function Sec(t: Time): (s: nat)
    ensures s < 60
    ensures (ToI(t) - s) % SECONDS_PER_MIN == 0
  {
    t.secondsSinceMidnight % SECONDS_PER_MIN
  }

  /** `to_a`: the hour, minute and second, in that order. */
  function ToA(t: Time): (r: seq<int>)
    ensures |r| == 3
    ensures r[0] * SECONDS_PER_HOUR + r[1] * SECONDS_PER_MIN + r[2] == ToI(t)
    ensures 0 <= r[0] < 24 && 0 <= r[1] < 60 && 0 <= r[2] < 60
  {
    Recombine(t.secondsSinceMidnight);
    [Hour(t), Min(t), Sec(t)]
  }

  /** `to_s` (and `asctime`, `ctime`, `inspect`): `'%0.2d:%0.2d:%0.2d' % to_a`,
      each field at least two digits, which for a time of day is exactly two. */
  function ToS(t: Time): (r: string)
    ensures r == TwoDigits(Hour(t)) + ":" + TwoDigits(Min(t)) + ":" + TwoDigits(Sec(t))
  {
    PrecisionTwo(Hour(t));
    PrecisionTwo(Min(t));
    PrecisionTwo(Sec(t));
    Precision(ToA(t)[0], 2) + ":" + Precision(ToA(t)[1], 2) + ":" + Precision(ToA(t)[2], 2)
  }

  // ---------------------------------------------------------------------
  // Properties relating several operations

  /** No field is range-checked: the three-argument constructor accepts any
      integers, and equals the one-argument constructor on their combination. */
  lemma NewNeverRejects(hours: int, minutes: int, seconds: int)
    ensures New([hours, minutes, seconds]) ==
      New([hours * SECONDS_PER_HOUR + minutes * SECONDS_PER_MIN + seconds])
  {
  }

  /** Out-of-range fields carry over: hour 24 is midnight, minute 60 the next hour. */
  lemma NewWraps()
    ensures New([24, 0, 0]) == New([0, 0, 0])
    ensures New([1, 60, 0]) == New([2, 0, 0])
    ensures New([0, 0, -1]) == New([23, 59, 59])
  {
    ModByDayNear(SECONDS_PER_DAY);
    ModByDayNear(-1);
  }

  /** `to_a` and the three-argument constructor are inverse. */
  lemma NewToA(t: Time)
    ensures New(ToA(t)) == Ok(t)
  {
    ModByDayNear(ToI(t));
  }

  lemma ToANew(hours: int, minutes: int, seconds: int)
    requires 0 <= hours <= 23 && 0 <= minutes <= 59 && 0 <= seconds <= 59
    ensures ToA(New([hours, minutes, seconds]).value) == [hours, minutes, seconds]
  {
    Split(hours, minutes, seconds);
    ModByDayNear(hours * SECONDS_PER_HOUR + minutes * SECONDS_PER_MIN + seconds);
  }

  /** Addition in two steps is addition of the total. */
  lemma AddAdd(t: Time, a: int, b: int)
    ensures Add(Add(t, a), b) == Add(t, a + b)
  {
    ModByDayAdd(ToI(t) + a, b);
    ModByDayUnique(ToI(t) + a, ToI(Add(t, a)));
    ModByDayUnique(ToI(Add(t, a)) + b, ToI(Add(Add(t, a), b)));
    ModByDayUnique(ToI(t) + a + b, ToI(Add(t, a + b)));
  }

  /** Subtraction undoes addition and addition undoes subtraction. */
  lemma SubAdd(t: Time, n: int)
    ensures Sub(Add(t, n), n) == t
    ensures Add(Sub(t, n), n) == t
  {
    AddAdd(t, n, n * -1);
    AddAdd(t, n * -1, n);
    assert Add(t, 0) == t;
  }

  /** `to_s` is eight characters, `HH:MM:SS`, each field the decimal numeral
      of the hour, minute or second. */
  lemma ToSShape(t: Time)
    ensures |ToS(t)| == 8 && ToS(t)[2] == ':' && ToS(t)[5] == ':'
    ensures AllDigits(ToS(t)[0..2]) && DecimalValue(ToS(t)[0..2]) == Hour(t)
    ensures AllDigits(ToS(t)[3..5]) && DecimalValue(ToS(t)[3..5]) == Min(t)
    ensures AllDigits(ToS(t)[6..8]) && DecimalValue(ToS(t)[6..8]) == Sec(t)
  {
    ColonFields(Hour(t), Min(t), Sec(t));
  }

  /** Distinct times print differently. */
  lemma ToSInjective(t: Time, u: Time)
    requires ToS(t) == ToS(u)
    ensures t == u
  {
    ToSShape(t);
    ToSShape(u);
    Recombine(t.secondsSinceMidnight);
    Recombine(u.secondsSinceMidnight);
  }

  /** The construction scenarios of the class's test file: a second count, three
      fields, the arity error, and `at`. */
  lemma ScenarioConstruction()
    ensures New([45296]).Ok? && ToI(New([45296]).value) == 45296
    ensures New([12, 34, 56]).Ok? && ToI(New([12, 34, 56]).value) == 45296
    ensures New([1, 2]) == Err(ArgumentError("wrong number of arguments (2 for 1 or 3)"))
    ensures ToI(At(300)) == 300 && New([300]) == Ok(At(300))
  {
    ModByDayNear(45296);
    assert NatToString(2) == "2";
  }

  /** `+ 1`, `- 1` and `succ` from midnight and one second past it. */
  lemma ScenarioArithmetic()
    ensures Add(At(0), 1) == At(1) && Sub(At(1), 1) == At(0) && Succ(At(0)) == At(1)
  {
  }

  /** `==` on equal and on different times, and `<=>` in its three outcomes. */
  lemma ScenarioComparison(t: Time, u: Time)
    requires New([12, 34, 56]) == Ok(t) && New([0, 0, 0]) == Ok(u)
    ensures Equal(t, t) && !Equal(t, u)
    ensures Compare(At(0), At(0)) == 0 && Compare(At(0), At(1)) == -1 && Compare(At(1), At(0)) == 1
  {
    ModByDayNear(45296);
  }

  /** The accessors, `to_a` and `to_s` at 02:04:06 and 02:03:04. */
  lemma ScenarioFields(t: Time, u: Time)
    requires New([2, 4, 6]) == Ok(t) && New([2, 3, 4]) == Ok(u)
    ensures Hour(t) == 2 && Min(t) == 4 && Sec(t) == 6
    ensures ToA(u) == [2, 3, 4]
    ensures ToS(t) == "02:04:06"
  {
    ToANew(2, 4, 6);
    ToANew(2, 3, 4);
    assert Hour(t) == 2 && Min(t) == 4 && Sec(t) == 6;
    FieldTexts();
  }

  lemma FieldTexts()
    ensures TwoDigits(2) + ":" + TwoDigits(4) + ":" + TwoDigits(6) == "02:04:06"
  {
    DigitChars();
  }
}
