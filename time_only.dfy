/** The `TimeOnly` class as a value: a time of day held as the number of
    seconds since midnight, always on the 24-hour dial. Construction from
    hours, minutes and seconds is validated; arithmetic wraps around
    midnight; comparison is by the second count. Its `strftime` is in
    module TimeOnlyFormat. */
module TimeOnly {
  import opened Decimal
  import opened Clock

  datatype Time = Time(secondsSinceMidnight: Seconds)

  /** `TimeOnly.new(*args)`. One argument is a raw second count, reduced onto
      the dial; three are hours, minutes and seconds, each checked against its
      range in that order before they are combined; any other count raises. */
  function New(args: seq<int>): (r: Result<Time>)
    ensures |args| == 1 ==> r.Ok? && (ToI(r.value) - args[0]) % SECONDS_PER_DAY == 0
    ensures |args| == 3 ==>
      (r.Ok? <==> 0 <= args[0] <= 23 && 0 <= args[1] <= 59 && 0 <= args[2] <= 59)
    ensures |args| == 3 && r.Ok? ==>
      ToI(r.value) == args[0] * SECONDS_PER_HOUR + args[1] * SECONDS_PER_MIN + args[2]
    ensures |args| == 3 && !(0 <= args[0] <= 23) ==>
      r == Err(ArgumentError("hours must be between 0 and 23"))
    ensures |args| == 3 && 0 <= args[0] <= 23 && !(0 <= args[1] <= 59) ==>
      r == Err(ArgumentError("minutes must be between 0 and 59"))
    ensures |args| == 3 && 0 <= args[0] <= 23 && 0 <= args[1] <= 59 && !(0 <= args[2] <= 59) ==>
      r == Err(ArgumentError("seconds must be between 0 and 59"))
    ensures |args| != 1 && |args| != 3 ==> r == Err(ArgumentError(ArityMessage(|args|)))
  {
    if |args| == 1 then
      Ok(Time(ModByDay(args[0])))
    else if |args| == 3 then
      var hours, minutes, seconds := args[0], args[1], args[2];
      if hours < 0 || hours > 23 then Err(ArgumentError("hours must be between 0 and 23"))
      else if minutes < 0 || minutes > 59 then Err(ArgumentError("minutes must be between 0 and 59"))
      else if seconds < 0 || seconds > 59 then Err(ArgumentError("seconds must be between 0 and 59"))
      else
        Split(hours, minutes, seconds);
        ModByDayNear(hours * SECONDS_PER_HOUR + minutes * SECONDS_PER_MIN + seconds);
        Ok(Time(ModByDay(hours * SECONDS_PER_HOUR + minutes * SECONDS_PER_MIN + seconds)))
    else
      Err(ArgumentError(ArityMessage(|args|)))
  }

  /** `TimeOnly.at(seconds)`: the one-argument constructor, which never raises. */
  function At(seconds: int): (r: Time)
    ensures New([seconds]) == Ok(r)
    ensures 0 <= seconds < SECONDS_PER_DAY ==> ToI(r) == seconds
  {
    var t := Time(ModByDay(seconds));
    assert ModByDay(seconds) == seconds % SECONDS_PER_DAY;
    t
  }

  /** `TimeOnly.now`, with the wall clock's reading passed in: hours 0..23,
      minutes 0..59 and seconds 0..60 (60 being a leap second). The validated
      constructor refuses the leap second. */
  function Now(hour: int, min: int, sec: int): (r: Result<Time>)
    requires 0 <= hour <= 23 && 0 <= min <= 59 && 0 <= sec <= 60
    ensures r.Ok? <==> sec < 60
    ensures r.Ok? ==> ToA(r.value) == [hour, min, sec]
  {
    if sec < 60 then ToANew(hour, min, sec); New([hour, min, sec]) else New([hour, min, sec])
  }

  /** `to_i`: the stored second count. */
  function ToI(t: Time): (r: int)
    ensures 0 <= r < SECONDS_PER_DAY
  {
    t.secondsSinceMidnight
  }

  /** `t + seconds`: the time `seconds` later, rolling forward past midnight
      or, for a negative count, backward. */
  function Add(t: Time, seconds: int): (r: Time)
    ensures (ToI(r) - ToI(t) - seconds) % SECONDS_PER_DAY == 0
    ensures 0 <= ToI(t) + seconds < SECONDS_PER_DAY ==> ToI(r) == ToI(t) + seconds
    ensures SECONDS_PER_DAY <= ToI(t) + seconds < 2 * SECONDS_PER_DAY ==>
      ToI(r) == ToI(t) + seconds - SECONDS_PER_DAY
    ensures -SECONDS_PER_DAY <= ToI(t) + seconds < 0 ==>
      ToI(r) == ToI(t) + seconds + SECONDS_PER_DAY
  {
    ModByDayNear(t.secondsSinceMidnight + seconds);
    At(ModByDay(t.secondsSinceMidnight + seconds))
  }

  /** `t - seconds`: addition of the negated count. */
  function Sub(t: Time, seconds: int): (r: Time)
    ensures (ToI(t) - ToI(r) - seconds) % SECONDS_PER_DAY == 0
    ensures 0 <= ToI(t) - seconds < SECONDS_PER_DAY ==> ToI(r) == ToI(t) - seconds
    ensures -SECONDS_PER_DAY <= ToI(t) - seconds < 0 ==>
      ToI(r) == ToI(t) - seconds + SECONDS_PER_DAY
  {
    Add(t, seconds * -1)
  }

  /** `succ`: the next second, 23:59:59 being followed by midnight. */
  function Succ(t: Time): (r: Time)
    ensures ToI(t) < SECONDS_PER_DAY - 1 ==> ToI(r) == ToI(t) + 1
    ensures ToI(t) == SECONDS_PER_DAY - 1 ==> ToI(r) == 0
  {
    Add(t, 1)
  }

  /** `==`: equality of the second counts, which is equality of the values. */
  function Equal(t: Time, u: Time): (r: bool)
    ensures r <==> t == u
  {
    ToI(t) == ToI(u)
  }

  /** `<=>`: Ruby's integer comparison of the second counts. */
  function Compare(t: Time, u: Time): (r: int)
    ensures r == -1 <==> ToI(t) < ToI(u)
    ensures r == 0 <==> ToI(t) == ToI(u)
    ensures r == 1 <==> ToI(t) > ToI(u)
  {
    if ToI(t) < ToI(u) then -1 else if ToI(t) == ToI(u) then 0 else 1
  }

  /** `hour`: whole hours since midnight. */
  function Hour(t: Time): (h: nat)
    ensures h < 24
    ensures h * SECONDS_PER_HOUR <= ToI(t) < (h + 1) * SECONDS_PER_HOUR
  {
    t.secondsSinceMidnight / SECONDS_PER_HOUR
  }

  /** `min`: whole minutes since the start of the hour. */
  function Min(t: Time): (m: nat)
    ensures m < 60
    ensures Hour(t) * SECONDS_PER_HOUR + m * SECONDS_PER_MIN <= ToI(t)
    ensures ToI(t) < Hour(t) * SECONDS_PER_HOUR + (m + 1) * SECONDS_PER_MIN
  {
    (t.secondsSinceMidnight % SECONDS_PER_HOUR) / SECONDS_PER_MIN
  }

  /** `sec`: seconds since the start of the minute. */
  function Sec(t: Time): (s: nat)
    ensures s < 60
    ensures (ToI(t) - s) % SECONDS_PER_MIN == 0
  {
    t.secondsSinceMidnight % SECONDS_PER_MIN
  }

  /** `am?`: before noon. */
  function IsAm(t: Time): (r: bool)
    ensures r <==> ToI(t) < 12 * SECONDS_PER_HOUR
  {
    Hour(t) < 12
  }

  /** `pm?`: the negation of `am?`, noon or later. */
  function IsPm(t: Time): (r: bool)
    ensures r <==> ToI(t) >= 12 * SECONDS_PER_HOUR
    ensures r != IsAm(t)
  {
    !IsAm(t)
  }

  /** `to_a`: the hour, minute and second, in that order. */
  function ToA(t: Time): (r: seq<int>)
    ensures |r| == 3
    ensures r[0] * SECONDS_PER_HOUR + r[1] * SECONDS_PER_MIN + r[2] == ToI(t)
    ensures 0 <= r[0] < 24 && 0 <= r[1] < 60 && 0 <= r[2] < 60
  {
    Recombine(t.secondsSinceMidnight);
    [Hour(t), Min(t), Sec(t)]
  }

  // ---------------------------------------------------------------------
  // Properties relating several operations

  /** `to_a` and the three-argument constructor are inverse: every time is
      rebuilt from its fields, and valid fields come back out unchanged. */
  lemma NewToA(t: Time)
    ensures New(ToA(t)) == Ok(t)
  {
    var a := ToA(t);
    var r := New(a).value;
    assert ToI(r) == ToI(t);
  }

  lemma ToANew(hours: int, minutes: int, seconds: int)
    requires 0 <= hours <= 23 && 0 <= minutes <= 59 && 0 <= seconds <= 59
    ensures New([hours, minutes, seconds]).Ok?
    ensures ToA(New([hours, minutes, seconds]).value) == [hours, minutes, seconds]
  {
    Split(hours, minutes, seconds);
  }

  /** Reducing by a whole day changes nothing. */
  lemma AtPeriodic(seconds: int)
    ensures At(seconds + SECONDS_PER_DAY) == At(seconds)
  {
    ModByDayPeriodic(seconds, 1);
  }

  /** Addition is exact arithmetic on the dial: adding in two steps is adding
      the total, and adding a whole day is the identity. */
  lemma AddAdd(t: Time, a: int, b: int)
    ensures Add(Add(t, a), b) == Add(t, a + b)
  {
    ModByDayAdd(ToI(t) + a, b);
    ModByDayUnique(ToI(t) + a, ToI(Add(t, a)));
    ModByDayUnique(ToI(Add(t, a)) + b, ToI(Add(Add(t, a), b)));
    ModByDayUnique(ToI(t) + a + b, ToI(Add(t, a + b)));
  }

  lemma AddDay(t: Time)
    ensures Add(t, SECONDS_PER_DAY) == t
    ensures Add(t, 0) == t
  {
  }

  /** Subtraction undoes addition and addition undoes subtraction. */
  lemma SubAdd(t: Time, n: int)
    ensures Sub(Add(t, n), n) == t
    ensures Add(Sub(t, n), n) == t
  {
    AddAdd(t, n, n * -1);
    AddAdd(t, n * -1, n);
    AddDay(t);
  }

  /** The successor is addition of one second. */
  lemma SuccIsAddOne(t: Time)
    ensures Succ(t) == Add(t, 1)
    ensures Sub(Succ(t), 1) == t
  {
    SubAdd(t, 1);
  }

  /** `<=>` is a total order without wrap-around: antisymmetric, transitive,
      total, consistent with `==`, with midnight least and 23:59:59 greatest. */
  lemma CompareTotalOrder(t: Time, u: Time, v: Time)
    ensures Compare(t, u) == -Compare(u, t)
    ensures Compare(t, u) == 0 <==> Equal(t, u)
    ensures Compare(t, u) <= 0 && Compare(u, v) <= 0 ==> Compare(t, v) <= 0
    ensures Compare(t, u) <= 0 || Compare(u, t) <= 0
    ensures Compare(At(0), t) <= 0 && Compare(t, At(SECONDS_PER_DAY - 1)) <= 0
  {
  }

  /** The order does not follow the dial round: stepping past 23:59:59 lands
      on the least time, not a greater one. */
  lemma SuccWrapsBelow()
    ensures Compare(Succ(At(SECONDS_PER_DAY - 1)), At(SECONDS_PER_DAY - 1)) == -1
    ensures forall t: Time :: ToI(t) < SECONDS_PER_DAY - 1 ==> Compare(t, Succ(t)) == -1
  {
  }

  /** `am?` is `hour < 12`, and `pm?` its negation. */
  lemma MeridianByHour(t: Time)
    ensures IsAm(t) <==> Hour(t) < 12
    ensures IsPm(t) <==> Hour(t) >= 12
  {
  }

  /** The examples of the class's own documentation and of the constructor
      rules: `new(4) + 3` is 00:00:07, `new(23, 59, 59) + 3` is 00:00:02,
      `new(4) - 3` is 00:00:01, `new(0, 0, 0) - 3` is 23:59:57, `-10` wraps
      to 86390, and hour 24 is refused. */
  lemma Examples()
    ensures Add(At(4), 3) == At(7)
    ensures New([23, 59, 59]).Ok? && Add(New([23, 59, 59]).value, 3) == At(2)
    ensures Sub(At(4), 3) == At(1)
    ensures New([0, 0, 0]).Ok? && New([23, 59, 57]).Ok?
    ensures Sub(New([0, 0, 0]).value, 3) == New([23, 59, 57]).value
    ensures ToI(At(-10)) == 86390
    ensures ToI(At(45296)) == 45296 && ToI(New([12, 34, 56]).value) == 45296
    ensures New([24, 0, 0]) == Err(ArgumentError("hours must be between 0 and 23"))
    ensures New([1, 2]) == Err(ArgumentError("wrong number of arguments (2 for 1 or 3)"))
  {
    assert NatToString(2) == "2";
    assert ModByDay(-10) == 86390 by {
      ModByDayUnique(-10, 86390);
    }
  }
}
