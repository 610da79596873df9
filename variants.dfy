/** How the two time-of-day classes relate. They store the same second count
    and agree wherever `TimeOnly` accepts its arguments; they differ only in
    that `TimeOnly` range-checks hours, minutes and seconds where `TimeOfDay`
    carries them over. */
module Variants {
  import opened Clock
  import TimeOnly
  import TimeOfDay
  import TimeOnlyFormat

  /** The one-argument constructors reduce the same count to the same second. */
  lemma SecondCountsAgree(seconds: int)
    ensures TimeOnly.New([seconds]).Ok? && TimeOfDay.New([seconds]).Ok?
    ensures TimeOnly.ToI(TimeOnly.New([seconds]).value) == TimeOfDay.ToI(TimeOfDay.New([seconds]).value)
  {
    var r, s := TimeOnly.ToI(TimeOnly.New([seconds]).value), TimeOfDay.ToI(TimeOfDay.New([seconds]).value);
    ModByDayUnique(seconds, r);
    ModByDayUnique(seconds, s);
  }

  /** Three in-range fields build the same second in both classes; out of
      range, `TimeOnly` raises and `TimeOfDay` still builds a time. */
  lemma FieldsAgree(hours: int, minutes: int, seconds: int)
    ensures TimeOfDay.New([hours, minutes, seconds]).Ok?
    ensures TimeOnly.New([hours, minutes, seconds]).Ok? <==>
      0 <= hours <= 23 && 0 <= minutes <= 59 && 0 <= seconds <= 59
    ensures TimeOnly.New([hours, minutes, seconds]).Ok? ==>
      TimeOnly.ToI(TimeOnly.New([hours, minutes, seconds]).value) ==
      TimeOfDay.ToI(TimeOfDay.New([hours, minutes, seconds]).value)
  {
    if 0 <= hours <= 23 && 0 <= minutes <= 59 && 0 <= seconds <= 59 {
      Split(hours, minutes, seconds);
      ModByDayNear(hours * SECONDS_PER_HOUR + minutes * SECONDS_PER_MIN + seconds);
    }
  }

  /** Both classes raise the same error for a wrong argument count. */
  lemma ArityErrorsAgree(args: seq<int>)
    requires |args| != 1 && |args| != 3
    ensures TimeOnly.New(args).Err? && TimeOfDay.New(args).Err?
    ensures TimeOnly.New(args).error == TimeOfDay.New(args).error
  {
  }

  /** Hour 24 is rejected by `TimeOnly` and read as midnight by `TimeOfDay`. */
  lemma HourTwentyFour()
    ensures TimeOnly.New([24, 0, 0]) == Err(ArgumentError("hours must be between 0 and 23"))
    ensures TimeOfDay.New([24, 0, 0]) == TimeOfDay.New([0, 0, 0])
  {
    TimeOfDay.NewWraps();
  }

  /** The same second prints the same in both classes, although `TimeOnly`
      goes through `strftime('%T')` and `TimeOfDay` through `String#%`. */
  lemma PrintingAgrees(t: TimeOnly.Time, u: TimeOfDay.Time)
    requires TimeOnly.ToI(t) == TimeOfDay.ToI(u)
    ensures TimeOnlyFormat.ToS(t) == TimeOfDay.ToS(u)
  {
  }

  /** Adding the same count to the same second gives the same second. */
  lemma ArithmeticAgrees(t: TimeOnly.Time, u: TimeOfDay.Time, seconds: int)
    requires TimeOnly.ToI(t) == TimeOfDay.ToI(u)
    ensures TimeOnly.ToI(TimeOnly.Add(t, seconds)) == TimeOfDay.ToI(TimeOfDay.Add(u, seconds))
    ensures TimeOnly.ToI(TimeOnly.Sub(t, seconds)) == TimeOfDay.ToI(TimeOfDay.Sub(u, seconds))
  {
    var a, b := TimeOnly.ToI(TimeOnly.Add(t, seconds)), TimeOfDay.ToI(TimeOfDay.Add(u, seconds));
    ModByDayUnique(TimeOnly.ToI(t) + seconds, a);
    ModByDayUnique(TimeOnly.ToI(t) + seconds, b);
    var c, d := TimeOnly.ToI(TimeOnly.Sub(t, seconds)), TimeOfDay.ToI(TimeOfDay.Sub(u, seconds));
    assert (TimeOnly.ToI(t) - seconds - c) % SECONDS_PER_DAY == 0;
    ModByDayUnique(TimeOnly.ToI(t) - seconds, c);
    ModByDayUnique(TimeOnly.ToI(t) - seconds, d);
  }
}
