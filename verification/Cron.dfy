/** Cron schedules: field matchers and the search for the next instant. */
module Cron {
  import opened Outcomes

  datatype Matcher =
    | Wildcard
    | Exact(value: int)
    | Range(start: int, end: int)
    | List(values: seq<int>)
    | Step(step: int, min: int, max: int)

  predicate Matches(m: Matcher, v: int) {
    match m
    case Wildcard => true
    case Exact(value) => v == value
    case Range(start, end) => start <= v <= end
    case List(values) => v in values
    case Step(step, min, max) => if v < min || v > max || step == 0 then false else (v - min) % step == 0
  }

  datatype Schedule = Schedule(seconds: Matcher, minutes: Matcher, hours: Matcher, days: Matcher, months: Matcher,
                               weekdays: Matcher, hasSeconds: bool)

  /** The calendar of a time zone; instants count nanoseconds from the zero time. */
  datatype Calendar = Calendar(second: int -> int, minute: int -> int, hour: int -> int, day: int -> int,
                               month: int -> int, weekday: int -> int, fourYearsLater: int -> int)

  predicate ScheduleMatches(c: Calendar, s: Schedule, t: int) {
    && Matches(s.seconds, c.second(t))
    && Matches(s.minutes, c.minute(t))
    && Matches(s.hours, c.hour(t))
    && Matches(s.months, c.month(t))
    && (Matches(s.days, c.day(t)) || Matches(s.weekdays, c.weekday(t)))
  }

  // ----- The next instant -----

  const SECOND := 1_000_000_000

  const MINUTE := 60_000_000_000

  function Unit(s: Schedule): (u: int)
    ensures u > 0
  {
    if s.hasSeconds then SECOND else MINUTE
  }

  /** A whole second or a whole minute. */
  predicate Aligned(s: Schedule, t: int) {
    if s.hasSeconds then t % 1_000_000_000 == 0 else t % 60_000_000_000 == 0
  }

  /** The first whole second or minute behind an instant. */
  function FirstCandidate(s: Schedule, from: int): (t: int)
    ensures from < t <= from + Unit(s) && Aligned(s, t)
  {
    if s.hasSeconds then from + SECOND - (from + SECOND) % SECOND
    else from + MINUTE - (from + MINUTE) % MINUTE
  }

  /** An aligned instant behind `from` at which the schedule is due. */
  predicate Due(c: Calendar, s: Schedule, from: int, t: int) {
    from < t && Aligned(s, t) && ScheduleMatches(c, s, t)
  }

  /** Two aligned instants are at least a unit apart. */
  lemma AlignedApart(s: Schedule, a: int, b: int)
    requires Aligned(s, a) && Aligned(s, b) && a < b
    ensures a + Unit(s) <= b
  {}

  lemma FirstIsLeast(s: Schedule, from: int, t: int)
    requires from < t && Aligned(s, t)
    ensures FirstCandidate(s, from) <= t
  {}

  lemma AlignedNext(s: Schedule, t: int)
    requires Aligned(s, t)
    ensures Aligned(s, t + Unit(s))
  {}

  /** The next due instant: the least one behind `from`, and none exactly when
      nothing is due before the cap of four years. */
  method Next(c: Calendar, s: Schedule, from: int) returns (next: Option<int>)
    ensures var cap := c.fourYearsLater(FirstCandidate(s, from));
      && (next.Some? ==> Due(c, s, from, next.value) && next.value < cap)
      && (next.Some? ==> forall t :: Due(c, s, from, t) ==> next.value <= t)
      && (next.None? <==> forall t :: Due(c, s, from, t) ==> cap <= t)
  {
    hide Aligned, ScheduleMatches, Unit, FirstCandidate;
    var unit := Unit(s);
    var t := FirstCandidate(s, from);
    var maxTime := c.fourYearsLater(t);
    forall u | Due(c, s, from, u) ensures t <= u {
      FirstIsLeast(s, from, u);
    }
    while t < maxTime
      invariant from < t && Aligned(s, t)
      invariant forall u :: Due(c, s, from, u) ==> t <= u
      decreases maxTime - t
    {
      if ScheduleMatches(c, s, t) {
        assert Due(c, s, from, t);
        return Some(t);
      }
      forall u | Due(c, s, from, u) ensures t + unit <= u {
        AlignedApart(s, t, u);
      }
      AlignedNext(s, t);
      t := t + unit;
    }
    return None;
  }

  // ----- What the documentation promises of days and weekdays -----

  /** The range of calendar values that a date can have. */
  predicate InCalendar(day: int, weekday: int) {
    1 <= day <= 31 && 0 <= weekday <= 6
  }

  predicate DayRule(s: Schedule, day: int, weekday: int) {
    Matches(s.days, day) || Matches(s.weekdays, weekday)
  }

  /** Customary cron: a field left open does not widen the other; only two restricted fields are alternatives. */
  predicate CustomaryDayRule(s: Schedule, day: int, weekday: int) {
    if s.days.Wildcard? then Matches(s.weekdays, weekday)
    else if s.weekdays.Wildcard? then Matches(s.days, day)
    else DayRule(s, day, weekday)
  }

  /** The code agrees with custom on every date if and only if both fields are restricted,
      or whichever is restricted beside an open one admits every date. */
  lemma CustomaryIff(s: Schedule)
    ensures (forall d, w :: InCalendar(d, w) ==> (DayRule(s, d, w) <==> CustomaryDayRule(s, d, w)))
      <==> ((s.days.Wildcard? ==> forall w :: 0 <= w <= 6 ==> Matches(s.weekdays, w))
            && (s.weekdays.Wildcard? ==> forall d :: 1 <= d <= 31 ==> Matches(s.days, d)))
  {
    if forall d, w :: InCalendar(d, w) ==> (DayRule(s, d, w) <==> CustomaryDayRule(s, d, w)) {
      forall w | s.days.Wildcard? && 0 <= w <= 6 ensures Matches(s.weekdays, w) {
        assert InCalendar(1, w) && DayRule(s, 1, w);
      }
      forall d | s.weekdays.Wildcard? && 1 <= d <= 31 ensures Matches(s.days, d) {
        assert InCalendar(d, 0) && DayRule(s, d, 0);
      }
    }
  }

  /** Custom reads 7 as Sunday, like 0. */
  predicate CustomaryWeekday(m: Matcher, weekday: int) {
    Matches(m, weekday) || (weekday == 0 && Matches(m, 7))
  }

  /** No date has weekday 7: a field meets the customary reading exactly when it names Sunday as 0 or not at all. */
  lemma SundayIff(m: Matcher)
    ensures (forall w :: 0 <= w <= 6 ==> (Matches(m, w) <==> CustomaryWeekday(m, w)))
      <==> (Matches(m, 7) ==> Matches(m, 0))
  {
    if forall w :: 0 <= w <= 6 ==> (Matches(m, w) <==> CustomaryWeekday(m, w)) {
      assert Matches(m, 0) <==> CustomaryWeekday(m, 0);
    }
  }
}
