/**
  * The entities the rules build and the resolver anchors: `Time`, `Interval`, `Duration` and
  * the `Artifact` they share. The Python module defining them (timenlp/types.py) is not part of
  * this model; its field layout and its derived predicates are stated here as assumptions,
  * following the `_hasOnly` / `_hasAtLeast` scheme of the library it is adapted from: a
  * predicate `isX` holds when exactly the fields of X are set, `hasX` when at least they are.
  */
module Types {
  import opened Wrappers
  import Calendar

  /**
    * A partially specified instant. Unset fields are `None`; `dow` is 0 (Monday) .. 6 (Sunday);
    * `pod` is the part-of-day name ("morning", "lateevening", ...); `meridiemLatent` says
    * that the hour was read without an am/pm marker. `meridiemLatent` is not one of the fields
    * the `is`/`has` predicates look at.
    */
  datatype Time = Time(
    year: Option<int>, month: Option<int>, day: Option<int>,
    hour: Option<int>, minute: Option<int>,
    dow: Option<int>, pod: Option<string>,
    meridiemLatent: bool)

  /** `Time()`: nothing set. */
  const NoTime := Time(None, None, None, None, None, None, None, false)

  /** `Time(year=y, month=m, day=d)`. */
  function MakeDate(y: int, m: int, d: int): Time {
    NoTime.(year := Some(y), month := Some(m), day := Some(d))
  }

  /** `Time(year=dm.year, month=dm.month, day=dm.day, hour=dm.hour, minute=dm.minute)`. */
  function FromDateTime(dm: Calendar.DateTime): (t: Time)
    ensures HasDate(t) && t.hour.Some? && t.minute.Some? && NoDowPod(t) && !t.meridiemLatent
    ensures Calendar.Valid(dm) ==> WellFormed(t) && Dt(t) == dm
  {
    NoTime.(year := Some(dm.year), month := Some(dm.month), day := Some(dm.day),
            hour := Some(dm.hour), minute := Some(dm.minute))
  }

  /** `Time(year=dm.year, month=dm.month, day=dm.day)`. */
  function DateFromDateTime(dm: Calendar.DateTime): Time {
    MakeDate(dm.year, dm.month, dm.day)
  }

  /**
    * Field values are calendar values: month 1..12, day 1..31, hour 0..23, minute 0..59,
    * weekday 0..6, and a full date names a day that exists.
    */
  predicate WellFormed(t: Time) {
    (t.month.Some? ==> 1 <= t.month.value <= 12)
    && (t.day.Some? ==> 1 <= t.day.value <= 31)
    && (t.hour.Some? ==> 0 <= t.hour.value < 24)
    && (t.minute.Some? ==> 0 <= t.minute.value < 60)
    && (t.dow.Some? ==> 0 <= t.dow.value < 7)
    && (t.year.Some? && t.month.Some? && t.day.Some? ==>
          Calendar.ValidDate(t.year.value, t.month.value, t.day.value))
  }

  /** `tod.minute or 0`. */
  function MinuteOr0(t: Time): int {
    t.minute.GetOr(0)
  }

  /** The clock time, in minutes past midnight, that a time with an hour names. */
  function TodClock(t: Time): int
    requires t.hour.Some?
  {
    t.hour.value * Calendar.MinutesPerHour + MinuteOr0(t)
  }

  /** `tod.hour or 0`. */
  function HourOr0(t: Time): int {
    t.hour.GetOr(0)
  }

  // Which of the seven fields are set, one presence pattern per predicate.

  predicate NoDateFields(t: Time) {
    t.year.None? && t.month.None? && t.day.None?
  }

  predicate NoTimeFields(t: Time) {
    t.hour.None? && t.minute.None?
  }

  predicate NoDowPod(t: Time) {
    t.dow.None? && t.pod.None?
  }

  /** `isTOD`: only an hour, or only an hour and a minute. */
  predicate IsTOD(t: Time) {
    NoDateFields(t) && t.hour.Some? && NoDowPod(t)
  }

  /** `isDate`: exactly year, month and day. */
  predicate IsDate(t: Time) {
    t.year.Some? && t.month.Some? && t.day.Some? && NoTimeFields(t) && NoDowPod(t)
  }

  /** `isDateTime`: year, month, day and hour, with or without a minute, nothing else. */
  predicate IsDateTime(t: Time) {
    t.year.Some? && t.month.Some? && t.day.Some? && t.hour.Some? && NoDowPod(t)
  }

  /** `isDOM`: only a day of month. */
  predicate IsDOM(t: Time) {
    t.year.None? && t.month.None? && t.day.Some? && NoTimeFields(t) && NoDowPod(t)
  }

  /** `isDOY`: only a month and a day. */
  predicate IsDOY(t: Time) {
    t.year.None? && t.month.Some? && t.day.Some? && NoTimeFields(t) && NoDowPod(t)
  }

  /** `isDOW`: only a weekday. */
  predicate IsDOW(t: Time) {
    NoDateFields(t) && NoTimeFields(t) && t.dow.Some? && t.pod.None?
  }

  /** `isMonth`: only a month. */
  predicate IsMonth(t: Time) {
    t.year.None? && t.month.Some? && t.day.None? && NoTimeFields(t) && NoDowPod(t)
  }

  /** `isPOD`: only a part of day. */
  predicate IsPOD(t: Time) {
    NoDateFields(t) && NoTimeFields(t) && t.dow.None? && t.pod.Some?
  }

  /** `isYear`: only a year. */
  predicate IsYear(t: Time) {
    t.year.Some? && t.month.None? && t.day.None? && NoTimeFields(t) && NoDowPod(t)
  }

  /** `isYearAndMonth`: only a year and a month. */
  predicate IsYearAndMonth(t: Time) {
    t.year.Some? && t.month.Some? && t.day.None? && NoTimeFields(t) && NoDowPod(t)
  }

  /** `hasDate`: at least year, month and day. */
  predicate HasDate(t: Time) {
    t.year.Some? && t.month.Some? && t.day.Some?
  }

  /** `hasTime`: at least an hour. */
  predicate HasTime(t: Time) {
    t.hour.Some?
  }

  /** `t.dt` / `t.to_datetime_unsafe()`: `datetime(year, month, day, hour or 0, minute or 0)`. */
  function Dt(t: Time): (dm: Calendar.DateTime)
    requires HasDate(t) && WellFormed(t)
    ensures Calendar.Valid(dm)
  {
    Calendar.DateTime(t.year.value, t.month.value, t.day.value, HourOr0(t), MinuteOr0(t))
  }

  /** A time interval; either bound may be missing. */
  datatype Interval = Interval(tFrom: Option<Time>, tTo: Option<Time>)

  predicate WellFormedInterval(i: Interval) {
    (i.tFrom.Some? ==> WellFormed(i.tFrom.value)) && (i.tTo.Some? ==> WellFormed(i.tTo.value))
  }

  /** `isTimeInterval`: both bounds present and both bare times of day. */
  predicate IsTimeInterval(i: Interval) {
    i.tFrom.Some? && i.tTo.Some? && IsTOD(i.tFrom.value) && IsTOD(i.tTo.value)
  }

  /** `DurationUnit`. */
  datatype DurationUnit = Minute | Hour | Day | Week | Month

  /** A duration of `value` units (the diagnostic fraction tag is left out). */
  datatype Duration = Duration(value: int, unit: DurationUnit)

  /** The results a rule or the resolver hands on. */
  datatype Artifact = TimeArt(time: Time) | DurationArt(duration: Duration) | IntervalArt(interval: Interval)

  predicate WellFormedArtifact(a: Artifact) {
    match a
    case TimeArt(t) => WellFormed(t)
    case DurationArt(_) => true
    case IntervalArt(i) => WellFormedInterval(i)
  }
}
