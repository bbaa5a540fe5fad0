/**
  * The production rules of timenlp/time/rules.py that combine or resolve partial times: the
  * am/pm and military-time heuristics, quarter and half past/to, a time of day with a part of
  * day, duration arithmetic, intervals between dates and datetimes, and the latent rules that
  * place a bare day, weekday, month, day of year or part of day in the recent past.
  *
  * A rule's precondition is the predicate its registration requires of its arguments (`isTOD`,
  * `isDate`, ...) together with well-formed field values; a rule that declines to produce a
  * result returns `None`; one whose Python code raises on some input returns `Err` there.
  */
module Rules {
  import opened Wrappers
  import opened Calendar
  import opened Types

  /** Why a rule raises instead of returning. */
  datatype RuleError =
    | NoneCompared   // `None` compared with `<`/`>=`: TypeError
    | NoneArgument   // `datetime(..., minute=None)`: TypeError
    | MissingKey     // dictionary lookup of an absent key: KeyError

  // ---------------------------------------------------------------------------------------
  // _is_valid_military_time, _maybe_apply_am_pm

  /** `hhmm` read as a four-digit number. */
  function HHMM(t: Time): int
    requires t.hour.Some? && t.minute.Some?
  {
    t.hour.value * 100 + t.minute.value
  }

  /**
    * `_is_valid_military_time`: an hour and minute written without separator are taken as a
    * time only if they do not spell the current year or the year three months ahead, and the
    * minute is a multiple of five.
    */
  function IsValidMilitaryTime(ts: DateTime, t: Time): (ok: bool)
    requires Valid(ts) && WellFormed(t)
    ensures ok ==> t.hour.Some? && t.minute.Some? && t.minute.value % 5 == 0
    ensures ok ==> HHMM(t) != ts.year && HHMM(t) != AddMonths(ts, 3).year
    ensures t.hour.Some? && t.minute.Some? && t.minute.value % 5 == 0 && HHMM(t) < ts.year ==> ok
  {
    if t.hour.None? || t.minute.None? then false
    else if HHMM(t) == ts.year then false
    else if HHMM(t) == AddMonths(ts, 3).year then false
    else if t.minute.value % 5 != 0 then false
    else true
  }

  /** Three months ahead of November is already next year: "2023" read in November 2022 is a year. */
  lemma MilitaryTimeYearAhead()
    ensures !IsValidMilitaryTime(DateTime(2022, 11, 1, 9, 0), NoTime.(hour := Some(20), minute := Some(23)))
    ensures !IsValidMilitaryTime(DateTime(2022, 11, 1, 9, 0), NoTime.(hour := Some(20), minute := Some(22)))
    ensures IsValidMilitaryTime(DateTime(2022, 11, 1, 9, 0), NoTime.(hour := Some(20), minute := Some(25)))
  {
  }

  /** ASCII lower-casing of one character, as `str.lower` does on ASCII. */
  function LowerChar(c: char): char {
    if 'A' <= c <= 'Z' then (c as int + 32) as char else c
  }

  /** `s.lower().startswith(c)` for a lower-case letter c. */
  predicate StartsWithLower(s: string, c: char) {
    |s| > 0 && LowerChar(s[0]) == c
  }

  /**
    * `_maybe_apply_am_pm`: without a marker the hour becomes meridiem-latent; "a..." keeps an
    * hour up to 12 and clears the flag; "p..." moves an hour before 12 into the afternoon.
    * An hour that is missing or 0 is left alone, as is a marker that makes no sense (13 am).
    * The Python code sets the flag on its argument in place; its callers build that argument
    * afresh, so returning the updated copy is equivalent.
    */
  function MaybeApplyAmPm(t: Time, ampm: Option<string>): (r: Time)
    requires WellFormed(t)
    ensures WellFormed(r)
  {
    if t.hour.None? || t.hour.value == 0 then t
    else if ampm.None? then t.(meridiemLatent := true)
    else if StartsWithLower(ampm.value, 'a') && t.hour.value <= 12 then t.(meridiemLatent := false)
    else if StartsWithLower(ampm.value, 'p') && t.hour.value < 12 then
      NoTime.(hour := Some(t.hour.value + 12), minute := t.minute)
    else t
  }

  /**
    * The marker never changes the minute or the position on a 12-hour dial, it only ever adds
    * 12 hours (to a morning hour, for "pm"), and only an unmarked nonzero hour ends up latent.
    */
  lemma AmPmKeepsDialPosition(t: Time, ampm: Option<string>)
    requires WellFormed(t) && IsTOD(t) && !t.meridiemLatent
    ensures var r := MaybeApplyAmPm(t, ampm);
      && IsTOD(r) && r.minute == t.minute
      && r.hour.value % 12 == t.hour.value % 12
      && (r.hour.value == t.hour.value || (r.hour.value == t.hour.value + 12 && t.hour.value < 12))
      && (r.hour.value != t.hour.value ==> StartsWithLower(ampm.value, 'p'))
      && (r.meridiemLatent <==> ampm.None? && t.hour.value != 0)
      && (ampm.Some? && StartsWithLower(ampm.value, 'p') && 1 <= t.hour.value < 12 ==>
            r.hour == Some(t.hour.value + 12) && !r.meridiemLatent)
      && (ampm.Some? && StartsWithLower(ampm.value, 'a') && t.hour.value <= 12 ==> r == t)
  {
  }

  /** An hour that is missing or 0 is returned as it came, whatever the marker. */
  lemma AmPmLeavesNoHourAlone(t: Time, ampm: Option<string>)
    requires WellFormed(t) && (t.hour.None? || t.hour == Some(0))
    ensures MaybeApplyAmPm(t, ampm) == t
  {
  }

  /** "12 am" keeps hour 12 (noon on the 24-hour clock), and "0:30" is never latent. */
  lemma AmPmEdgeHours()
    ensures MaybeApplyAmPm(NoTime.(hour := Some(12), minute := Some(0)), Some("am")).hour == Some(12)
    ensures !MaybeApplyAmPm(NoTime.(hour := Some(0), minute := Some(30)), None).meridiemLatent
    ensures MaybeApplyAmPm(NoTime.(hour := Some(5), minute := Some(0)), Some("PM")).hour == Some(17)
  {
  }

  // ---------------------------------------------------------------------------------------
  // Quarter and half past / to

  /** `if t.minute:` — a minute that is set and nonzero stops the rule. */
  predicate HasNonzeroMinute(t: Time) {
    t.minute.Some? && t.minute.value != 0
  }

  /** `Time(hour=h, minute=m, meridiemLatent=latent)`. */
  function Tod(h: int, m: int, latent: bool): Time {
    NoTime.(hour := Some(h), minute := Some(m), meridiemLatent := latent)
  }

  /** "quarter to h": 15 minutes before h o'clock, wrapping from 0:00 to 23:45. */
  function QuarterBefore(t: Time): (r: Option<Time>)
    requires IsTOD(t) && WellFormed(t)
    ensures r.None? <==> HasNonzeroMinute(t)
    ensures r.Some? ==> IsTOD(r.value) && WellFormed(r.value) && r.value.meridiemLatent == t.meridiemLatent
    ensures r.Some? ==> TodClock(r.value) == (TodClock(t) - 15) % MinutesPerDay
  {
    if HasNonzeroMinute(t) then None
    else if t.hour.value > 0 then Some(Tod(t.hour.value - 1, 45, t.meridiemLatent))
    else Some(Tod(23, 45, t.meridiemLatent))
  }

  /** "quarter past h": h:15. */
  function QuarterAfter(t: Time): (r: Option<Time>)
    requires IsTOD(t) && WellFormed(t)
    ensures r.None? <==> HasNonzeroMinute(t)
    ensures r.Some? ==> IsTOD(r.value) && WellFormed(r.value) && r.value.meridiemLatent == t.meridiemLatent
    ensures r.Some? ==> TodClock(r.value) == TodClock(t) + 15
  {
    if HasNonzeroMinute(t) then None
    else Some(Tod(t.hour.value, 15, t.meridiemLatent))
  }

  /** "half to h": 30 minutes before h o'clock, wrapping from 0:00 to 23:30. */
  function HalfBefore(t: Time): (r: Option<Time>)
    requires IsTOD(t) && WellFormed(t)
    ensures r.None? <==> HasNonzeroMinute(t)
    ensures r.Some? ==> IsTOD(r.value) && WellFormed(r.value) && r.value.meridiemLatent == t.meridiemLatent
    ensures r.Some? ==> TodClock(r.value) == (TodClock(t) - 30) % MinutesPerDay
  {
    if HasNonzeroMinute(t) then None
    else if t.hour.value > 0 then Some(Tod(t.hour.value - 1, 30, t.meridiemLatent))
    else Some(Tod(23, 30, t.meridiemLatent))
  }

  /** "half past h": h:30. */
  function HalfAfter(t: Time): (r: Option<Time>)
    requires IsTOD(t) && WellFormed(t)
    ensures r.None? <==> HasNonzeroMinute(t)
    ensures r.Some? ==> IsTOD(r.value) && WellFormed(r.value) && r.value.meridiemLatent == t.meridiemLatent
    ensures r.Some? ==> TodClock(r.value) == TodClock(t) + 30
  {
    if HasNonzeroMinute(t) then None
    else Some(Tod(t.hour.value, 30, t.meridiemLatent))
  }

  /** "a quarter to" and "a quarter past" the same hour are half an hour apart, modulo a day. */
  lemma QuarterToAndPastSpanHalfAnHour(t: Time)
    requires IsTOD(t) && WellFormed(t) && !HasNonzeroMinute(t)
    ensures (TodClock(QuarterAfter(t).value) - TodClock(QuarterBefore(t).value)) % MinutesPerDay == 30
  {
  }

  // ---------------------------------------------------------------------------------------
  // ruleTODPOD, rulePODTOD

  predicate IsPrefix(p: string, s: string) {
    |p| <= |s| && s[..|p|] == p
  }

  /** Python's `sub in s` for strings. */
  predicate Contains(s: string, sub: string)
    decreases |s|
  {
    IsPrefix(sub, s) || (|s| > 0 && Contains(s[1..], sub))
  }

  /** A part of day after noon: its name mentions afternoon, evening, night or "last". */
  predicate IsLatePod(pod: string) {
    Contains(pod, "afternoon") || Contains(pod, "evening") || Contains(pod, "night") || Contains(pod, "last")
  }

  /** A part of day before noon: its name mentions forenoon, morning or "first". */
  predicate IsEarlyPod(pod: string) {
    Contains(pod, "forenoon") || Contains(pod, "morning") || Contains(pod, "first")
  }

  /**
    * `ruleTODPOD`: "3 in the afternoon" is 15:00; an afternoon hour with a morning part of day
    * ("17 in the morning") does not merge; the result keeps the minute and is not latent.
    */
  function TodPod(tod: Time, pod: Time): (r: Option<Time>)
    requires IsTOD(tod) && WellFormed(tod) && IsPOD(pod)
    ensures r.None? <==> tod.hour.value > 12 && IsEarlyPod(pod.pod.value)
    ensures r.Some? ==> IsTOD(r.value) && WellFormed(r.value) && !r.value.meridiemLatent
    ensures r.Some? ==> r.value.minute == tod.minute && r.value.hour.value % 12 == tod.hour.value % 12
    ensures r.Some? && IsLatePod(pod.pod.value) ==> r.value.hour.value >= 12
    ensures r.Some? && IsEarlyPod(pod.pod.value) ==> r.value.hour.value <= 12 || IsLatePod(pod.pod.value)
    ensures r.Some? && !IsLatePod(pod.pod.value) ==> r.value.hour == tod.hour
  {
    var p := pod.pod.value;
    var h := tod.hour.value;
    if h < 12 && IsLatePod(p) then Some(NoTime.(hour := Some(h + 12), minute := tod.minute))
    else if h > 12 && IsEarlyPod(p) then None
    else Some(NoTime.(hour := Some(h), minute := tod.minute))
  }

  /** `rulePODTOD`: the same merge with the part of day written first. */
  function PodTod(pod: Time, tod: Time): (r: Option<Time>)
    requires IsPOD(pod) && IsTOD(tod) && WellFormed(tod)
    ensures r == TodPod(tod, pod)
  {
    TodPod(tod, pod)
  }

  lemma TodPodExamples()
    ensures TodPod(NoTime.(hour := Some(3)), NoTime.(pod := Some("afternoon"))) == Some(NoTime.(hour := Some(15)))
    ensures TodPod(NoTime.(hour := Some(17)), NoTime.(pod := Some("morning"))).None?
  {
    assert IsPrefix("afternoon", "afternoon");
    assert IsPrefix("morning", "morning");
  }

  // ---------------------------------------------------------------------------------------
  // Durations

  /** Minutes in one unit, for the units of fixed length. */
  function UnitMinutes(u: DurationUnit): Option<int> {
    match u
    case Minute => Some(1)
    case Hour => Some(60)
    case Day => Some(1440)
    case Week => Some(10080)
    case Month => None
  }

  /** The length of a duration in minutes; months have no fixed length. */
  function DurationMinutes(d: Duration): Option<int> {
    match UnitMinutes(d.unit)
    case Some(k) => Some(d.value * k)
    case None => None
  }

  /**
    * `ruleDurationDuration`: "1 day 3 hours", "2 days 10 minutes", "1 hour 20 minutes" merge
    * into the finer unit; any other pair does not merge.
    */
  function DurationDuration(d1: Duration, d2: Duration): (r: Option<Duration>)
    ensures r.Some? <==> (d1.unit == Day && (d2.unit == Hour || d2.unit == Minute)) || (d1.unit == Hour && d2.unit == Minute)
    ensures r.Some? ==> r.value.unit == d2.unit
    ensures r.Some? ==> DurationMinutes(r.value).value == DurationMinutes(d1).value + DurationMinutes(d2).value
  {
    if d1.unit == Day && (d2.unit == Hour || d2.unit == Minute) then
      if d2.unit == Hour then Some(Duration(d1.value * 24 + d2.value, Hour))
      else Some(Duration(d1.value * 24 * 60 + d2.value, Minute))
    else if d1.unit == Hour && d2.unit == Minute then Some(Duration(d1.value * 60 + d2.value, Minute))
    else None
  }

  /** `ruleDurationAndHalf`: "2 hours and a half" is 150 minutes, "1 day and a half" 36 hours. */
  function DurationAndHalf(d: Duration): (r: Option<Duration>)
    ensures r.Some? <==> d.unit == Hour || d.unit == Day
    ensures r.Some? ==> r.value.unit == (if d.unit == Hour then Minute else Hour)
    ensures r.Some? ==> 2 * DurationMinutes(r.value).value == 2 * DurationMinutes(d).value + UnitMinutes(d.unit).value
  {
    if d.unit == Hour then Some(Duration(d.value * 60 + 30, Minute))
    else if d.unit == Day then Some(Duration(d.value * 24 + 12, Hour))
    else None
  }

  /** `_duration_to_relativedelta`. */
  function DurationToDelta(d: Duration): RelativeDelta {
    match d.unit
    case Day => RelativeDelta(0, d.value, 0, 0)
    case Week => RelativeDelta(0, 7 * d.value, 0, 0)
    case Month => RelativeDelta(d.value, 0, 0, 0)
    case Hour => RelativeDelta(0, 0, d.value, 0)
    case Minute => RelativeDelta(0, 0, 0, d.value)
  }

  /**
    * Adding the delta of a fixed-length duration moves a datetime by the duration's length;
    * adding that of a month count moves its month by that count and clamps the day.
    */
  lemma DurationDeltaMeaning(t: DateTime, d: Duration)
    requires Valid(t)
    ensures var r := ApplyDelta(t, DurationToDelta(d));
      && (DurationMinutes(d).Some? ==> Minutes(r) == Minutes(t) + DurationMinutes(d).value)
      && (d.unit == Month ==>
            MonthIndex(r) == MonthIndex(t) + d.value && r.day == Min(t.day, DaysInMonth(r.year, r.month))
            && r.hour == t.hour && r.minute == t.minute)
  {
    var delta := DurationToDelta(d);
    var m := AddMonths(t, delta.months);
    AddDaysMinutes(m, delta.days);
    if d.unit != Month {
      assert m == t;
    } else {
      assert AddDays(m, 0) == m;
      assert AddMinutes(m, 0) == m;
    }
  }

  /** `ruleDurationAgo`: `ts - delta`, as a full datetime. */
  function DurationAgo(ts: DateTime, d: Duration): (r: Time)
    requires Valid(ts)
    ensures HasDate(r) && WellFormed(r)
  {
    FromDateTime(ApplyDelta(ts, Negate(DurationToDelta(d))))
  }

  /** "5 days ago" is exactly five days before `ts`; "2 months ago" is two months back, clamped. */
  lemma DurationAgoMeaning(ts: DateTime, d: Duration)
    requires Valid(ts)
    ensures DurationMinutes(d).Some? ==> Minutes(Dt(DurationAgo(ts, d))) == Minutes(ts) - DurationMinutes(d).value
    ensures d.unit == Month ==> MonthIndex(Dt(DurationAgo(ts, d))) == MonthIndex(ts) - d.value
    ensures d.unit == Month ==> var r := Dt(DurationAgo(ts, d));
      r.day == Min(ts.day, DaysInMonth(r.year, r.month)) && r.hour == ts.hour && r.minute == ts.minute
  {
    if d.unit == Month {
      DurationAgoMonths(ts, d);
    } else {
      DurationAgoFixed(ts, d);
    }
  }

  /** A fixed-length duration ago lies exactly its length before `ts`. */
  lemma DurationAgoFixed(ts: DateTime, d: Duration)
    requires Valid(ts) && d.unit != Month
    ensures DurationMinutes(d).Some? && Minutes(Dt(DurationAgo(ts, d))) == Minutes(ts) - DurationMinutes(d).value
  {
    var back := Duration(-d.value, d.unit);
    DurationAgoIsDelta(ts, d);
    DurationDeltaMeaning(ts, back);
    NegatedDurationMinutes(d);
  }

  /** Negating a fixed-length duration negates its length. */
  lemma NegatedDurationMinutes(d: Duration)
    requires d.unit != Month
    ensures DurationMinutes(d).Some? && DurationMinutes(Duration(-d.value, d.unit)).Some?
    ensures DurationMinutes(Duration(-d.value, d.unit)).value == -DurationMinutes(d).value
  {
    var k := UnitMinutes(d.unit).value;
    assert (-d.value) * k == -(d.value * k);
  }

  /** A number of months ago moves the month index back, clamps the day and keeps the clock. */
  lemma DurationAgoMonths(ts: DateTime, d: Duration)
    requires Valid(ts) && d.unit == Month
    ensures var r := Dt(DurationAgo(ts, d));
      && MonthIndex(r) == MonthIndex(ts) - d.value
      && r.day == Min(ts.day, DaysInMonth(r.year, r.month)) && r.hour == ts.hour && r.minute == ts.minute
  {
    DurationAgoIsDelta(ts, d);
    DurationDeltaMeaning(ts, Duration(-d.value, d.unit));
  }

  /** "d ago" applies the relativedelta of the negated duration. */
  lemma DurationAgoIsDelta(ts: DateTime, d: Duration)
    requires Valid(ts)
    ensures Dt(DurationAgo(ts, d)) == ApplyDelta(ts, DurationToDelta(Duration(-d.value, d.unit)))
  {
    assert Negate(DurationToDelta(d)) == DurationToDelta(Duration(-d.value, d.unit));
  }

  // ---------------------------------------------------------------------------------------
  // Intervals between dates and datetimes

  /** `ruleDateDate`: an interval between two dates exists only when the first is strictly earlier. */
  function DateDate(d1: Time, d2: Time): (r: Option<Interval>)
    requires IsDate(d1) && IsDate(d2) && WellFormed(d1) && WellFormed(d2)
    ensures r.Some? <==> DateBefore(Dt(d1), Dt(d2))
    ensures r.Some? ==> r.value == Interval(Some(d1), Some(d2))
  {
    if d1.year.value > d2.year.value then None
    else if d1.year == d2.year && d1.month.value > d2.month.value then None
    else if d1.year == d2.year && d1.month == d2.month && d1.day.value >= d2.day.value then None
    else Some(Interval(Some(d1), Some(d2)))
  }

  /**
    * `ruleDOMDate`: "5th to April 10, 2022" — the day of month takes the year and month of the
    * date, and must come strictly before it; the start is then a real date.
    */
  function DomDate(d1: Time, d2: Time): (r: Option<Interval>)
    requires IsDOM(d1) && IsDate(d2) && WellFormed(d1) && WellFormed(d2)
    ensures r.Some? <==> d1.day.value < d2.day.value
    ensures r.Some? ==> r.value.tTo == Some(d2) && r.value.tFrom.Some?
    ensures r.Some? ==> var f := r.value.tFrom.value;
      IsDate(f) && WellFormed(f) && f.year == d2.year && f.month == d2.month && f.day == d1.day
      && DateBefore(Dt(f), Dt(d2))
  {
    if d1.day.value >= d2.day.value then None
    else Some(Interval(Some(MakeDate(d2.year.value, d2.month.value, d1.day.value)), Some(d2)))
  }

  /**
    * `ruleDateDOM`: "January 15 to 24" — the day of month takes the year and month of the date
    * and must come strictly after it. The end is a real date exactly when the month has that
    * many days: "February 10 to 30" builds a 30 February.
    */
  function DateDom(d1: Time, d2: Time): (r: Option<Interval>)
    requires IsDate(d1) && IsDOM(d2) && WellFormed(d1) && WellFormed(d2)
    ensures r.Some? <==> d1.day.value < d2.day.value
    ensures r.Some? ==> r.value.tFrom == Some(d1) && r.value.tTo.Some?
    ensures r.Some? ==> var t := r.value.tTo.value;
      IsDate(t) && t.year == d1.year && t.month == d1.month && t.day == d2.day
      && (WellFormed(t) <==> d2.day.value <= DaysInMonth(d1.year.value, d1.month.value))
  {
    if d1.day.value >= d2.day.value then None
    else Some(Interval(Some(d1), Some(MakeDate(d1.year.value, d1.month.value, d2.day.value))))
  }

  /**
    * `ruleDateTimeDateTime`: an interval between two datetimes exists only when the first is
    * strictly earlier. With equal date and hour the minutes are compared, which raises when
    * either is missing.
    */
  function DateTimeDateTime(d1: Time, d2: Time): (r: Result<Option<Interval>, RuleError>)
    requires IsDateTime(d1) && IsDateTime(d2) && WellFormed(d1) && WellFormed(d2)
    ensures r.Err? <==> SameDate(Dt(d1), Dt(d2)) && d1.hour == d2.hour && (d1.minute.None? || d2.minute.None?)
    ensures r.Ok? ==> (r.value.Some? <==> Before(Dt(d1), Dt(d2)))
    ensures r.Ok? && r.value.Some? ==> r.value.value == Interval(Some(d1), Some(d2))
  {
    var y1, m1, dd1, h1 := d1.year.value, d1.month.value, d1.day.value, d1.hour.value;
    var y2, m2, dd2, h2 := d2.year.value, d2.month.value, d2.day.value, d2.hour.value;
    if y1 > y2 then Ok(None)
    else if y1 == y2 && m1 > m2 then Ok(None)
    else if y1 == y2 && m1 == m2 && dd1 > dd2 then Ok(None)
    else if y1 == y2 && m1 == m2 && dd1 == dd2 && h1 > h2 then Ok(None)
    else if y1 == y2 && m1 == m2 && dd1 == dd2 && h1 == h2 then
      if d1.minute.None? || d2.minute.None? then Err(NoneCompared)
      else if d1.minute.value >= d2.minute.value then Ok(None)
      else Ok(Some(Interval(Some(d1), Some(d2))))
    else Ok(Some(Interval(Some(d1), Some(d2))))
  }

  /** A bound `ruleDateInterval` accepts: missing, a bare time of day or a bare part of day. */
  predicate DateIntervalBound(b: Option<Time>) {
    b.None? || IsTOD(b.value) || IsPOD(b.value)
  }

  /** The bound placed on the date: date fields from `d`, hour, minute and part of day from `b`. */
  function OnDate(d: Time, b: Time): Time {
    NoTime.(year := d.year, month := d.month, day := d.day, hour := b.hour, minute := b.minute, pod := b.pod)
  }

  /**
    * `ruleDateInterval`: "Nov 13, 11:30 pm - 3:35 am" — both bounds go on the date, and an end
    * not after the start wraps to the next day (taking hour and minute of its `dt`).
    */
  function DateInterval(d: Time, i: Interval): (r: Option<Interval>)
    requires IsDate(d) && WellFormed(d) && WellFormedInterval(i)
    ensures r.None? <==> !(DateIntervalBound(i.tFrom) && DateIntervalBound(i.tTo))
    ensures r.Some? ==> (r.value.tFrom.Some? <==> i.tFrom.Some?) && (r.value.tTo.Some? <==> i.tTo.Some?)
    ensures r.Some? ==> WellFormedInterval(r.value)
    ensures r.Some? && i.tFrom.Some? ==> r.value.tFrom == Some(OnDate(d, i.tFrom.value))
    ensures r.Some? && i.tTo.Some? ==> HasDate(r.value.tTo.value) && r.value.tTo.value.pod == i.tTo.value.pod
    ensures r.Some? && i.tFrom.None? && i.tTo.Some? ==> r.value.tTo == Some(OnDate(d, i.tTo.value))
    ensures r.Some? && i.tFrom.Some? && i.tTo.Some? ==>
      var f0, t0 := Dt(OnDate(d, i.tFrom.value)), Dt(OnDate(d, i.tTo.value));
      var e := Dt(r.value.tTo.value);
      && e.hour == t0.hour && e.minute == t0.minute
      && Ordinal(e) == Ordinal(t0) + (if AtOrBefore(t0, f0) then 1 else 0)
      && (!AtOrBefore(t0, f0) ==> r.value.tTo == Some(OnDate(d, i.tTo.value)))
  {
    if !(DateIntervalBound(i.tFrom) && DateIntervalBound(i.tTo)) then None
    else
      var tFrom := if i.tFrom.Some? then Some(OnDate(d, i.tFrom.value)) else None;
      var tTo := if i.tTo.Some? then Some(OnDate(d, i.tTo.value)) else None;
      if tFrom.Some? && tTo.Some? && AtOrBefore(Dt(tTo.value), Dt(tFrom.value)) then
        var next := AddDays(Dt(tTo.value), 1);
        Some(Interval(tFrom, Some(FromDateTime(next).(pod := tTo.value.pod))))
      else Some(Interval(tFrom, tTo))
  }

  /**
    * With both bounds present, the interval `ruleDateInterval` builds runs forward: the start
    * is on the date, and the end is on the date and later or on the next day and not later
    * on the clock.
    */
  lemma DateIntervalRunsForward(d: Time, i: Interval)
    requires IsDate(d) && WellFormed(d) && WellFormedInterval(i)
    requires DateIntervalBound(i.tFrom) && DateIntervalBound(i.tTo) && i.tFrom.Some? && i.tTo.Some?
    ensures var r := DateInterval(d, i).value;
      var f, t := Dt(r.tFrom.value), Dt(r.tTo.value);
      && Before(f, t)
      && SameDate(f, Dt(d))
      && (SameDate(t, Dt(d)) || Ordinal(t) == Ordinal(Dt(d)) + 1)
      && Minutes(t) - Minutes(f) <= MinutesPerDay
      && t.hour == HourOr0(i.tTo.value) && t.minute == MinuteOr0(i.tTo.value)
  {
    var f0, t0 := Dt(OnDate(d, i.tFrom.value)), Dt(OnDate(d, i.tTo.value));
    var r := DateInterval(d, i).value;
    assert Dt(r.tFrom.value) == f0;
    assert Dt(r.tTo.value) == WrapEnd(f0, t0);
    WrapEndForward(f0, t0);
  }

  /** The end of a same-day pair, moved to the next day when it is not after the start. */
  function WrapEnd(f: DateTime, t: DateTime): (r: DateTime)
    requires Valid(f) && Valid(t)
    ensures Valid(r) && r.hour == t.hour && r.minute == t.minute
    ensures Ordinal(r) == Ordinal(t) + (if AtOrBefore(t, f) then 1 else 0)
  {
    if AtOrBefore(t, f) then AddDays(t, 1) else t
  }

  lemma WrapEndForward(f: DateTime, t: DateTime)
    requires Valid(f) && Valid(t) && SameDate(f, t)
    ensures var r := WrapEnd(f, t);
      && Before(f, r)
      && r.hour == t.hour && r.minute == t.minute
      && (SameDate(r, f) <==> Before(f, t))
      && (SameDate(r, f) || Ordinal(r) == Ordinal(f) + 1)
      && Minutes(r) - Minutes(f) <= MinutesPerDay
  {
    MinutesOrder(t, f);
    AddDaysMinutes(t, 1);
    MinutesOrder(f, WrapEnd(f, t));
  }

  /** `ruleDateInterval` gives a part-of-day end that wraps an explicit midnight. */
  lemma DateIntervalWrapsPodToMidnight()
    ensures var d := MakeDate(2022, 3, 7);
      var i := Interval(Some(NoTime.(hour := Some(23), minute := Some(0))), Some(NoTime.(pod := Some("morning"))));
      DateInterval(d, i) == Some(Interval(Some(NoTime.(year := Some(2022), month := Some(3), day := Some(7), hour := Some(23), minute := Some(0))),
        Some(NoTime.(year := Some(2022), month := Some(3), day := Some(8), hour := Some(0), minute := Some(0), pod := Some("morning")))))
  {
    var t0 := DateTime(2022, 3, 7, 0, 0);
    assert AddDays(t0, 1) == DateTime(2022, 3, 8, 0, 0);
  }

  /**
    * `ruleIntervalWithDateCue`: both times go on the date; a reversed pair is repaired by
    * taking a latent afternoon start 12 hours back, or else a latent morning end 12 hours
    * forward. A missing minute makes the `datetime` constructor raise.
    */
  function IntervalWithDateCue(i: Interval, d: Time): (r: Result<Interval, RuleError>)
    requires IsTimeInterval(i) && WellFormedInterval(i) && IsDate(d) && WellFormed(d)
    ensures r.Err? <==> i.tFrom.value.minute.None? || i.tTo.value.minute.None?
  {
    var f, t := i.tFrom.value, i.tTo.value;
    if f.minute.None? || t.minute.None? then Err(NoneArgument)
    else
      var dtFrom := DateTime(d.year.value, d.month.value, d.day.value, f.hour.value, f.minute.value);
      var dtTo := DateTime(d.year.value, d.month.value, d.day.value, t.hour.value, t.minute.value);
      var repaired := RepairOnCue(f, t, dtFrom, dtTo);
      Ok(Interval(Some(FromDateTime(repaired.0)), Some(FromDateTime(repaired.1))))
  }

  /** Lines 660-664: the reversed-pair repair of `ruleIntervalWithDateCue`. */
  function RepairOnCue(f: Time, t: Time, dtFrom: DateTime, dtTo: DateTime): (r: (DateTime, DateTime))
    requires IsTOD(f) && IsTOD(t) && Valid(dtFrom) && Valid(dtTo)
    requires dtFrom.hour == f.hour.value && dtTo.hour == t.hour.value
    ensures Valid(r.0) && Valid(r.1)
    ensures SameDate(r.0, dtFrom) && SameDate(r.1, dtTo) && r.0.minute == dtFrom.minute && r.1.minute == dtTo.minute
    ensures r.0.hour == dtFrom.hour || (r.0.hour == dtFrom.hour - 12 && f.meridiemLatent && f.hour.value > 12)
    ensures r.1.hour == dtTo.hour || (r.1.hour == dtTo.hour + 12 && t.meridiemLatent && t.hour.value < 12)
    ensures r.0 == dtFrom || r.1 == dtTo
    ensures !Before(dtTo, dtFrom) ==> r == (dtFrom, dtTo)
    ensures Before(dtTo, dtFrom) && f.meridiemLatent && f.hour.value > 12 ==>
      r.0.hour == dtFrom.hour - 12 && r.1 == dtTo
    ensures Before(dtTo, dtFrom) && !(f.meridiemLatent && f.hour.value > 12) && t.meridiemLatent && t.hour.value < 12 ==>
      r.0 == dtFrom && r.1.hour == dtTo.hour + 12
    ensures Before(dtTo, dtFrom) && !(f.meridiemLatent && f.hour.value > 12) && !(t.meridiemLatent && t.hour.value < 12) ==>
      r == (dtFrom, dtTo)
  {
    if Before(dtTo, dtFrom) then
      if f.meridiemLatent && f.hour.value > 12 then
        var a := AddHours(dtFrom, -12);
        SameDayShift(dtFrom, a, -HalfDayMinutes);
        (a, dtTo)
      else if t.meridiemLatent && t.hour.value < 12 then
        var b := AddHours(dtTo, 12);
        SameDayShift(dtTo, b, HalfDayMinutes);
        (dtFrom, b)
      else (dtFrom, dtTo)
    else (dtFrom, dtTo)
  }

  /**
    * Both bounds stay on the cue date and keep their minutes; only a reversed pair is touched,
    * and then at most one hour moves, by 12, with the start checked first.
    */
  lemma IntervalWithDateCueStaysOnDate(i: Interval, d: Time)
    requires IsTimeInterval(i) && WellFormedInterval(i) && IsDate(d) && WellFormed(d)
    requires i.tFrom.value.minute.Some? && i.tTo.value.minute.Some?
    ensures var r := IntervalWithDateCue(i, d).value;
      var f, t := i.tFrom.value, i.tTo.value;
      var rf, rt := r.tFrom.value, r.tTo.value;
      && HasDate(rf) && HasDate(rt)
      && SameDate(Dt(rf), Dt(d)) && SameDate(Dt(rt), Dt(d))
      && rf.minute == f.minute && rt.minute == t.minute
      && (rf.hour == f.hour || (rf.hour.value == f.hour.value - 12 && f.meridiemLatent && f.hour.value > 12))
      && (rt.hour == t.hour || (rt.hour.value == t.hour.value + 12 && t.meridiemLatent && t.hour.value < 12))
      && (rf.hour == f.hour || rt.hour == t.hour)
      && (TodClock(t) >= TodClock(f) ==> rf.hour == f.hour && rt.hour == t.hour)
      && (TodClock(t) < TodClock(f) && f.meridiemLatent && f.hour.value > 12 ==>
            rf.hour.value == f.hour.value - 12 && rt.hour == t.hour)
      && (TodClock(t) < TodClock(f) && !(f.meridiemLatent && f.hour.value > 12) && t.meridiemLatent && t.hour.value < 12 ==>
            rf.hour == f.hour && rt.hour.value == t.hour.value + 12)
      && (TodClock(t) < TodClock(f) && !(f.meridiemLatent && f.hour.value > 12) && !(t.meridiemLatent && t.hour.value < 12) ==>
            rf.hour == f.hour && rt.hour == t.hour)
  {
  }

  const HalfDayMinutes := 720

  /** A shift that keeps the clock within the day keeps the date. */
  lemma SameDayShift(t: DateTime, r: DateTime, k: int)
    requires Valid(t) && Valid(r) && Minutes(r) == Minutes(t) + k
    requires 0 <= t.hour * MinutesPerHour + t.minute + k < MinutesPerDay
    ensures SameDate(r, t) && r.hour * MinutesPerHour + r.minute == t.hour * MinutesPerHour + t.minute + k
  {
    assert Ordinal(r) == Ordinal(t);
    OrdinalInjective(r, t);
  }

  // ---------------------------------------------------------------------------------------
  // Latent dates: the most recent past reading

  /** `ruleLatentDOM`'s datetime: this month's day d if that is before `ts`, else last month's. */
  function LatentDomDate(ts: DateTime, d: int): (dm: DateTime)
    requires Valid(ts) && 1 <= d <= 31
    ensures Valid(dm)
  {
    var dm := ReplaceDay(ts, d);
    if AtOrBefore(ts, dm) then AddMonths(dm, -1) else dm
  }

  /**
    * The resolved day is strictly before the day of `ts`, in its month or the month before;
    * it stays in the month of `ts` exactly when the day, clamped to that month, is earlier.
    */
  lemma LatentDomInPast(ts: DateTime, d: int)
    requires Valid(ts) && 1 <= d <= 31
    ensures var dm := LatentDomDate(ts, d);
      && DateBefore(dm, ts)
      && dm.day <= d
      && dm.day == Min(Min(d, DaysInMonth(ts.year, ts.month)), DaysInMonth(dm.year, dm.month))
      && (MonthIndex(dm) == MonthIndex(ts) <==> Min(d, DaysInMonth(ts.year, ts.month)) < ts.day)
      && (MonthIndex(dm) != MonthIndex(ts) ==> MonthIndex(dm) == MonthIndex(ts) - 1)
  {
    var dm := LatentDomDate(ts, d);
    MonthIndexOrder(dm, ts);
  }

  /**
    * Clamping happens twice: on 10 February "the 30th" is first clamped to 28 February, and
    * that day then moves back a month as the 28th, not the 30th, of January.
    */
  lemma LatentDomClampsTwice()
    ensures LatentDomDate(DateTime(2022, 2, 10, 9, 0), 30) == DateTime(2022, 1, 28, 9, 0)
    ensures LatentDomDateCorrected(DateTime(2022, 2, 10, 9, 0), 30) == DateTime(2022, 1, 30, 9, 0)
  {
  }

  /**
    * The most recent past day numbered d (clamped to its month's length), which is what
    * `relativedelta(months=-1, day=d)` gives in the second case.
    */
  function LatentDomDateCorrected(ts: DateTime, d: int): (dm: DateTime)
    requires Valid(ts) && 1 <= d <= 31
    ensures Valid(dm)
  {
    if Min(d, DaysInMonth(ts.year, ts.month)) < ts.day then ReplaceDay(ts, d)
    else ReplaceDay(AddMonths(ts, -1), d)
  }

  /**
    * The corrected resolution is strictly before `ts`, names day d clamped to its own month,
    * and is the latest such day: it is in the month of `ts` whenever that month's day d is
    * already past.
    */
  lemma LatentDomCorrectedIsMostRecent(ts: DateTime, d: int)
    requires Valid(ts) && 1 <= d <= 31
    ensures var dm := LatentDomDateCorrected(ts, d);
      && DateBefore(dm, ts)
      && dm.day == Min(d, DaysInMonth(dm.year, dm.month))
      && (MonthIndex(dm) == MonthIndex(ts) <==> Min(d, DaysInMonth(ts.year, ts.month)) < ts.day)
      && (MonthIndex(dm) != MonthIndex(ts) ==> MonthIndex(dm) == MonthIndex(ts) - 1)
  {
    var dm := LatentDomDateCorrected(ts, d);
    MonthIndexOrder(dm, ts);
  }

  /** `ruleLatentDOM` as written: "the 5th" is the 5th of this month if already past, else of last month. */
  function LatentDom(ts: DateTime, dom: Time): (r: Time)
    requires Valid(ts) && IsDOM(dom) && WellFormed(dom)
    ensures IsDate(r) && WellFormed(r) && r.day.value <= dom.day.value
    ensures DateBefore(Dt(r), ts)
  {
    LatentDomInPast(ts, dom.day.value);
    DateFromDateTime(LatentDomDate(ts, dom.day.value))
  }

  /** `ruleLatentDOM` with the intended single clamp: the most recent past day numbered d. */
  function LatentDomCorrected(ts: DateTime, dom: Time): (r: Time)
    requires Valid(ts) && IsDOM(dom) && WellFormed(dom)
    ensures IsDate(r) && WellFormed(r) && DateBefore(Dt(r), ts)
    ensures r.day.value == Min(dom.day.value, DaysInMonth(r.year.value, r.month.value))
  {
    LatentDomCorrectedIsMostRecent(ts, dom.day.value);
    DateFromDateTime(LatentDomDateCorrected(ts, dom.day.value))
  }

  /** The two agree except where the second clamp bites. */
  lemma LatentDomCorrectedAgrees(ts: DateTime, d: int)
    requires Valid(ts) && 1 <= d <= 31
    requires d <= DaysInMonth(ts.year, ts.month)
    ensures LatentDomDateCorrected(ts, d) == LatentDomDate(ts, d)
  {
  }

  /** `ruleLatentDOW`'s datetime: the next such weekday, a week earlier if more than a day ahead. */
  function LatentDowDate(ts: DateTime, w: int): (dm: DateTime)
    requires Valid(ts) && 0 <= w < 7
    ensures Valid(dm)
  {
    var dm := NextWeekday(ts, w);
    if Before(AddDays(ts, 1), dm) then AddWeeks(dm, -1) else dm
  }

  /** `ruleLatentDOW`: "Monday" is the Monday among the five days before `ts` to the day after. */
  function LatentDow(ts: DateTime, dow: Time): (r: Time)
    requires Valid(ts) && IsDOW(dow) && WellFormed(dow)
    ensures IsDate(r) && WellFormed(r)
  {
    DateFromDateTime(LatentDowDate(ts, dow.dow.value))
  }

  /** The resolved day falls on the weekday and within five days before to one day after `ts`. */
  lemma LatentDowWindow(ts: DateTime, w: int)
    requires Valid(ts) && 0 <= w < 7
    ensures var dm := LatentDowDate(ts, w);
      Weekday(dm) == w && -5 <= Ordinal(dm) - Ordinal(ts) <= 1
  {
    var dm := NextWeekday(ts, w);
    var next := AddDays(ts, 1);
    AddDaysMinutes(ts, 1);
    MinutesOrder(next, dm);
    OrdinalWeekdayPeriodic(Ordinal(dm), -1);
  }

  /** ... and it is the only such day in that seven-day window. */
  lemma LatentDowUnique(ts: DateTime, w: int, x: DateTime)
    requires Valid(ts) && 0 <= w < 7 && Valid(x)
    requires Weekday(x) == w && -5 <= Ordinal(x) - Ordinal(ts) <= 1
    ensures SameDate(x, LatentDowDate(ts, w))
  {
    var dm := LatentDowDate(ts, w);
    LatentDowWindow(ts, w);
    var k := Ordinal(x) - Ordinal(dm);
    assert -6 <= k <= 6;
    WeekdayDistance(Ordinal(dm), k);
    OrdinalInjective(x, dm);
  }

  /** Two day numbers less than a week apart with the same weekday are equal. */
  lemma WeekdayDistance(o: int, k: int)
    requires -6 <= k <= 6 && OrdinalWeekday(o + k) == OrdinalWeekday(o)
    ensures k == 0
  {
  }

  /** `YEAR_LATENT_TOLERANCE_FUTURE`: a month. */
  function Tolerance(ts: DateTime): (l: DateTime)
    requires Valid(ts)
    ensures Valid(l)
  {
    AddMonths(ts, 1)
  }

  /** `ruleLatentMonth`'s datetime. */
  function LatentMonthDate(ts: DateTime, m: int): (dm: DateTime)
    requires Valid(ts) && 1 <= m <= 12
    ensures Valid(dm)
  {
    var dm := ReplaceMonth(ts, m);
    if AtOrBefore(Tolerance(ts), dm) then AddYears(dm, -1)
    else if Before(AddYears(dm, 1), Tolerance(ts)) then AddYears(dm, 1)
    else dm
  }

  /** `ruleLatentMonth`: "March" is the last March up to this month. */
  function LatentMonth(ts: DateTime, month: Time): (r: Time)
    requires Valid(ts) && IsMonth(month) && WellFormed(month)
    ensures IsYearAndMonth(r) && r.month == month.month
  {
    var dm := LatentMonthDate(ts, month.month.value);
    NoTime.(year := Some(dm.year), month := Some(dm.month))
  }

  /**
    * The `elif` branch of `ruleLatentMonth` never fires: month m of the following year is never
    * before `ts` plus one month. So a month is only ever moved back.
    */
  lemma LatentMonthNeverMovesForward(ts: DateTime, m: int)
    requires Valid(ts) && 1 <= m <= 12
    ensures !Before(AddYears(ReplaceMonth(ts, m), 1), Tolerance(ts))
    ensures LatentMonthDate(ts, m) == ReplaceMonth(ts, m) || LatentMonthDate(ts, m) == AddYears(ReplaceMonth(ts, m), -1)
  {
    var a := AddYears(ReplaceMonth(ts, m), 1);
    var l := Tolerance(ts);
    MonthIndexOrder(a, l);
    if MonthIndex(a) == MonthIndex(l) {
      assert m == 1 && ts.month == 12;
      assert a.day == ts.day && l.day == ts.day;
    }
  }

  /** The resolved month is the month m among the twelve months ending with that of `ts`. */
  lemma LatentMonthWindow(ts: DateTime, m: int)
    requires Valid(ts) && 1 <= m <= 12
    ensures var dm := LatentMonthDate(ts, m);
      dm.month == m && MonthIndex(ts) - 11 <= MonthIndex(dm) <= MonthIndex(ts)
  {
    var dm := ReplaceMonth(ts, m);
    var l := Tolerance(ts);
    var back, fwd := AddYears(dm, -1), AddYears(dm, 1);
    MonthIndexOrder(l, dm);
    MonthIndexOrder(fwd, l);
    if MonthIndex(dm) == MonthIndex(l) {
      assert dm == l;
    }
    if MonthIndex(fwd) == MonthIndex(l) {
      assert fwd.day == l.day;
    }
  }

  /** `_ruleLatentDOY`'s datetime. */
  function LatentDoyDate(ts: DateTime, m: int, d: int): (dm: DateTime)
    requires Valid(ts) && 1 <= m <= 12 && 1 <= d <= 31
    ensures Valid(dm)
  {
    var dm := ReplaceMonthDay(ts, m, d);
    if Before(Tolerance(ts), dm) then AddYears(dm, -1)
    else if Before(AddYears(dm, 1), Tolerance(ts)) then AddYears(dm, 1)
    else dm
  }

  /** `_ruleLatentDOY` / `ruleLatentDOY`: "March 5" is the last March 5 up to a month ahead. */
  function LatentDoy(ts: DateTime, doy: Time): (r: Time)
    requires Valid(ts) && IsDOY(doy) && WellFormed(doy)
    ensures IsDate(r) && WellFormed(r) && r.month == doy.month
  {
    DateFromDateTime(LatentDoyDate(ts, doy.month.value, doy.day.value))
  }

  /**
    * The resolved day is not after `ts` plus a month, lies in the twelve months ending with
    * that month, and is the requested day clamped first to month m of `ts`'s year and then to
    * month m of the year it lands in.
    */
  lemma LatentDoyWindow(ts: DateTime, m: int, d: int)
    requires Valid(ts) && 1 <= m <= 12 && 1 <= d <= 31
    ensures var dm := LatentDoyDate(ts, m, d);
      var l := Tolerance(ts);
      && dm.month == m
      && AtOrBefore(dm, l)
      && MonthIndex(l) - 12 <= MonthIndex(dm) <= MonthIndex(l)
      && dm.day <= d
      && (d <= DaysInMonth(ts.year, m) && d <= DaysInMonth(dm.year, m) ==> dm.day == d)
      && dm.day == Min(Min(d, DaysInMonth(ts.year, m)), DaysInMonth(dm.year, m))
      && AtOrBefore(l, DateTime(dm.year + 1, m, Min(d, DaysInMonth(dm.year + 1, m)), ts.hour, ts.minute))
      && (DateTime(dm.year + 1, m, Min(d, DaysInMonth(dm.year + 1, m)), ts.hour, ts.minute) == l ==>
            dm == ReplaceMonthDay(ts, m, d))
  {
    var dm := ReplaceMonthDay(ts, m, d);
    var l := Tolerance(ts);
    var back, fwd := AddYears(dm, -1), AddYears(dm, 1);
    MonthIndexOrder(l, dm);
    MonthIndexOrder(fwd, l);
    MonthIndexOrder(back, l);
  }

  /**
    * A leap day clamps on the way back: on 2024-01-10 09:00, "Feb 29" is 2024-02-29, more than
    * a month ahead, and one year back it becomes 2023-02-28.
    */
  lemma LatentDoyClampsLeapDay()
    ensures LatentDoyDate(DateTime(2024, 1, 10, 9, 0), 2, 29) == DateTime(2023, 2, 28, 9, 0)
  {
  }

  /**
    * At the boundary the older year is kept: on 2022-12-05 09:00, next year's 5 January equals
    * `ts` plus one month exactly, and the strict `<` of the `elif` leaves 2022-01-05.
    */
  lemma LatentDoyBoundaryKeepsOlderYear()
    ensures LatentDoyDate(DateTime(2022, 12, 5, 9, 0), 1, 5) == DateTime(2022, 1, 5, 9, 0)
  {
  }

  /** The `elif` does move forward: on 2022-12-20 09:00, next year's 5 January is before `ts` plus one month. */
  lemma LatentDoyMovesForward()
    ensures LatentDoyDate(DateTime(2022, 12, 20, 9, 0), 1, 5) == DateTime(2023, 1, 5, 9, 0)
  {
  }

  /** The part-of-day hours `pod_hours` gives are hours of the day. */
  predicate PodHoursValid(podHours: map<string, (int, int)>) {
    forall p :: p in podHours ==> 0 <= podHours[p].0 < 24
  }

  /** `ruleLatentPOD`'s datetime: the most recent start of the part of day strictly before `ts`. */
  function LatentPodDate(ts: DateTime, h: int): (dm: DateTime)
    requires Valid(ts) && 0 <= h < 24
    ensures Valid(dm)
  {
    var t := ReplaceHM(ts, Some(h), 0);
    if AtOrBefore(ts, t) then AddDays(t, -1) else t
  }

  /**
    * `ruleLatentPOD`: "morning" is the date of the last morning started before `ts`. The
    * part of day's start hour comes from `pod_hours`; a name missing there raises.
    */
  function LatentPod(ts: DateTime, pod: Time, podHours: map<string, (int, int)>): (r: Result<Time, RuleError>)
    requires Valid(ts) && IsPOD(pod) && PodHoursValid(podHours)
    ensures r.Err? <==> pod.pod.value !in podHours
    ensures r.Ok? ==> HasDate(r.value) && WellFormed(r.value) && r.value.pod == pod.pod && NoTimeFields(r.value)
  {
    var p := pod.pod.value;
    if p !in podHours then Err(MissingKey)
    else
      var dm := LatentPodDate(ts, podHours[p].0);
      Ok(DateFromDateTime(dm).(pod := pod.pod))
  }

  /** The start hour on the resolved date is before `ts`, and on the day after it is not. */
  lemma LatentPodIsMostRecentStart(ts: DateTime, h: int)
    requires Valid(ts) && 0 <= h < 24
    ensures var dm := LatentPodDate(ts, h);
      && dm.hour == h && dm.minute == 0
      && Before(dm, ts) && !Before(AddDays(dm, 1), ts)
  {
    var t := ReplaceHM(ts, Some(h), 0);
    MinutesOrder(ts, t);
    AddDaysMinutes(t, -1);
    var dm := LatentPodDate(ts, h);
    AddDaysMinutes(dm, 1);
    MinutesOrder(dm, ts);
    MinutesOrder(AddDays(dm, 1), ts);
  }

  // ---------------------------------------------------------------------------------------
  // ruleEOM, ruleYear

  /** `ruleEOM`: "the end of March 2022" is 31 March 2022. */
  function EndOfMonth(ym: Time): (r: Time)
    requires IsYearAndMonth(ym) && WellFormed(ym)
    ensures IsDate(r) && WellFormed(r) && r.year == ym.year && r.month == ym.month
    ensures r.day == Some(DaysInMonth(ym.year.value, ym.month.value))
  {
    var y, m := ym.year.value, ym.month.value;
    var dm := AddDays(AddMonths(DateTime(y, m, 1, 0, 0), 1), -1);
    DayBeforeNextMonth(y, m);
    DateFromDateTime(dm)
  }

  /** The first of the next month, one day back, is the last day of the month. */
  lemma DayBeforeNextMonth(y: int, m: int)
    requires 1 <= m <= 12
    ensures AddDays(AddMonths(DateTime(y, m, 1, 0, 0), 1), -1) == DateTime(y, m, DaysInMonth(y, m), 0, 0)
  {
    var next := AddMonths(DateTime(y, m, 1, 0, 0), 1);
    var last := DateTime(y, m, DaysInMonth(y, m), 0, 0);
    FirstOfNextMonth(y, m);
    var dm := AddDays(next, -1);
    OrdinalInjective(dm, last);
  }

  lemma FirstOfNextMonth(y: int, m: int)
    requires 1 <= m <= 12
    ensures AddMonths(DateTime(y, m, 1, 0, 0), 1) == NextDay(DateTime(y, m, DaysInMonth(y, m), 0, 0))
  {
    var idx := y * 12 + m;
    if m < 12 {
      assert idx / 12 == y && idx % 12 == m;
    } else {
      assert idx == (y + 1) * 12;
    }
  }

  /** `ruleYear`: a number of at least three digits is a year; two-digit years are refused. */
  function Year(y: nat): (r: Option<Time>)
    ensures r.None? <==> y < 100
    ensures r.Some? ==> IsYear(r.value) && r.value.year == Some(y)
  {
    if y < 100 then None else Some(NoTime.(year := Some(y)))
  }
}
