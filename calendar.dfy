/**
  * The calendar arithmetic the Python code gets from `datetime` and `dateutil.relativedelta`:
  * a naive date and time at minute resolution in the proleptic Gregorian calendar, its day
  * number (Python's `date.toordinal`), lexicographic comparison, `timedelta` shifts and the
  * `relativedelta` operations the core uses (replacing fields, adding months with clamping,
  * jumping to a weekday).
  */
module Calendar {
  import opened Wrappers

  /** A Python `datetime` with seconds and microseconds left out. */
  datatype DateTime = DateTime(year: int, month: int, day: int, hour: int, minute: int)

  const MinutesPerHour := 60
  const MinutesPerDay := 1440

  predicate IsLeapYear(y: int) {
    y % 4 == 0 && (y % 100 != 0 || y % 400 == 0)
  }

  /** `calendar.monthrange(y, m)[1]`. */
  function DaysInMonth(y: int, m: int): int
    requires 1 <= m <= 12
  {
    if m == 2 then (if IsLeapYear(y) then 29 else 28)
    else if m == 4 || m == 6 || m == 9 || m == 11 then 30
    else 31
  }

  predicate ValidDate(y: int, m: int, d: int) {
    1 <= m <= 12 && 1 <= d <= DaysInMonth(y, m)
  }

  predicate ValidTimeOfDay(h: int, m: int) {
    0 <= h < 24 && 0 <= m < 60
  }

  /** What the `datetime` constructor accepts (years are not bounded here). */
  predicate Valid(t: DateTime) {
    ValidDate(t.year, t.month, t.day) && ValidTimeOfDay(t.hour, t.minute)
  }

  function Min(a: int, b: int): int {
    if a <= b then a else b
  }

  /** Number of days in the years 1 .. y-1, as Python's `_days_before_year` (floor division). */
  function DaysBeforeYear(y: int): int {
    var p := y - 1;
    p * 365 + p / 4 - p / 100 + p / 400
  }

  /** Number of days in year y before the first day of month m, as Python's `_days_before_month`. */
  function DaysBeforeMonth(y: int, m: int): int
    requires 1 <= m <= 12
  {
    [0, 31, 59, 90, 120, 151, 181, 212, 243, 273, 304, 334][m - 1]
      + (if m > 2 && IsLeapYear(y) then 1 else 0)
  }

  /** Python's `date.toordinal()`: 0001-01-01 is day 1. */
  function Ordinal(t: DateTime): int
    requires 1 <= t.month <= 12
  {
    DaysBeforeYear(t.year) + DaysBeforeMonth(t.year, t.month) + t.day
  }

  /** Minutes since the start of day 0; the linear time line `timedelta` arithmetic works on. */
  function Minutes(t: DateTime): int
    requires 1 <= t.month <= 12
  {
    Ordinal(t) * MinutesPerDay + t.hour * MinutesPerHour + t.minute
  }

  /** Lexicographic order on (year, month, day). */
  predicate DateBefore(a: DateTime, b: DateTime) {
    a.year < b.year
    || (a.year == b.year && (a.month < b.month || (a.month == b.month && a.day < b.day)))
  }

  predicate SameDate(a: DateTime, b: DateTime) {
    a.year == b.year && a.month == b.month && a.day == b.day
  }

  /** `a < b` on datetimes: lexicographic order on (year, month, day, hour, minute). */
  predicate Before(a: DateTime, b: DateTime) {
    DateBefore(a, b)
    || (SameDate(a, b) && (a.hour < b.hour || (a.hour == b.hour && a.minute < b.minute)))
  }

  /** `a <= b` on datetimes. */
  predicate AtOrBefore(a: DateTime, b: DateTime) {
    Before(a, b) || a == b
  }

  // ---------------------------------------------------------------------------------------
  // The day number is an order isomorphism

  /** Floor division by a positive constant grows by one exactly at multiples of it. */
  lemma FloorStep4(p: int)
    ensures (p + 1) / 4 == p / 4 + (if (p + 1) % 4 == 0 then 1 else 0)
  {
    var q, r := p / 4, p % 4;
    assert p == 4 * q + r;
    if r == 3 {
      assert p + 1 == 4 * (q + 1);
    } else {
      assert p + 1 == 4 * q + (r + 1);
    }
  }

  lemma FloorStep100(p: int)
    ensures (p + 1) / 100 == p / 100 + (if (p + 1) % 100 == 0 then 1 else 0)
  {
    var q, r := p / 100, p % 100;
    assert p == 100 * q + r;
    if r == 99 {
      assert p + 1 == 100 * (q + 1);
    } else {
      assert p + 1 == 100 * q + (r + 1);
    }
  }

  lemma FloorStep400(p: int)
    ensures (p + 1) / 400 == p / 400 + (if (p + 1) % 400 == 0 then 1 else 0)
  {
    var q, r := p / 400, p % 400;
    assert p == 400 * q + r;
    if r == 399 {
      assert p + 1 == 400 * (q + 1);
    } else {
      assert p + 1 == 400 * q + (r + 1);
    }
  }

  lemma DaysBeforeNextYear(y: int)
    ensures DaysBeforeYear(y + 1) == DaysBeforeYear(y) + (if IsLeapYear(y) then 366 else 365)
  {
    FloorStep4(y - 1);
    FloorStep100(y - 1);
    FloorStep400(y - 1);
  }

  lemma {:induction false} DaysBeforeYearGrows(y1: int, y2: int)
    requires y1 <= y2
    ensures DaysBeforeYear(y1) + 365 * (y2 - y1) <= DaysBeforeYear(y2)
    decreases y2 - y1
  {
    if y1 < y2 {
      DaysBeforeYearGrows(y1, y2 - 1);
      DaysBeforeNextYear(y2 - 1);
    }
  }

  lemma DaysBeforeMonthStep(y: int, m: int)
    requires 1 <= m < 12
    ensures DaysBeforeMonth(y, m + 1) == DaysBeforeMonth(y, m) + DaysInMonth(y, m)
  {
  }

  /** The days of a year are numbered 1 .. (its length). */
  lemma DayOfYearBounds(t: DateTime)
    requires ValidDate(t.year, t.month, t.day)
    ensures 1 <= DaysBeforeMonth(t.year, t.month) + t.day
    ensures DaysBeforeMonth(t.year, t.month) + t.day <= DaysBeforeYear(t.year + 1) - DaysBeforeYear(t.year)
  {
    DaysBeforeNextYear(t.year);
  }

  lemma {:induction false} MonthsGrow(y: int, m1: int, m2: int)
    requires 1 <= m1 < m2 <= 12
    ensures DaysBeforeMonth(y, m1) + DaysInMonth(y, m1) <= DaysBeforeMonth(y, m2)
    decreases m2 - m1
  {
    DaysBeforeMonthStep(y, m1);
    if m1 + 1 < m2 {
      MonthsGrow(y, m1 + 1, m2);
    }
  }

  lemma OrdinalMonotone(a: DateTime, b: DateTime)
    requires ValidDate(a.year, a.month, a.day) && ValidDate(b.year, b.month, b.day)
    requires DateBefore(a, b)
    ensures Ordinal(a) < Ordinal(b)
  {
    if a.year < b.year {
      DayOfYearBounds(a);
      DayOfYearBounds(b);
      DaysBeforeYearGrows(a.year + 1, b.year);
    } else if a.month < b.month {
      MonthsGrow(a.year, a.month, b.month);
    }
  }

  /** Comparing datetimes is comparing their positions on the minute time line. */
  lemma MinutesOrder(a: DateTime, b: DateTime)
    requires Valid(a) && Valid(b)
    ensures Before(a, b) <==> Minutes(a) < Minutes(b)
    ensures a == b <==> Minutes(a) == Minutes(b)
  {
    if DateBefore(a, b) {
      OrdinalMonotone(a, b);
    } else if DateBefore(b, a) {
      OrdinalMonotone(b, a);
    }
  }

  /** Distinct dates have distinct day numbers. */
  lemma OrdinalInjective(a: DateTime, b: DateTime)
    requires ValidDate(a.year, a.month, a.day) && ValidDate(b.year, b.month, b.day)
    requires Ordinal(a) == Ordinal(b)
    ensures SameDate(a, b)
  {
    if DateBefore(a, b) {
      OrdinalMonotone(a, b);
    } else if DateBefore(b, a) {
      OrdinalMonotone(b, a);
    }
  }

  // ---------------------------------------------------------------------------------------
  // timedelta arithmetic

  function NextDay(t: DateTime): (r: DateTime)
    requires Valid(t)
    ensures Valid(r) && r.hour == t.hour && r.minute == t.minute
    ensures Ordinal(r) == Ordinal(t) + 1
  {
    if t.day < DaysInMonth(t.year, t.month) then t.(day := t.day + 1)
    else if t.month < 12 then
      DaysBeforeMonthStep(t.year, t.month);
      t.(month := t.month + 1, day := 1)
    else
      DaysBeforeNextYear(t.year);
      t.(year := t.year + 1, month := 1, day := 1)
  }

  function PrevDay(t: DateTime): (r: DateTime)
    requires Valid(t)
    ensures Valid(r) && r.hour == t.hour && r.minute == t.minute
    ensures Ordinal(r) == Ordinal(t) - 1
  {
    if t.day > 1 then t.(day := t.day - 1)
    else if t.month > 1 then
      DaysBeforeMonthStep(t.year, t.month - 1);
      t.(month := t.month - 1, day := DaysInMonth(t.year, t.month - 1))
    else
      DaysBeforeNextYear(t.year - 1);
      t.(year := t.year - 1, month := 12, day := 31)
  }

  /** `t + timedelta(days=k)`: the time of day is kept and the day number moves by k. */
  function AddDays(t: DateTime, k: int): (r: DateTime)
    requires Valid(t)
    ensures Valid(r) && r.hour == t.hour && r.minute == t.minute
    ensures Ordinal(r) == Ordinal(t) + k
    decreases if k < 0 then -k else k
  {
    if k == 0 then t
    else if k > 0 then AddDays(NextDay(t), k - 1)
    else AddDays(PrevDay(t), k + 1)
  }

  /** `t + timedelta(minutes=k)`: the position on the minute time line moves by k. */
  function AddMinutes(t: DateTime, k: int): (r: DateTime)
    requires Valid(t)
    ensures Valid(r) && Minutes(r) == Minutes(t) + k
  {
    var total := t.hour * MinutesPerHour + t.minute + k;
    var rem := total % MinutesPerDay;
    AddDays(t, total / MinutesPerDay).(hour := rem / MinutesPerHour, minute := rem % MinutesPerHour)
  }

  /** `t + timedelta(hours=k)`. */
  function AddHours(t: DateTime, k: int): (r: DateTime)
    requires Valid(t)
    ensures Valid(r) && Minutes(r) == Minutes(t) + k * MinutesPerHour
  {
    AddMinutes(t, k * MinutesPerHour)
  }

  /** `t + timedelta(weeks=k)`. */
  function AddWeeks(t: DateTime, k: int): (r: DateTime)
    requires Valid(t)
    ensures Valid(r) && r.hour == t.hour && r.minute == t.minute
    ensures Ordinal(r) == Ordinal(t) + 7 * k
  {
    AddDays(t, 7 * k)
  }

  /** Shifting by whole days is shifting the minute time line by multiples of a day. */
  lemma AddDaysMinutes(t: DateTime, k: int)
    requires Valid(t)
    ensures Minutes(AddDays(t, k)) == Minutes(t) + k * MinutesPerDay
  {
  }

  /** A datetime is determined by its position on the minute time line. */
  lemma MinutesDetermine(a: DateTime, b: DateTime)
    requires Valid(a) && Valid(b) && Minutes(a) == Minutes(b)
    ensures a == b
  {
    MinutesOrder(a, b);
  }

  // ---------------------------------------------------------------------------------------
  // relativedelta: months, absolute fields, weekdays

  /** Months counted from January of year 0. */
  function MonthIndex(t: DateTime): int {
    t.year * 12 + (t.month - 1)
  }

  /** Comparing (year, month) pairs is comparing month indices. */
  lemma MonthIndexOrder(a: DateTime, b: DateTime)
    requires 1 <= a.month <= 12 && 1 <= b.month <= 12
    ensures MonthIndex(a) < MonthIndex(b) <==> a.year < b.year || (a.year == b.year && a.month < b.month)
    ensures MonthIndex(a) == MonthIndex(b) <==> a.year == b.year && a.month == b.month
  {
  }

  /**
    * `t + relativedelta(months=k)`: year and month move by k months and the day is clamped
    * to the length of the new month; the time of day is kept.
    */
  function AddMonths(t: DateTime, k: int): (r: DateTime)
    requires Valid(t)
    ensures Valid(r) && r.hour == t.hour && r.minute == t.minute
    ensures MonthIndex(r) == MonthIndex(t) + k
    ensures r.day == Min(t.day, DaysInMonth(r.year, r.month))
  {
    var idx := MonthIndex(t) + k;
    var y := idx / 12;
    var m := idx % 12 + 1;
    DateTime(y, m, Min(t.day, DaysInMonth(y, m)), t.hour, t.minute)
  }

  /** `t + relativedelta(years=k)`: same month, day clamped (29 February becomes the 28th). */
  function AddYears(t: DateTime, k: int): (r: DateTime)
    requires Valid(t)
    ensures Valid(r) && r.year == t.year + k && r.month == t.month
    ensures r.day == Min(t.day, DaysInMonth(r.year, r.month))
    ensures r.hour == t.hour && r.minute == t.minute
  {
    AddMonths(t, 12 * k)
  }

  /**
    * `t + relativedelta(hour=h, minute=m)`: the minute is replaced, and the hour when one is
    * given (`relativedelta(hour=None)` leaves it alone).
    */
  function ReplaceHM(t: DateTime, h: Option<int>, m: int): (r: DateTime)
    requires Valid(t) && (h.Some? ==> 0 <= h.value < 24) && 0 <= m < 60
    ensures Valid(r) && SameDate(r, t) && r.minute == m
    ensures r.hour == (if h.Some? then h.value else t.hour)
  {
    t.(hour := if h.Some? then h.value else t.hour, minute := m)
  }

  /** `t + relativedelta(day=d)`: the day is replaced and clamped to the month's length. */
  function ReplaceDay(t: DateTime, d: int): (r: DateTime)
    requires Valid(t) && 1 <= d
    ensures Valid(r) && r.year == t.year && r.month == t.month
    ensures r.day == Min(d, DaysInMonth(t.year, t.month))
    ensures r.hour == t.hour && r.minute == t.minute
  {
    t.(day := Min(d, DaysInMonth(t.year, t.month)))
  }

  /** `t + relativedelta(month=m, day=d)`: month replaced, then the day clamped to it. */
  function ReplaceMonthDay(t: DateTime, m: int, d: int): (r: DateTime)
    requires Valid(t) && 1 <= m <= 12 && 1 <= d
    ensures Valid(r) && r.year == t.year && r.month == m
    ensures r.day == Min(d, DaysInMonth(t.year, m))
    ensures r.hour == t.hour && r.minute == t.minute
  {
    t.(month := m, day := Min(d, DaysInMonth(t.year, m)))
  }

  /** `t + relativedelta(month=m)`: the day of t is kept and clamped to month m. */
  function ReplaceMonth(t: DateTime, m: int): (r: DateTime)
    requires Valid(t) && 1 <= m <= 12
    ensures Valid(r) && r.year == t.year && r.month == m
    ensures r.day == Min(t.day, DaysInMonth(t.year, m))
    ensures r.hour == t.hour && r.minute == t.minute
  {
    ReplaceMonthDay(t, m, t.day)
  }

  /** Python's `weekday()`: Monday is 0, Sunday is 6 (0001-01-01 was a Monday). */
  function Weekday(t: DateTime): int
    requires 1 <= t.month <= 12
  {
    OrdinalWeekday(Ordinal(t))
  }

  function OrdinalWeekday(o: int): int {
    (o + 6) % 7
  }

  /**
    * `t + relativedelta(weekday=w)`: the first day on or after t that falls on weekday w,
    * at the same time of day.
    */
  function NextWeekday(t: DateTime, w: int): (r: DateTime)
    requires Valid(t) && 0 <= w < 7
    ensures Valid(r) && r.hour == t.hour && r.minute == t.minute
    ensures Weekday(r) == w
    ensures 0 <= Ordinal(r) - Ordinal(t) < 7
  {
    var o := Ordinal(t);
    var k := (7 - OrdinalWeekday(o) + w) % 7;
    WeekdayJump(o, w);
    var r := AddDays(t, k);
    assert Ordinal(r) == o + k;
    r
  }

  /** Weekdays repeat every seven days. */
  lemma OrdinalWeekdayPeriodic(o: int, k: int)
    ensures OrdinalWeekday(o + 7 * k) == OrdinalWeekday(o)
  {
    assert o + 7 * k + 6 == (o + 6) + 7 * k;
  }

  /** Jumping `(7 - weekday + w) % 7` days forward lands on weekday w. */
  lemma WeekdayJump(o: int, w: int)
    requires 0 <= w < 7
    ensures OrdinalWeekday(o + (7 - OrdinalWeekday(o) + w) % 7) == w
  {
    var wd := (o + 6) % 7;
    var k := (7 - wd + w) % 7;
    assert o + 6 == 7 * ((o + 6) / 7) + wd;
    assert 7 - wd + w == 7 * ((7 - wd + w) / 7) + k;
    assert o + k + 6 == 7 * ((o + 6) / 7 + 1 - (7 - wd + w) / 7) + w;
  }

  // ---------------------------------------------------------------------------------------
  // relativedelta with relative fields

  /** A `relativedelta` with only relative fields set (weeks are folded into days). */
  datatype RelativeDelta = RelativeDelta(months: int, days: int, hours: int, minutes: int)

  /** `-delta`. */
  function Negate(d: RelativeDelta): RelativeDelta {
    RelativeDelta(-d.months, -d.days, -d.hours, -d.minutes)
  }

  /**
    * `t + delta`: months first (clamping the day), then the fixed-length part as a `timedelta`.
    */
  function ApplyDelta(t: DateTime, d: RelativeDelta): (r: DateTime)
    requires Valid(t)
    ensures Valid(r)
  {
    AddMinutes(AddDays(AddMonths(t, d.months), d.days), d.hours * MinutesPerHour + d.minutes)
  }
}
