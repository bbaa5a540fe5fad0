/**
  * Anchoring of latent times after scoring (timenlp/time/postprocess_latent.py): a bare time of
  * day, or an interval of two bare times of day, is placed on the calendar relative to a
  * reference time `ts`, preferring the recent past. The legacy future-biased variants are
  * modelled as well.
  *
  * Each imperative Python function is a method whose result is tied to a specification
  * function; the properties the design promises are lemmas about those functions.
  */
module PostprocessLatent {
  import opened Wrappers
  import opened Calendar
  import opened Types

  /** `FUTURE_TOLERANCE_DELTA`, in minutes. */
  const FutureTolerance := 10

  const HalfDay := 720

  /** Minutes past midnight. */
  function Clock(t: DateTime): int {
    t.hour * MinutesPerHour + t.minute
  }

  /** A position on the minute time line, read back as a day number and a clock time. */
  lemma ReadMinutes(t: DateTime, o: int, c: int)
    requires Valid(t) && 0 <= c < MinutesPerDay && Minutes(t) == o * MinutesPerDay + c
    ensures Ordinal(t) == o && Clock(t) == c
  {
  }

  /** A clock time, read back as an hour and a minute. */
  lemma ReadClock(t: DateTime, h: int, m: int)
    requires Valid(t) && 0 <= m < MinutesPerHour && Clock(t) == h * MinutesPerHour + m
    ensures t.hour == h && t.minute == m
  {
  }

  // ---------------------------------------------------------------------------------------
  // _latent_tod

  predicate LatentTodInput(ts: DateTime, tod: Time) {
    Valid(ts) && WellFormed(tod) && tod.hour.Some?
  }

  /** How far back a reading after `ts` is moved: 12 hours when the meridiem is latent, else a day. */
  function NaiveStep(tod: Time): int {
    if tod.meridiemLatent then HalfDay else MinutesPerDay
  }

  /** Lines 36-41: `ts` with hour and minute replaced, moved back when it lies after `ts`. */
  function NaiveAnchor(ts: DateTime, tod: Time): (dm: DateTime)
    requires LatentTodInput(ts, tod)
    ensures Valid(dm)
  {
    var dm := ReplaceHM(ts, tod.hour, MinuteOr0(tod));
    if Before(ts, dm) then
      if tod.meridiemLatent then AddHours(dm, -12) else AddDays(dm, -1)
    else dm
  }

  /** The condition of line 44: a meridiem-latent morning hour read in the afternoon. */
  predicate CorrectionApplies(ts: DateTime, tod: Time)
    requires tod.hour.Some?
  {
    tod.meridiemLatent && ts.hour >= 12 && tod.hour.value < 12
  }

  /** Lines 44-47: such a reading is pulled 12 hours forward when that is still before `ts`. */
  function AfternoonCorrection(ts: DateTime, tod: Time, dm: DateTime): (r: DateTime)
    requires LatentTodInput(ts, tod) && Valid(dm)
    ensures Valid(r)
  {
    if CorrectionApplies(ts, tod) then
      var nextMeridiem := AddHours(dm, 12);
      if Before(nextMeridiem, ts) then nextMeridiem else dm
    else dm
  }

  /** The datetime `_latent_tod` returns (as a `Time`). */
  function AnchorTod(ts: DateTime, tod: Time): (dm: DateTime)
    requires LatentTodInput(ts, tod)
    ensures Valid(dm)
  {
    AfternoonCorrection(ts, tod, NaiveAnchor(ts, tod))
  }

  /** `_latent_tod`, reassigning `dm` step by step as the source does. */
  method LatentTod(ts: DateTime, tod: Time) returns (r: Time)
    requires LatentTodInput(ts, tod)
    ensures r == FromDateTime(AnchorTod(ts, tod))
  {
    var dm := ReplaceHM(ts, tod.hour, MinuteOr0(tod));
    if Before(ts, dm) {
      if tod.meridiemLatent {
        dm := AddHours(dm, -12);
      } else {
        dm := AddDays(dm, -1);
      }
    }
    if tod.meridiemLatent && ts.hour >= 12 && tod.hour.value < 12 {
      var nextMeridiem := AddHours(dm, 12);
      if Before(nextMeridiem, ts) {
        dm := nextMeridiem;
      }
    }
    r := FromDateTime(dm);
  }

  /**
    * On the minute time line: the clock time is put on the day of `ts`, and moved back by
    * 12 hours or a day when that lies after `ts`.
    */
  lemma NaiveAnchorMinutes(ts: DateTime, tod: Time)
    requires LatentTodInput(ts, tod)
    ensures var b := Ordinal(ts) * MinutesPerDay + TodClock(tod);
      Minutes(NaiveAnchor(ts, tod)) == if Minutes(ts) < b then b - NaiveStep(tod) else b
  {
    var dm0 := ReplaceHM(ts, tod.hour, MinuteOr0(tod));
    assert Ordinal(dm0) == Ordinal(ts);
    MinutesOrder(ts, dm0);
    AddDaysMinutes(dm0, -1);
  }

  /** On the minute time line: the correction adds 12 hours exactly when the result stays before `ts`. */
  lemma AfternoonCorrectionMinutes(ts: DateTime, tod: Time, dm: DateTime)
    requires LatentTodInput(ts, tod) && Valid(dm)
    ensures Minutes(AfternoonCorrection(ts, tod, dm))
      == if CorrectionApplies(ts, tod) && Minutes(dm) + HalfDay < Minutes(ts) then Minutes(dm) + HalfDay else Minutes(dm)
  {
    MinutesOrder(AddHours(dm, 12), ts);
  }

  /**
    * A time of day with an explicit meridiem keeps its hour and minute and lands on the most
    * recent such moment not after `ts`: on the day of `ts` when its clock time is not later
    * than that of `ts`, otherwise on the day before.
    */
  lemma AnchorTodExplicitMeridiem(ts: DateTime, tod: Time)
    requires LatentTodInput(ts, tod) && !tod.meridiemLatent
    ensures var dm := AnchorTod(ts, tod);
      && dm.hour == tod.hour.value && dm.minute == MinuteOr0(tod)
      && AtOrBefore(dm, ts)
      && Minutes(ts) - MinutesPerDay < Minutes(dm)
      && (SameDate(dm, ts) <==> Clock(dm) <= Clock(ts))
      && (!SameDate(dm, ts) ==> Ordinal(dm) == Ordinal(ts) - 1)
  {
    var dm := AnchorTod(ts, tod);
    var o, c := Ordinal(ts), TodClock(tod);
    NaiveAnchorMinutes(ts, tod);
    AfternoonCorrectionMinutes(ts, tod, NaiveAnchor(ts, tod));
    if Minutes(ts) < o * MinutesPerDay + c {
      ReadMinutes(dm, o - 1, c);
    } else {
      ReadMinutes(dm, o, c);
      OrdinalInjective(dm, ts);
    }
    ReadClock(dm, tod.hour.value, MinuteOr0(tod));
    MinutesOrder(dm, ts);
  }

  /** Two readings of one clock time less than a day apart are the same. */
  lemma SameClockWithinADay(a: DateTime, b: DateTime)
    requires Valid(a) && Valid(b) && Clock(a) == Clock(b)
    requires -MinutesPerDay < Minutes(a) - Minutes(b) < MinutesPerDay
    ensures a == b
  {
    assert Ordinal(a) == Ordinal(b);
    OrdinalInjective(a, b);
  }

  /**
    * So for an explicit meridiem the anchor is the unique moment with the given hour and
    * minute in the day-long window (ts - 1 day, ts].
    */
  lemma AnchorTodIsMostRecent(ts: DateTime, tod: Time, x: DateTime)
    requires LatentTodInput(ts, tod) && !tod.meridiemLatent && Valid(x)
    requires x.hour == tod.hour.value && x.minute == MinuteOr0(tod)
    requires AtOrBefore(x, ts) && Minutes(ts) - MinutesPerDay < Minutes(x)
    ensures x == AnchorTod(ts, tod)
  {
    AnchorTodExplicitMeridiem(ts, tod);
    var dm := AnchorTod(ts, tod);
    MinutesOrder(x, ts);
    MinutesOrder(dm, ts);
    SameClockWithinADay(x, dm);
  }

  /**
    * A meridiem-latent hour before noon lands on one of its two readings (h or h + 12), at
    * most 12 hours before `ts` and never after it.
    */
  lemma AnchorTodLatentMorning(ts: DateTime, tod: Time)
    requires LatentTodInput(ts, tod) && tod.meridiemLatent && tod.hour.value < 12
    ensures var dm := AnchorTod(ts, tod);
      && dm.minute == MinuteOr0(tod)
      && (dm.hour == tod.hour.value || dm.hour == tod.hour.value + 12)
      && Minutes(ts) - HalfDay <= Minutes(dm) <= Minutes(ts)
      && AtOrBefore(dm, ts)
  {
    var dm := AnchorTod(ts, tod);
    var o, c, h, m := Ordinal(ts), TodClock(tod), tod.hour.value, MinuteOr0(tod);
    NaiveAnchorMinutes(ts, tod);
    AfternoonCorrectionMinutes(ts, tod, NaiveAnchor(ts, tod));
    if Minutes(ts) < o * MinutesPerDay + c {
      ReadMinutes(dm, o - 1, c + HalfDay);
      ReadClock(dm, h + 12, m);
    } else if Minutes(dm) == o * MinutesPerDay + c {
      ReadMinutes(dm, o, c);
      ReadClock(dm, h, m);
    } else {
      ReadMinutes(dm, o, c + HalfDay);
      ReadClock(dm, h + 12, m);
    }
    MinutesOrder(dm, ts);
  }

  /**
    * Every anchor keeps the minute, lies on the day of `ts` or the day before, and is less
    * than a day before and less than 12 hours after `ts`.
    */
  lemma AnchorTodWindow(ts: DateTime, tod: Time)
    requires LatentTodInput(ts, tod)
    ensures var dm := AnchorTod(ts, tod);
      && dm.minute == MinuteOr0(tod)
      && (Ordinal(dm) == Ordinal(ts) || Ordinal(dm) == Ordinal(ts) - 1)
      && Minutes(ts) - MinutesPerDay < Minutes(dm) < Minutes(ts) + HalfDay
  {
    var dm := AnchorTod(ts, tod);
    var o, c, h, m := Ordinal(ts), TodClock(tod), tod.hour.value, MinuteOr0(tod);
    if !tod.meridiemLatent {
      AnchorTodExplicitMeridiem(ts, tod);
    } else if h < 12 {
      AnchorTodLatentMorning(ts, tod);
      if Minutes(ts) < o * MinutesPerDay + c {
        ReadMinutes(dm, o - 1, c + HalfDay);
      } else if Minutes(dm) == o * MinutesPerDay + c {
        ReadMinutes(dm, o, c);
      } else {
        ReadMinutes(dm, o, c + HalfDay);
      }
    } else {
      NaiveAnchorMinutes(ts, tod);
      AfternoonCorrectionMinutes(ts, tod, NaiveAnchor(ts, tod));
      if Minutes(ts) < o * MinutesPerDay + c {
        ReadMinutes(dm, o, c - HalfDay);
        ReadClock(dm, h - 12, m);
      } else {
        ReadMinutes(dm, o, c);
        ReadClock(dm, h, m);
      }
    }
  }

  /**
    * The afternoon correction only ever moves the anchor 12 hours forward, and only to a
    * moment strictly before `ts`; so it never moves an anchor past `ts`.
    */
  lemma AfternoonCorrectionStaysInPast(ts: DateTime, tod: Time, dm: DateTime)
    requires LatentTodInput(ts, tod) && Valid(dm)
    ensures var r := AfternoonCorrection(ts, tod, dm);
      && (r == dm || (Minutes(r) == Minutes(dm) + HalfDay && Before(r, ts)))
      && (AtOrBefore(dm, ts) ==> AtOrBefore(r, ts))
  {
  }

  /**
    * A meridiem-latent hour from noon on can be anchored after `ts`: "13:00" read without
    * am/pm at 00:30 becomes 01:00 of the same day.
    */
  lemma LatentAfternoonHourCanBeFuture()
    ensures var ts := DateTime(2022, 3, 7, 0, 30);
      var tod := NoTime.(hour := Some(13), minute := Some(0), meridiemLatent := true);
      AnchorTod(ts, tod) == DateTime(2022, 3, 7, 1, 0) && Before(ts, AnchorTod(ts, tod))
  {
    var dm0 := DateTime(2022, 3, 7, 13, 0);
    assert AddHours(dm0, -12) == AddDays(dm0, 0).(hour := 1, minute := 0);
  }

  // ---------------------------------------------------------------------------------------
  // _latent_time_interval

  predicate LatentIntervalInput(ts: DateTime, ti: Interval) {
    Valid(ts) && WellFormedInterval(ti) && ti.tFrom.Some? && ti.tTo.Some?
  }

  /** Lines 63-64: a bound that is a bare time of day is anchored, any other gets `ts`'s date. */
  function ResolveBound(ts: DateTime, t: Time): (dm: DateTime)
    requires Valid(ts) && WellFormed(t)
    ensures Valid(dm)
  {
    if !IsTOD(t) then ReplaceHM(ts, t.hour, MinuteOr0(t)) else AnchorTod(ts, t)
  }

  /** The shift that repairs a reversed end (lines 70-73): 12 hours or one day forward. */
  function EndRepair(tTo: Time): int
    requires IsTOD(tTo)
  {
    if tTo.hour.value < 12 && tTo.meridiemLatent then HalfDay else MinutesPerDay
  }

  /** The shift that repairs a reversed start (lines 76-79): 12 hours or one day back. */
  function StartRepair(tFrom: Time): int
    requires IsTOD(tFrom)
  {
    if tFrom.hour.value >= 12 && tFrom.meridiemLatent then HalfDay else MinutesPerDay
  }

  /** Lines 67-79: when the end precedes the start, the side without a date is moved. */
  function RepairReversed(tFrom: Time, tTo: Time, dmFrom: DateTime, dmTo: DateTime): (r: (DateTime, DateTime))
    requires Valid(dmFrom) && Valid(dmTo)
    ensures Valid(r.0) && Valid(r.1)
  {
    if Before(dmTo, dmFrom) then
      if !HasDate(tTo) then
        if IsTOD(tTo) then
          (dmFrom, if tTo.hour.value < 12 && tTo.meridiemLatent then AddHours(dmTo, 12) else AddDays(dmTo, 1))
        else (dmFrom, dmTo)
      else if !HasDate(tFrom) then
        if IsTOD(tFrom) then
          (if tFrom.hour.value >= 12 && tFrom.meridiemLatent then AddHours(dmFrom, -12) else AddDays(dmFrom, -1), dmTo)
        else (dmFrom, dmTo)
      else (dmFrom, dmTo)
    else (dmFrom, dmTo)
  }

  /** Both bounds resolved and repaired, before the future fix. */
  function RepairedBounds(ts: DateTime, ti: Interval): (r: (DateTime, DateTime))
    requires LatentIntervalInput(ts, ti)
    ensures Valid(r.0) && Valid(r.1)
  {
    var tFrom, tTo := ti.tFrom.value, ti.tTo.value;
    RepairReversed(tFrom, tTo, ResolveBound(ts, tFrom), ResolveBound(ts, tTo))
  }

  /** How far one step of the future fix moves: 12 hours when both bounds are meridiem-latent, else a day. */
  function StepSize(bothLatent: bool): int {
    if bothLatent then HalfDay else MinutesPerDay
  }

  /** One step of the future fix (lines 85-89). */
  function StepBack(dm: DateTime, bothLatent: bool): (r: DateTime)
    requires Valid(dm)
    ensures Valid(r) && Minutes(r) == Minutes(dm) - StepSize(bothLatent)
  {
    if bothLatent then AddHours(dm, -12) else AddDays(dm, -1)
  }

  /** `dm_to - FUTURE_TOLERANCE_DELTA > ts`, on the minute time line. */
  predicate TooFarInFuture(ts: DateTime, dmTo: DateTime)
    requires Valid(ts) && Valid(dmTo)
  {
    Minutes(ts) < Minutes(dmTo) - FutureTolerance
  }

  /** The time-line form of the test is the datetime comparison the source writes. */
  lemma TooFarInFutureIsComparison(ts: DateTime, dmTo: DateTime)
    requires Valid(ts) && Valid(dmTo)
    ensures TooFarInFuture(ts, dmTo) <==> Before(ts, AddMinutes(dmTo, -FutureTolerance))
  {
    MinutesOrder(ts, AddMinutes(dmTo, -FutureTolerance));
  }

  /** Lines 83-89: both bounds step back together while the end is too far in the future. */
  function ShiftBack(ts: DateTime, dmFrom: DateTime, dmTo: DateTime, bothLatent: bool): (r: (DateTime, DateTime))
    requires Valid(ts) && Valid(dmFrom) && Valid(dmTo)
    ensures Valid(r.0) && Valid(r.1)
    decreases Minutes(dmTo) - Minutes(ts)
  {
    if TooFarInFuture(ts, dmTo) then
      ShiftBack(ts, StepBack(dmFrom, bothLatent), StepBack(dmTo, bothLatent), bothLatent)
    else (dmFrom, dmTo)
  }

  /**
    * The future fix ends with the end within the tolerance of `ts`; it moves both bounds back
    * by the same whole number of steps, so the interval keeps its length; and it stops at the
    * first step that reaches the tolerance, so it never overshoots by a full step.
    */
  lemma {:induction false} ShiftBackFacts(ts: DateTime, dmFrom: DateTime, dmTo: DateTime, bothLatent: bool)
    returns (steps: nat)
    requires Valid(ts) && Valid(dmFrom) && Valid(dmTo)
    ensures var r := ShiftBack(ts, dmFrom, dmTo, bothLatent);
      && Minutes(r.1) - FutureTolerance <= Minutes(ts)
      && Minutes(r.1) - Minutes(r.0) == Minutes(dmTo) - Minutes(dmFrom)
      && Minutes(r.1) <= Minutes(dmTo)
      && Minutes(dmTo) - Minutes(r.1) == steps * StepSize(bothLatent)
      && (r.1 != dmTo ==> Minutes(ts) < Minutes(r.1) + StepSize(bothLatent) - FutureTolerance)
    decreases Minutes(dmTo) - Minutes(ts)
  {
    if TooFarInFuture(ts, dmTo) {
      var f, t := StepBack(dmFrom, bothLatent), StepBack(dmTo, bothLatent);
      var n := ShiftBackFacts(ts, f, t, bothLatent);
      steps := n + 1;
      var r := ShiftBack(ts, f, t, bothLatent);
      assert r == ShiftBack(ts, dmFrom, dmTo, bothLatent);
      var s := StepSize(bothLatent);
      assert Minutes(dmTo) - Minutes(r.1) == (Minutes(t) - Minutes(r.1)) + s;
      assert (n + 1) * s == n * s + s;
      if r.1 != dmTo && r.1 == t {
        assert Minutes(ts) < Minutes(r.1) + s - FutureTolerance;
      }
    } else {
      steps := 0;
    }
  }

  /** Lines 82-89: the future fix applies only when neither bound carries a date. */
  function FutureFix(ts: DateTime, tFrom: Time, tTo: Time, dmFrom: DateTime, dmTo: DateTime): (r: (DateTime, DateTime))
    requires Valid(ts) && Valid(dmFrom) && Valid(dmTo)
    ensures Valid(r.0) && Valid(r.1)
  {
    if TooFarInFuture(ts, dmTo) && !HasDate(tFrom) && !HasDate(tTo) then
      ShiftBack(ts, dmFrom, dmTo, tFrom.meridiemLatent && tTo.meridiemLatent)
    else (dmFrom, dmTo)
  }

  /** The interval `_latent_time_interval` returns: both bounds fully anchored datetimes. */
  function LatentTimeIntervalSpec(ts: DateTime, ti: Interval): (r: Interval)
    requires LatentIntervalInput(ts, ti)
    ensures r.tFrom.Some? && r.tTo.Some? && WellFormedInterval(r)
    ensures HasDate(r.tFrom.value) && HasDate(r.tTo.value)
  {
    var repaired := RepairedBounds(ts, ti);
    var fixed := FutureFix(ts, ti.tFrom.value, ti.tTo.value, repaired.0, repaired.1);
    Interval(Some(FromDateTime(fixed.0)), Some(FromDateTime(fixed.1)))
  }

  /** The repair of lines 67-79, reassigning the bound that moves. */
  method RepairReversedStep(tFrom: Time, tTo: Time, dmFrom0: DateTime, dmTo0: DateTime)
    returns (dmFrom: DateTime, dmTo: DateTime)
    requires Valid(dmFrom0) && Valid(dmTo0)
    ensures (dmFrom, dmTo) == RepairReversed(tFrom, tTo, dmFrom0, dmTo0)
  {
    dmFrom, dmTo := dmFrom0, dmTo0;
    if Before(dmTo, dmFrom) {
      if !HasDate(tTo) {
        if IsTOD(tTo) {
          if tTo.hour.value < 12 && tTo.meridiemLatent {
            dmTo := AddHours(dmTo, 12);
          } else {
            dmTo := AddDays(dmTo, 1);
          }
        }
      } else if !HasDate(tFrom) {
        if IsTOD(tFrom) {
          if tFrom.hour.value >= 12 && tFrom.meridiemLatent {
            dmFrom := AddHours(dmFrom, -12);
          } else {
            dmFrom := AddDays(dmFrom, -1);
          }
        }
      }
    }
  }

  /** The loop of lines 83-89. */
  method ShiftBackLoop(ts: DateTime, dmFrom0: DateTime, dmTo0: DateTime, bothLatent: bool)
    returns (dmFrom: DateTime, dmTo: DateTime)
    requires Valid(ts) && Valid(dmFrom0) && Valid(dmTo0)
    ensures (dmFrom, dmTo) == ShiftBack(ts, dmFrom0, dmTo0, bothLatent)
  {
    dmFrom, dmTo := dmFrom0, dmTo0;
    while Before(ts, AddMinutes(dmTo, -FutureTolerance))
      invariant Valid(dmFrom) && Valid(dmTo)
      invariant ShiftBack(ts, dmFrom, dmTo, bothLatent) == ShiftBack(ts, dmFrom0, dmTo0, bothLatent)
      decreases Minutes(dmTo) - Minutes(ts)
    {
      TooFarInFutureIsComparison(ts, dmTo);
      if bothLatent {
        dmFrom := AddHours(dmFrom, -12);
        dmTo := AddHours(dmTo, -12);
      } else {
        dmFrom := AddDays(dmFrom, -1);
        dmTo := AddDays(dmTo, -1);
      }
    }
    TooFarInFutureIsComparison(ts, dmTo);
  }

  /** `_latent_time_interval`, reassigning `dm_from` / `dm_to` and looping as the source does. */
  method LatentTimeInterval(ts: DateTime, ti: Interval) returns (r: Interval)
    requires LatentIntervalInput(ts, ti)
    ensures r == LatentTimeIntervalSpec(ts, ti)
  {
    var tFrom, tTo := ti.tFrom.value, ti.tTo.value;
    var dmFrom, dmTo;
    if !IsTOD(tFrom) {
      dmFrom := ReplaceHM(ts, tFrom.hour, MinuteOr0(tFrom));
    } else {
      var t := LatentTod(ts, tFrom);
      dmFrom := Dt(t);
    }
    if !IsTOD(tTo) {
      dmTo := ReplaceHM(ts, tTo.hour, MinuteOr0(tTo));
    } else {
      var t := LatentTod(ts, tTo);
      dmTo := Dt(t);
    }
    assert dmFrom == ResolveBound(ts, tFrom) && dmTo == ResolveBound(ts, tTo);

    dmFrom, dmTo := RepairReversedStep(tFrom, tTo, dmFrom, dmTo);
    assert (dmFrom, dmTo) == RepairedBounds(ts, ti);

    TooFarInFutureIsComparison(ts, dmTo);
    if Before(ts, AddMinutes(dmTo, -FutureTolerance)) && !HasDate(tFrom) && !HasDate(tTo) {
      dmFrom, dmTo := ShiftBackLoop(ts, dmFrom, dmTo, tFrom.meridiemLatent && tTo.meridiemLatent);
    }
    r := Interval(Some(FromDateTime(dmFrom)), Some(FromDateTime(dmTo)));
  }

  /** When neither bound has a date, the resolved end is at most 10 minutes after `ts`. */
  lemma LatentIntervalEndWithinTolerance(ts: DateTime, ti: Interval)
    requires LatentIntervalInput(ts, ti)
    requires !HasDate(ti.tFrom.value) && !HasDate(ti.tTo.value)
    ensures Minutes(Dt(LatentTimeIntervalSpec(ts, ti).tTo.value)) <= Minutes(ts) + FutureTolerance
  {
    var rep := RepairedBounds(ts, ti);
    var _ := ShiftBackFacts(ts, rep.0, rep.1, ti.tFrom.value.meridiemLatent && ti.tTo.value.meridiemLatent);
  }

  /**
    * The future fix moves both bounds by the same amount, so the resolved interval is as long
    * as the repaired one; and a bound with a date switches the fix off.
    */
  lemma LatentIntervalKeepsLength(ts: DateTime, ti: Interval)
    requires LatentIntervalInput(ts, ti)
    ensures var r := LatentTimeIntervalSpec(ts, ti);
      var rep := RepairedBounds(ts, ti);
      && Minutes(Dt(r.tTo.value)) - Minutes(Dt(r.tFrom.value)) == Minutes(rep.1) - Minutes(rep.0)
      && (HasDate(ti.tFrom.value) || HasDate(ti.tTo.value) ==>
            r == Interval(Some(FromDateTime(rep.0)), Some(FromDateTime(rep.1))))
  {
    var rep := RepairedBounds(ts, ti);
    var _ := ShiftBackFacts(ts, rep.0, rep.1, ti.tFrom.value.meridiemLatent && ti.tTo.value.meridiemLatent);
  }

  /**
    * Only the side without a date moves when the ends are reversed: the end 12 hours or one
    * day forward, or else the start 12 hours or one day back; an interval in order is left alone.
    */
  lemma RepairMovesUndatedSide(tFrom: Time, tTo: Time, dmFrom: DateTime, dmTo: DateTime)
    requires Valid(dmFrom) && Valid(dmTo)
    ensures var r := RepairReversed(tFrom, tTo, dmFrom, dmTo);
      && (!Before(dmTo, dmFrom) ==> r == (dmFrom, dmTo))
      && (r.0 == dmFrom || r.1 == dmTo)
      && (r.1 != dmTo ==> !HasDate(tTo) && IsTOD(tTo) && Minutes(r.1) == Minutes(dmTo) + EndRepair(tTo))
      && (r.0 != dmFrom ==>
            HasDate(tTo) && !HasDate(tFrom) && IsTOD(tFrom) && Minutes(r.0) == Minutes(dmFrom) - StartRepair(tFrom))
      && (Before(dmTo, dmFrom) && !HasDate(tTo) && IsTOD(tTo) ==>
            r.0 == dmFrom && Minutes(r.1) == Minutes(dmTo) + EndRepair(tTo))
      && (Before(dmTo, dmFrom) && HasDate(tTo) && !HasDate(tFrom) && IsTOD(tFrom) ==>
            r.1 == dmTo && Minutes(r.0) == Minutes(dmFrom) - StartRepair(tFrom))
      && (Before(dmTo, dmFrom) && !(!HasDate(tTo) && IsTOD(tTo)) && !(HasDate(tTo) && !HasDate(tFrom) && IsTOD(tFrom)) ==>
            r == (dmFrom, dmTo))
  {
    AddDaysMinutes(dmTo, 1);
    AddDaysMinutes(dmFrom, -1);
  }

  // A reading at 00:30 of a latent 13:00 start and a 00:45 end, worked one step per lemma.
  const ExampleTs := DateTime(2022, 3, 7, 0, 30)
  const ExampleFrom := NoTime.(hour := Some(13), minute := Some(0), meridiemLatent := true)
  const ExampleTo := NoTime.(hour := Some(0), minute := Some(45))

  /** The start: 13:00 today is after ts, so half a day back; no afternoon correction at 00:30.
    * The end: 00:45 today is after ts, so a day back. */
  lemma ExampleBoundsAnchor()
    ensures ResolveBound(ExampleTs, ExampleFrom) == DateTime(2022, 3, 7, 1, 0)
    ensures ResolveBound(ExampleTs, ExampleTo) == DateTime(2022, 3, 6, 0, 45)
  {
    var dm := ReplaceHM(ExampleTs, ExampleFrom.hour, MinuteOr0(ExampleFrom));
    assert Before(ExampleTs, dm);
    MinutesDetermine(AddHours(dm, -12), DateTime(2022, 3, 7, 1, 0));
    dm := ReplaceHM(ExampleTs, ExampleTo.hour, MinuteOr0(ExampleTo));
    assert Before(ExampleTs, dm);
    MinutesDetermine(AddDays(dm, -1), DateTime(2022, 3, 6, 0, 45));
  }

  /** The reversed end is repaired a day forward. */
  lemma ExampleRepair()
    ensures RepairReversed(ExampleFrom, ExampleTo, DateTime(2022, 3, 7, 1, 0), DateTime(2022, 3, 6, 0, 45))
      == (DateTime(2022, 3, 7, 1, 0), DateTime(2022, 3, 7, 0, 45))
  {
    assert Before(DateTime(2022, 3, 6, 0, 45), DateTime(2022, 3, 7, 1, 0));
    MinutesDetermine(AddDays(DateTime(2022, 3, 6, 0, 45), 1), DateTime(2022, 3, 7, 0, 45));
  }

  /** The end is more than ten minutes ahead of ts: both bounds go back one day, and then stop. */
  lemma ExampleShift()
    ensures ShiftBack(ExampleTs, DateTime(2022, 3, 7, 1, 0), DateTime(2022, 3, 7, 0, 45), false)
      == (DateTime(2022, 3, 6, 1, 0), DateTime(2022, 3, 6, 0, 45))
  {
    assert TooFarInFuture(ExampleTs, DateTime(2022, 3, 7, 0, 45));
    MinutesDetermine(AddDays(DateTime(2022, 3, 7, 1, 0), -1), DateTime(2022, 3, 6, 1, 0));
    MinutesDetermine(AddDays(DateTime(2022, 3, 7, 0, 45), -1), DateTime(2022, 3, 6, 0, 45));
    assert !TooFarInFuture(ExampleTs, DateTime(2022, 3, 6, 0, 45));
  }

  /**
    * The restriction below is needed: read at 00:30, a latent 13:00 start anchors to 01:00, a
    * 00:45 end is repaired a day forward to 00:45 the same day, and the future fix moves both
    * back a day, leaving 03-06 01:00 – 03-06 00:45, still reversed.
    */
  lemma LatentAfternoonStartCanStayReversed()
    ensures LatentTimeIntervalSpec(ExampleTs, Interval(Some(ExampleFrom), Some(ExampleTo)))
      == Interval(Some(FromDateTime(DateTime(2022, 3, 6, 1, 0))), Some(FromDateTime(DateTime(2022, 3, 6, 0, 45))))
  {
    ExampleBoundsAnchor();
    ExampleRepair();
    ExampleShift();
  }

  /**
    * For an interval of two bare times of day whose start is not a meridiem-latent afternoon
    * hour, the repaired and future-fixed interval is in order: start <= end.
    */
  lemma LatentTimeIntervalOrdered(ts: DateTime, ti: Interval)
    requires LatentIntervalInput(ts, ti) && IsTimeInterval(ti)
    requires !(ti.tFrom.value.meridiemLatent && ti.tFrom.value.hour.value >= 12)
    ensures var r := LatentTimeIntervalSpec(ts, ti);
      AtOrBefore(Dt(r.tFrom.value), Dt(r.tTo.value))
  {
    var tFrom, tTo := ti.tFrom.value, ti.tTo.value;
    var f0, t0 := AnchorTod(ts, tFrom), AnchorTod(ts, tTo);
    if tFrom.meridiemLatent {
      AnchorTodLatentMorning(ts, tFrom);
    } else {
      AnchorTodExplicitMeridiem(ts, tFrom);
    }
    MinutesOrder(f0, ts);
    AnchorTodWindow(ts, tTo);
    if tTo.meridiemLatent && tTo.hour.value < 12 {
      AnchorTodLatentMorning(ts, tTo);
    }
    RepairMovesUndatedSide(tFrom, tTo, f0, t0);
    MinutesOrder(t0, f0);
    var rep := RepairedBounds(ts, ti);
    assert rep == RepairReversed(tFrom, tTo, f0, t0);
    assert Minutes(rep.0) <= Minutes(rep.1);
    LatentIntervalKeepsLength(ts, ti);
    var r := LatentTimeIntervalSpec(ts, ti);
    MinutesOrder(Dt(r.tFrom.value), Dt(r.tTo.value));
  }

  // ---------------------------------------------------------------------------------------
  // apply_postprocessing_rules

  /** What `apply_postprocessing_rules` returns. */
  function PostprocessSpec(ts: DateTime, art: Artifact): (r: Artifact)
    requires Valid(ts) && WellFormedArtifact(art)
  {
    match art
    case TimeArt(t) => if IsTOD(t) then TimeArt(FromDateTime(AnchorTod(ts, t))) else art
    case IntervalArt(i) => if IsTimeInterval(i) then IntervalArt(LatentTimeIntervalSpec(ts, i)) else art
    case DurationArt(_) => art
  }

  /** `apply_postprocessing_rules`: dispatch on the kind of artifact. */
  method ApplyPostprocessingRules(ts: DateTime, art: Artifact) returns (r: Artifact)
    requires Valid(ts) && WellFormedArtifact(art)
    ensures r == PostprocessSpec(ts, art)
  {
    if art.TimeArt? && IsTOD(art.time) {
      var t := LatentTod(ts, art.time);
      return TimeArt(t);
    }
    if art.IntervalArt? && IsTimeInterval(art.interval) {
      var i := LatentTimeInterval(ts, art.interval);
      return IntervalArt(i);
    }
    return art;
  }

  /**
    * Only a bare time of day and an interval of two bare times of day are changed; anything
    * else, in particular anything already carrying a date, is returned as it is; and what
    * comes out is fully anchored, so applying the rules again changes nothing.
    */
  lemma PostprocessOnlyTouchesLatent(ts: DateTime, art: Artifact)
    requires Valid(ts) && WellFormedArtifact(art)
    ensures var r := PostprocessSpec(ts, art);
      && (!(art.TimeArt? && IsTOD(art.time)) && !(art.IntervalArt? && IsTimeInterval(art.interval)) ==> r == art)
      && (art.TimeArt? && IsTOD(art.time) ==>
            r.TimeArt? && HasDate(r.time) && r.time.hour.Some? && r.time.minute.Some? && !r.time.meridiemLatent)
      && WellFormedArtifact(r)
      && PostprocessSpec(ts, r) == r
  {
  }

  // ---------------------------------------------------------------------------------------
  // The original, future-biased anchoring

  /** `old_latent_tod`: the next moment strictly after `ts` with the given hour and minute. */
  function OldLatentTod(ts: DateTime, tod: Time): (r: Time)
    requires LatentTodInput(ts, tod)
    ensures HasDate(r) && WellFormed(r) && r.hour == tod.hour && r.minute == Some(MinuteOr0(tod))
    ensures Before(ts, Dt(r)) && Minutes(Dt(r)) <= Minutes(ts) + MinutesPerDay
  {
    var dm := ReplaceHM(ts, tod.hour, MinuteOr0(tod));
    MinutesOrder(dm, ts);
    var dm' := if AtOrBefore(dm, ts) then AddDays(dm, 1) else dm;
    MinutesOrder(ts, dm');
    FromDateTime(dm')
  }

  /**
    * `old_latent_time_interval`: both bounds get the date of `ts`, and both move one day
    * forward when the start is not after `ts`; the start ends up strictly after `ts` and the
    * distance between the bounds is kept.
    */
  function OldLatentTimeInterval(ts: DateTime, ti: Interval): (r: Interval)
    requires LatentIntervalInput(ts, ti)
    ensures r.tFrom.Some? && r.tTo.Some? && HasDate(r.tFrom.value) && HasDate(r.tTo.value)
    ensures WellFormed(r.tFrom.value) && WellFormed(r.tTo.value)
    ensures Before(ts, Dt(r.tFrom.value))
    ensures var f := ti.tFrom.value; var t := ti.tTo.value;
      Minutes(Dt(r.tTo.value)) - Minutes(Dt(r.tFrom.value))
        == Minutes(ReplaceHM(ts, t.hour, MinuteOr0(t))) - Minutes(ReplaceHM(ts, f.hour, MinuteOr0(f)))
    ensures var f := ti.tFrom.value; var t := ti.tTo.value;
      var dmFrom, dmTo := ReplaceHM(ts, f.hour, MinuteOr0(f)), ReplaceHM(ts, t.hour, MinuteOr0(t));
      var rf, rt := Dt(r.tFrom.value), Dt(r.tTo.value);
      && rf.hour == dmFrom.hour && rf.minute == dmFrom.minute
      && rt.hour == dmTo.hour && rt.minute == dmTo.minute
      && Ordinal(rf) == Ordinal(ts) + (if AtOrBefore(dmFrom, ts) then 1 else 0)
      && Ordinal(rt) == Ordinal(rf)
    ensures ti.tFrom.value.hour.Some? ==> r.tFrom.value == OldLatentTod(ts, ti.tFrom.value)
  {
    var f, t := ti.tFrom.value, ti.tTo.value;
    var dmFrom := ReplaceHM(ts, f.hour, MinuteOr0(f));
    var dmTo := ReplaceHM(ts, t.hour, MinuteOr0(t));
    MinutesOrder(dmFrom, ts);
    AddDaysMinutes(dmFrom, 1);
    AddDaysMinutes(dmTo, 1);
    var moved := if AtOrBefore(dmFrom, ts) then (AddDays(dmFrom, 1), AddDays(dmTo, 1)) else (dmFrom, dmTo);
    MinutesOrder(ts, moved.0);
    Interval(Some(FromDateTime(moved.0)), Some(FromDateTime(moved.1)))
  }
}
