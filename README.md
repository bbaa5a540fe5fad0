# timenlp resolution core in Dafny

timenlp reads time expressions in English text, such as "8 pm", "the 30th", "Nov 13, 11:30 pm - 3:35 am"
or "two hours ago". It resolves them against a reference time `ts`. This fork anchors latent
expressions in the recent past, where the upstream library looked into the future.

This project models three parts of the library and proves properties of them:

- **Post-processing of latent times** (`timenlp/time/postprocess_latent.py`). A bare time of day
  (`_latent_tod`) or a bare time interval (`_latent_time_interval`) is placed on the calendar. It
  goes on the most recent matching clock time. A reversed interval gets repaired. An interval
  ending more than ten minutes in the future is shifted back. The legacy future-anchoring variants
  (`old_latent_tod`, `old_latent_time_interval`) are modelled too.
- **Production rules** (`timenlp/time/rules.py`). These cover:
  - the am/pm and military-time heuristics;
  - quarter and half past/to;
  - a time of day combined with a part of day (POD);
  - duration arithmetic;
  - intervals between dates and between datetimes;
  - the latent rules that resolve a bare day of month, weekday, month, day of year or part of day.
- **Number helpers** (`timenlp/helpers.py`). These build the regex for a spelled-out number, the
  named-number table and its named-group alternation. They also read a number back from a match.

Files:

| file | contents |
|---|---|
| `wrappers.dfy` | `Option` and `Result` |
| `calendar.dfy` | a proleptic Gregorian `DateTime` at minute resolution, with the parts of Python's `datetime` and dateutil's `relativedelta` that the core uses |
| `types.dfy` | `Time`, `Interval`, `Duration`, `Artifact` and the `isX`/`hasX` predicates |
| `postprocess_latent.dfy` | the post-processing, with imperative methods proved against specification functions |
| `rules.dfy` | the rules |
| `helpers.dfy` | the number helpers, with the two match readers written as loops |

Modelling conventions:

- **Time.** A datetime is modelled by its fields. `Minutes(t)` measures it in minutes: the
  proleptic ordinal of the date (Python's `toordinal`) times 1440, plus the clock time. It is the
  time line on which most properties are stated. `MinutesOrder` proves that Python's comparison of
  datetimes is the comparison of `Minutes`.
- **Rule results.** A rule that declines returns `None`. A rule whose Python code raises
  `TypeError` or `KeyError` on some input returns `Err`.
- **State.** Python code that mutates variables in a loop is modelled as a Dafny `method` with
  the same loop, proved equal to a specification function. The functions and lemmas reason about
  that specification function.

## Model

| member | source | states |
|---|---|---|
| PostprocessLatent.ApplyPostprocessingRules | timenlp/time/postprocess_latent.py:9-33 | returns exactly what the dispatch specification gives: a bare time of day goes through `_latent_tod`, a time interval through `_latent_time_interval`, anything else is returned as is |
| PostprocessLatent.PostprocessOnlyTouchesLatent | timenlp/time/postprocess_latent.py:25-33 | an artifact that is neither a bare time of day nor a time interval is unchanged; a time of day comes back with full date, hour and minute and not latent; the result is well formed; post-processing the result again changes nothing (idempotence) |
| PostprocessLatent.LatentTod | timenlp/time/postprocess_latent.py:35-54 | the method's result is the `Time` of the anchored datetime `AnchorTod(ts, tod)` |
| PostprocessLatent.NaiveAnchor | timenlp/time/postprocess_latent.py:36-41 | the replaced datetime is a valid datetime |
| PostprocessLatent.NaiveAnchorMinutes | timenlp/time/postprocess_latent.py:36-41 | on the minute time line: `ts`'s day with the given clock time, minus 12 hours (latent meridiem) or a day when that lies after `ts` |
| PostprocessLatent.AfternoonCorrectionMinutes | timenlp/time/postprocess_latent.py:44-47 | the correction adds exactly 12 hours when the meridiem is latent, `ts` is in the afternoon, the hour is a morning hour and the moved time is still before `ts`; otherwise nothing moves |
| PostprocessLatent.AfternoonCorrectionStaysInPast | timenlp/time/postprocess_latent.py:44-47 | the correction either leaves the time alone or moves it 12 hours forward to a time strictly before `ts`, so a time at or before `ts` stays at or before `ts` |
| PostprocessLatent.AnchorTodExplicitMeridiem | timenlp/time/postprocess_latent.py:35-54 | with an explicit meridiem the result has the requested hour and minute, lies at or before `ts` and less than a day before it, and is on `ts`'s date exactly when its clock time is not after `ts`'s, else on the day before |
| PostprocessLatent.SameClockWithinADay | timenlp/time/postprocess_latent.py:36-41 | two datetimes with the same clock time less than a day apart are equal (the helper behind uniqueness) |
| PostprocessLatent.AnchorTodIsMostRecent | timenlp/time/postprocess_latent.py:35-54 | uniqueness: any datetime with that hour and minute, at or before `ts` and within a day of it, is the anchored one |
| PostprocessLatent.AnchorTodLatentMorning | timenlp/time/postprocess_latent.py:35-54 | a latent morning hour h resolves to h or h+12 with the minute kept, within the 12 hours up to `ts` and never after `ts` |
| PostprocessLatent.AnchorTodWindow | timenlp/time/postprocess_latent.py:35-54 | for every input the result keeps the minute, lies on `ts`'s date or the day before, and within (ts − 1 day, ts + 12 h) |
| PostprocessLatent.LatentAfternoonHourCanBeFuture | timenlp/time/postprocess_latent.py:36-39 | a latent 13:00 read at 00:30 anchors to 01:00 the same day, after `ts` |
| PostprocessLatent.ResolveBound | timenlp/time/postprocess_latent.py:63-64 | each bound's datetime is valid: a bare time of day anchored by `_latent_tod`, any other bound placed on `ts`'s date |
| PostprocessLatent.RepairMovesUndatedSide | timenlp/time/postprocess_latent.py:66-79 | an ordered pair is untouched; at most one end moves; a moved end is an undated time of day and moves by exactly its repair step (12 h for a latent morning end / latent afternoon start, otherwise a day), the start only when the end has a date; a reversed pair must be repaired: an undated time-of-day end moves forward, else, when the end has a date, an undated time-of-day start moves back; any other reversed pair is left as it is |
| PostprocessLatent.RepairReversedStep | timenlp/time/postprocess_latent.py:66-79 | the imperative repair computes the repair function |
| PostprocessLatent.StepBack | timenlp/time/postprocess_latent.py:84-89 | one step moves a bound back by exactly 12 hours (both latent) or a day |
| PostprocessLatent.TooFarInFutureIsComparison | timenlp/time/postprocess_latent.py:82-83 | the minute-line test equals the source's comparison `dm_to - 10 minutes > ts` |
| PostprocessLatent.ShiftBackFacts | timenlp/time/postprocess_latent.py:82-89 | after the loop the end is at most 10 minutes after `ts`; the interval's length is kept; the end moved back by a whole number of steps; and the loop stops at the first such position (one step less would still be too far in the future) |
| PostprocessLatent.ShiftBackLoop | timenlp/time/postprocess_latent.py:83-89 | the `while` loop computes the recursive shift |
| PostprocessLatent.LatentTimeInterval | timenlp/time/postprocess_latent.py:58-106 | the method equals the interval specification |
| PostprocessLatent.LatentTimeIntervalSpec | timenlp/time/postprocess_latent.py:91-106 | both bounds are present, well formed and carry a date |
| PostprocessLatent.LatentIntervalEndWithinTolerance | timenlp/time/postprocess_latent.py:81-89 | when neither bound has a date the resolved end is at most 10 minutes after `ts` |
| PostprocessLatent.LatentIntervalKeepsLength | timenlp/time/postprocess_latent.py:81-89 | the future fix keeps the interval's length, and it is switched off when either bound has a date |
| PostprocessLatent.LatentTimeIntervalOrdered | timenlp/time/postprocess_latent.py:58-106 | for a time interval whose start is not a latent afternoon hour, the resolved start is at or before the resolved end |
| PostprocessLatent.LatentAfternoonStartCanStayReversed | timenlp/time/postprocess_latent.py:58-106 | read at 2022-03-07 00:30, a latent 13:00 – 00:45 resolves to 03-06 01:00 – 03-06 00:45, still reversed |
| PostprocessLatent.OldLatentTod | timenlp/time/postprocess_latent.py:111-117 | the legacy variant keeps hour and minute and resolves strictly after `ts`, at most one day later |
| PostprocessLatent.OldLatentTimeInterval | timenlp/time/postprocess_latent.py:120-142 | the legacy interval starts strictly after `ts`, carries full dates, and keeps the distance between the two bounds placed on `ts`'s day; each bound keeps the hour and minute it was given, both share one date, which is `ts`'s date or the next day exactly when the start placed on `ts`'s day is not after `ts`, and a start with an hour is what `old_latent_tod` gives for it |
| Rules.IsValidMilitaryTime | timenlp/time/rules.py:482-503 | accepted only with hour and minute, a minute divisible by 5, and hhmm equal neither to the current year nor to the year three months ahead; every such hhmm below the current year is accepted |
| Rules.MilitaryTimeYearAhead | timenlp/time/rules.py:491-502 | in November 2022, "2023" (next year within 3 months) and "2022" are years, "2025" is a military time |
| Rules.MaybeApplyAmPm | timenlp/time/rules.py:506-521 | field values stay calendar values |
| Rules.AmPmKeepsDialPosition | timenlp/time/rules.py:506-521 | the minute and the position on the 12-hour dial are kept; the hour only changes by +12, only for a "p…" marker and an hour before noon; a "p…" marker moves each hour 1..11 by +12 and clears latency; an "a…" marker with an hour up to 12 changes nothing; the result is latent exactly when there is no marker and the hour is not 0 |
| Rules.AmPmLeavesNoHourAlone | timenlp/time/rules.py:506-521 | a time without an hour, or with hour 0, is returned unchanged whatever the marker |
| Rules.AmPmEdgeHours | timenlp/time/rules.py:508-517 | "12 am" stays hour 12; 0:30 without marker is not latent; "5 PM" is 17 |
| Rules.QuarterBefore | timenlp/time/rules.py:559-567 | declines exactly when the time has a non-zero minute; otherwise the clock is 15 minutes earlier, wrapping around midnight, latency kept |
| Rules.QuarterAfter | timenlp/time/rules.py:570-574 | declines exactly on a non-zero minute; otherwise 15 minutes later |
| Rules.HalfBefore | timenlp/time/rules.py:577-584 | declines exactly on a non-zero minute; otherwise 30 minutes earlier, wrapping around midnight |
| Rules.HalfAfter | timenlp/time/rules.py:587-591 | declines exactly on a non-zero minute; otherwise 30 minutes later |
| Rules.QuarterToAndPastSpanHalfAnHour | timenlp/time/rules.py:559-574 | "quarter past h" and "quarter to h" lie 30 minutes apart modulo a day |
| Rules.TodPod | timenlp/time/rules.py:594-612 | declines exactly when an hour after 12 meets a morning part of day; otherwise keeps the minute and the 12-hour dial position, is not latent, is in the afternoon for a late part of day, and keeps the hour otherwise |
| Rules.PodTod | timenlp/time/rules.py:615-617 | the POD-first order gives the same result as the TOD-first order |
| Rules.TodPodExamples | timenlp/time/rules.py:594-612 | "3 in the afternoon" is 15:00; "17 in the morning" does not merge |
| Rules.DurationDuration | timenlp/time/rules.py:730-739 | merges exactly day+hour, day+minute and hour+minute, into the finer unit, preserving the total length in minutes |
| Rules.DurationAndHalf | timenlp/time/rules.py:745-752 | "and a half" applies exactly to hours and days, converts to the next finer unit, and adds half a unit to the length |
| Rules.DurationDeltaMeaning | timenlp/time/rules.py:1117-1124 | the relativedelta of a fixed-length duration moves a datetime by exactly its length; a month count moves the month index and clamps the day |
| Rules.DurationAgo | timenlp/time/rules.py:644-651 | the result is a full, well-formed datetime |
| Rules.DurationAgoMeaning | timenlp/time/rules.py:644-651 | the result lies exactly the duration's length before `ts`; for months, that many months earlier with `ts`'s day clamped to the month and `ts`'s clock time |
| Rules.DateDate | timenlp/time/rules.py:881-889 | an interval exactly when the first date is strictly before the second, and then with those bounds |
| Rules.DomDate | timenlp/time/rules.py:892-896 | an interval exactly when the day is before the date's day; the start takes year and month from the date and precedes it |
| Rules.DateDom | timenlp/time/rules.py:899-904 | an interval exactly when the date's day is before the given day; the end takes year and month from the date and names a real day exactly when the day fits the month |
| Rules.DateTimeDateTime | timenlp/time/rules.py:934-959 | raises exactly when both are on the same date and hour and a minute is missing; otherwise an interval exactly when the first is strictly before the second |
| Rules.DateInterval | timenlp/time/rules.py:971-1009 | declines exactly when a bound is neither missing, a time of day nor a part of day; bounds are kept present or absent; the start goes onto the date; the end gets a date and keeps its part of day; with no start the end just goes onto the date; with both bounds the end keeps its hour and minute and lands on the date's day, or on the next day exactly when it is not after the start |
| Rules.WrapEnd | timenlp/time/rules.py:995-1003 | the wrapped end keeps its hour and minute and is one day later exactly when it is not after the start |
| Rules.WrapEndForward | timenlp/time/rules.py:995-1003 | an end on the start's date keeps its hour and minute, stays on the start's date exactly when it is after the start, else moves to the next day; the result lies strictly after the start and at most a day later |
| Rules.DateIntervalRunsForward | timenlp/time/rules.py:971-1009 | with both bounds present, the resolved start is on the date, the end keeps its hour and minute and is strictly after the start, on the same or the next day, at most a day later |
| Rules.DateIntervalWrapsPodToMidnight | timenlp/time/rules.py:995-1003 | "Mar 7, 23:00 – morning" ends at 00:00 on Mar 8, keeping the POD |
| Rules.IntervalWithDateCue | timenlp/time/rules.py:654-670 | raises exactly when a bound has no minute |
| Rules.RepairOnCue | timenlp/time/rules.py:660-665 | the repair keeps both dates and minutes, moves at most one end by 12 hours, and does nothing to an ordered pair; a reversed pair with a latent start after 12 must have its start moved 12 hours back, else one with a latent end before 12 its end moved 12 hours forward, else it is left |
| Rules.IntervalWithDateCueStaysOnDate | timenlp/time/rules.py:654-670 | both bounds land on the cue's date with their minutes, hours change only by the 12-hour repairs, at most one of them, and never for an ordered pair; a reversed pair is repaired whenever the source's latency and hour conditions hold, start first |
| Rules.SameDayShift | timenlp/time/rules.py:663-665 | a shift that stays inside the day keeps the date and adds to the clock |
| Rules.LatentDomDate | timenlp/time/rules.py:376-381 | the resolved datetime is valid |
| Rules.LatentDom | timenlp/time/rules.py:376-381 | the rule as written: a well-formed date strictly before `ts`'s date whose day is no later than the requested one (see Findings) |
| Rules.LatentDomCorrected | timenlp/time/rules.py:376-381 | the corrected rule: a well-formed date strictly before `ts`'s date whose day is the requested day clamped to its own month |
| Rules.LatentDomInPast | timenlp/time/rules.py:376-381 | as written, the resolved date is strictly before `ts`'s date, has the requested day clamped first to `ts`'s month and then to its own month, is in `ts`'s month exactly when the (clamped) day is before today, else in the previous month |
| Rules.LatentDomClampsTwice | timenlp/time/rules.py:378-380 | on 2022-02-10 09:00, the code as written resolves "the 30th" to 2022-01-28; the corrected resolution gives 2022-01-30 |
| Rules.LatentDomDateCorrected | timenlp/time/rules.py:376-381 | the corrected resolution is valid |
| Rules.LatentDomCorrectedIsMostRecent | timenlp/time/rules.py:376-381 | the corrected resolution is before `ts`, its day is the requested day clamped to its own month, in `ts`'s month exactly when that day is before today, else in the previous month |
| Rules.LatentDomCorrectedAgrees | timenlp/time/rules.py:376-381 | when the day exists in `ts`'s month, source and correction agree |
| Rules.LatentDowDate | timenlp/time/rules.py:385-390 | the resolved datetime is valid |
| Rules.LatentDow | timenlp/time/rules.py:385-390 | the result is a well-formed date |
| Rules.LatentDowWindow | timenlp/time/rules.py:385-390 | the result has the requested weekday and lies between 5 days before and 1 day after `ts` |
| Rules.LatentDowUnique | timenlp/time/rules.py:385-390 | it is the only day with that weekday in that window |
| Rules.WeekdayDistance | timenlp/time/rules.py:385-390 | two days less than a week apart with the same weekday are the same day |
| Rules.Tolerance | timenlp/time/rules.py:373 | `ts` plus the one-month future tolerance is valid |
| Rules.LatentMonthDate | timenlp/time/rules.py:392-400 | the resolved datetime is valid |
| Rules.LatentMonth | timenlp/time/rules.py:392-400 | the result is a year and the requested month |
| Rules.LatentMonthWindow | timenlp/time/rules.py:392-400 | the result has the requested month and is one of the twelve months ending with `ts`'s month |
| Rules.LatentMonthNeverMovesForward | timenlp/time/rules.py:395-398 | the `elif` test is always false, so the month is either kept in `ts`'s year or moved back one year |
| Rules.LatentDoyDate | timenlp/time/rules.py:402-409 | the resolved datetime is valid |
| Rules.LatentDoy | timenlp/time/rules.py:402-413 | the result is a well-formed date in the requested month |
| Rules.LatentDoyWindow | timenlp/time/rules.py:402-409 | the result has the requested month, lies at or before `ts` + 1 month and in the 13 months ending there, has the requested day clamped first to month m of `ts`'s year and then to month m of the result's year (so exactly the requested day when both years have it); the same month and day a year after the result is not before `ts` + 1 month, and when it equals `ts` + 1 month exactly the result is the date in `ts`'s year |
| Rules.LatentDoyClampsLeapDay | timenlp/time/rules.py:402-406 | the two clamps: on 2024-01-10 09:00, "Feb 29" is more than a month ahead and one year back becomes 2023-02-28 |
| Rules.LatentDoyMovesForward | timenlp/time/rules.py:407-408 | the forward move fires: on 2022-12-20 09:00, "Jan 5" resolves to 2023-01-05 |
| Rules.LatentDoyBoundaryKeepsOlderYear | timenlp/time/rules.py:402-409 | on 2022-12-05 09:00, "Jan 5" resolves to 2022-01-05, although 2023-01-05 is within the one-month tolerance |
| Rules.LatentPodDate | timenlp/time/rules.py:416-425 | the resolved datetime is valid |
| Rules.LatentPod | timenlp/time/rules.py:416-425 | raises exactly when the POD has no hours entry; otherwise a well-formed date with the POD and no hour |
| Rules.LatentPodIsMostRecentStart | timenlp/time/rules.py:421-424 | the result is the POD's start hour at minute 0, strictly before `ts`, and the next day's start is not before `ts` (the most recent start) |
| Rules.EndOfMonth | timenlp/time/rules.py:251-254 | the result is a well-formed date in the same year and month, on its last day |
| Rules.DayBeforeNextMonth | timenlp/time/rules.py:253 | stepping a month from the first and back a day reaches the month's last day |
| Rules.FirstOfNextMonth | timenlp/time/rules.py:253 | adding a month to the first equals the day after the month's last day |
| Rules.Year | timenlp/time/rules.py:193-222 | declines exactly for two-digit years; otherwise a bare year |
| Helpers.NumberRegexAbove20 | timenlp/helpers.py:32-53 | `None` exactly from a thousand on |
| Helpers.Digits | timenlp/helpers.py:33-35 | the digits are in range and recompose the number |
| Helpers.TensOnesAlternatives | timenlp/helpers.py:44-51 | the tens-and-ones pattern splits at its bars into the run-together, hyphenated and spaced spellings |
| Helpers.NumberRegexSpellsOut | timenlp/helpers.py:32-53 | for 21..99 the pattern's alternatives are exactly the tens word, or the three written forms, and include the usual English spelling |
| Helpers.HundredsBindLoosely | timenlp/helpers.py:42-43 | for 100..199 the bare "an?" is a whole alternative of the pattern |
| Helpers.NamedNumbers | timenlp/helpers.py:55 | the extended table has 59 entries numbered 1..59 in order |
| Helpers.NamedNumbersSpellOut | timenlp/helpers.py:55 | each added entry includes the usual spelling of its number |
| Helpers.PySlice | timenlp/helpers.py:58 | Python slicing never yields more than the sequence |
| Helpers.RuleEntriesAreRange | timenlp/helpers.py:57-59 | `make_rule_named_number(start, end)` makes groups for exactly start..end, in order |
| Helpers.RuleFromZeroIsEmpty | timenlp/helpers.py:57-59 | Python's slice edge: a start of 0 slices from the last entry and the rule is empty |
| Helpers.RuleEntries | timenlp/helpers.py:58 | the sliced entries are consecutive entries of the table, each at the position its number names |
| Helpers.NamedGroup | timenlp/helpers.py:58 | the group opens with `(?P<` and the name `GroupKey(prefix, n)`, holds the entry's pattern, and closes with `)` |
| Helpers.Join | timenlp/helpers.py:58 | joining nothing gives the empty string; otherwise the text starts with the first part |
| Helpers.JoinLength | timenlp/helpers.py:58 | the joined text ends with the last part, at its offset: each earlier part and one separator apiece |
| Helpers.JoinPartAt | timenlp/helpers.py:58 | each part sits at its offset |
| Helpers.JoinSepAfter | timenlp/helpers.py:58 | the separator follows every part but the last; with the two rows above this fixes the joined text |
| Helpers.JoinPartThenSep | timenlp/helpers.py:58 | every part but the last is read together with the separator after it, at the part's offset |
| Helpers.JoinPlaces | timenlp/helpers.py:58 | at the offset it returns, part k is there, followed by the separator unless k is the last part |
| Helpers.JoinGroupsPlaces | timenlp/helpers.py:58 | in "\|".join of the groups, group k sits at the returned offset, followed by "\|" unless it is the last |
| Helpers.TableGroupFor | timenlp/helpers.py:57-59 | for any table numbered 1..59, joining the groups of the slice start..end contains the group for each n in start..end, followed by "\|" for every n before `end` |
| Helpers.MakeRuleNamedNumber | timenlp/helpers.py:57-59 | the rule is empty exactly when the slice of the table is; its groups are separated by "\|" (see `RuleBarAfterGroup`) |
| Helpers.RuleEntryFor | timenlp/helpers.py:57-59 | the slice for start..end has end - start + 1 entries, and the entry for n, with the table's pattern for n, is at position n - start |
| Helpers.RuleHasGroupFor | timenlp/helpers.py:57-59 | for each n in start..end the rule contains the group named `GroupKey(prefix, n)` around the table's pattern for n |
| Helpers.RuleBarAfterGroup | timenlp/helpers.py:57-59 | for each n in start..end - 1 the rule contains that group immediately followed by the alternation bar "\|" |
| Helpers.NatToString | timenlp/helpers.py:58 | the group-name number is a non-empty string of decimal digits |
| Helpers.NatToStringRoundTrip | timenlp/helpers.py:58 | reading the decimal digits back gives the number (`int(str(n)) == n`) |
| Helpers.GroupKeyInjective | timenlp/helpers.py:58-63 | distinct numbers get distinct group names under one prefix, so the rule's groups and the reader's names pair up one to one |
| Helpers.GroupKeyOfLastEntry | timenlp/helpers.py:63 | the name for 59 under the default prefix is "n_59" |
| Helpers.GetNumberFromMatch | timenlp/helpers.py:61-66 | the loop returns the first-match specification over the numbers 1..59 |
| Helpers.FirstMatchMeaning | timenlp/helpers.py:61-66 | a returned number's group matched, and every earlier group exists and did not match; an error names a missing group with every earlier one unmatched; `None` exactly when every group exists and none matched |
| Helpers.GetDomFromMatch | timenlp/helpers.py:107-114 | the loop returns the last-match specification over the ordinals 1..31 |
| Helpers.LastMatchMeaning | timenlp/helpers.py:107-114 | raises exactly when some group is missing; with no match the initial value comes back; otherwise a number whose group matched and after which none did |
| Helpers.ReadersPickOppositeEnds | timenlp/helpers.py:61-114 | when groups 1 and 2 both match, the number reader returns 1 and the ordinal reader 2 |
| Calendar.MinutesOrder | timenlp/time/postprocess_latent.py:37 | the lexicographic datetime comparison agrees with the minute time line |
| Calendar.AddMonths | timenlp/time/rules.py:380 | adding months gives a valid datetime with the month index moved and the day clamped |
| Calendar.NextWeekday | timenlp/time/rules.py:387 | `relativedelta(weekday=…)` reaches the requested weekday within six days ahead and keeps the clock time |

## Left out

- The regular expressions themselves and their matching are left out. Patterns are kept as strings. A match is a map from group name to "matched a non-empty text".
- Rules outside the core are not part of this model. These include every rule that only reads a regex match, ruleDOWDOM with its `rrule` search, `rulePODInterval`, the fraction-duration rules, and `make_ordered_DOM_rule`. The rule registry, the parser, the scorer and the corpus are not part of this model either.
- timenlp/types.py is not part of this model. `Time`'s field layout and its `isX`/`hasX` predicates follow the `_hasOnly`/`_hasAtLeast` scheme. `pod_hours` is a parameter of `LatentPod` rather than the global table.
- The `print` on line 60 of postprocess_latent.py is left out because it is only diagnostic output.
- Seconds, microseconds and time zones are left out. `ts` can carry seconds, and `ts + relativedelta(hour=…, minute=…)` keeps them; a datetime rebuilt from a `Time` (`to_datetime_unsafe`, `Time.dt`, `datetime(...)`) has zero seconds. The whole-minute model decides a comparison the way Python does in two cases. The first is when both sides carry the same seconds. The second is when a zero-second `x` and a `y` carrying `ts`'s seconds `s` are compared as `x > y` (or `y < x`). Take `y` at minute `m`: a whole minute is after `m + s` exactly when it is after `m`. This covers the future test `dm_to - FUTURE_TOLERANCE_DELTA > ts` with an anchored end. Every other comparison in the modelled code has equal seconds on both sides.
- PostprocessLatent.LatentTimeInterval: the reversed-pair test `dm_to < dm_from` (postprocess_latent.py:67) can compare a zero-second end (a time of day, anchored by `_latent_tod`) with a start that is not a time of day and keeps `ts`'s seconds. When both fall on the same minute and `ts` has a non-zero second, Python sees a reversed pair and repairs it; the model sees equal minutes and does not. The dispatcher never produces this input: `apply_postprocessing_rules` calls `_latent_time_interval` only for `isTimeInterval`, where both bounds are times of day and both have zero seconds.
- Python's `MINYEAR`/`MAXYEAR` bounds are not modelled: years are unbounded integers, so no `OverflowError` occurs.
- `str.lower()` is limited to ASCII letters in `StartsWithLower`.
- Rules.MaybeApplyAmPm: returns the updated copy instead of setting `meridiemLatent` on its argument in place. Its callers pass a freshly built `Time`, so no alias observes the difference.
- Rules.IsValidMilitaryTime: the converse direction (acceptance) is stated only for an hhmm below the current year, not for every hhmm that passes the checks.
- The diagnostic fraction tag of `Duration` is left out.
- PostprocessLatent.LatentTimeIntervalOrdered: is stated only for starts that are not latent afternoon hours. A latent hour of 12 or more can be anchored after `ts` (see `LatentAfternoonHourCanBeFuture`), and then the start can end up after a shifted end (`LatentAfternoonStartCanStayReversed`: read at 00:30, a latent 13:00 – 00:45 resolves to 01:00 – 00:45 on the day before).
- Behaviours that follow from the code as written and are stated by lemmas, not reported as defects:
  - 12 am keeps hour 12 (`AmPmEdgeHours`);
  - `ruleDateDOM` can build a non-existent date such as 30 February (`DateDom`);
  - the `elif` branch of ruleLatentMonth can never fire (`LatentMonthNeverMovesForward`);
  - a POD end of `ruleDateInterval` gets hour 0 on the next day (`DateIntervalWrapsPodToMidnight`);
  - at the exact boundary of ruleLatentDOY, where next year's date equals `ts` + 1 month, the strict `<` keeps the older year (`LatentDoyBoundaryKeepsOlderYear`; before the boundary the date does move forward, `LatentDoyMovesForward`);
  - the hundreds part of the number regex binds only to the first alternative (`HundredsBindLoosely`; the code only uses numbers 21..59).

## Findings

| source | as written | input that shows it | evidently intended | confidence | as-written member | corrected member |
|---|---|---|---|---|---|---|
| timenlp/time/rules.py:378-380 | `ts + relativedelta(day=d)` clamps the day to `ts`'s month, then `- relativedelta(months=1)` keeps that clamped day in the previous month | ts = 2022-02-10 09:00, "the 30th": the day clamps to 28 in February, and stepping back a month gives 2022-01-28 | the most recent 30th, 2022-01-30 (the day clamped only to the month it lands in) | not executed | Rules.LatentDomClampsTwice | Rules.LatentDomCorrectedIsMostRecent |
