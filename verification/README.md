# Verification of an instant-messaging server's core

This project models the parts of the server that hold state, loops and arithmetic, and proves
what they promise. It has nine parts.

1. **Cron engine.** Expressions are parsed into 64-bit masks; `Next` and `Prev` search the
   Gregorian calendar for the nearest instant that fits the masks. `Calendar`, `Bits`,
   `Schedule`, `CustomSchedule` and `Firing` say what an expression means; `ForwardSearch`,
   `BackwardSearch`, `BackwardMonths` and `BackwardClock` hold the nested loops with the one-shot
   flag `initFlag`, `BackwardPasses` the passes of the search backward, and `BackwardEnds` and
   `BackwardFinds` what the masks say about it: when it ends and when it is right; `October` is an
   expression for which it is not. `CronExpr`, `CustomCronExpr`, `CronParser` and
   `CustomCronParser` hold the entry points, `CronTexts`, `CustomCronYears` and `CustomCronTexts`
   what texts mean, and `FiringTimes` what the searches give, in terms of the calendar alone;
   `Dates` holds fixed points of the calendar. Instants are whole seconds in UTC, counted from
   0001-01-01, and a month has an absolute number, so that 12 * y is January of year y. The zero
   time is `None`.
2. **Protobuf codec** of the stored contact lists, in the encoding that the Protocol Buffers
   documentation describes under "Base 128 Varints", "Length-Delimited Records", "Packed
   Repeated Fields" and "Last One Wins". `Wire`, `WireFields` and `Messages` say what a byte
   string means; `Decoding`, `Encoding`, `FieldMeanings`, `Reencoding` and `PackedLikers` hold the
   laws, and `CodecBytes` the bytes themselves; `Buffers` and the `...Objects` modules hold the
   methods that fill arrays from the back and update message objects, proved against those
   functions.
3. **Snowflake ids**, with a mutex (`Snowflake`) and with compare-and-swap
   (`SnowflakeConcurrent`, a state machine whose actions are the atomic steps of any number of
   threads); `SnowflakeIds` says which ids they hand out.
4. **Session replacement** (`ClientManager`, `Sessions`, `SessionRuns`): a login kicks the earlier
   session of its account and terminal, waits until that one is gone, and stores the new one.
5. **Friend handshake** (`Friends`, `FriendRows`): requests, verification rows, messages that may
   be lost, delayed or delivered twice, and the recovery at login.
6. **Rotating log** (`RotatingLog`), 7. **colour lists** (`Colors`, `ColorBytes`), 8. **configuration
   tables** (`CsvRecords`, `CsvTables`), and 9. the text functions that the parsers use (`Text`).

Where the source updates state in place the model does too: a class with the source's fields
whose methods are proved against functions on values. Concurrent code is a state machine, and
results about it hold for every sequence of enabled actions from the initial state.

## What the proofs found

- The stepping loop of a cron field adds the increment to an int. With an increment close to
  2^63 the sum wraps around, and bits before the start of the range are set, even outside the
  bounds of the field. `CronParser.StepsAreDenotedExactly` and
  `CronParser.AcceptedFieldInBoundsIff` give the exact conditions,
  `CronParser.LongStepLeavesBounds` the text `2/9223372036854775807`.
- The month loop of `Prev` keeps the day number while it steps back, so with a restricted month
  it can pass over the end of the month it selects. `BackwardMonths.FreshLandingExactIff` and
  `BackwardMonths.RepeatedLandingExactIff` give the exact conditions for the landing, through
  every `goto retry`; `BackwardPasses.PrevFindsIff` says when the greatest match is found,
  `BackwardFinds.FindsFromAnywhereIff` for which masks it is found from every start, and
  `CustomCronTexts.InRangeFindsIff` for which texts: with year `*` and words in range, only those
  with month `*`, or with day 1 and weekday `*`. `CustomCronTexts.OctoberTextGives30` is the
  instance `*,10,*,*,*,*`.
- So `Next` and `Prev` undo each other only where `Prev` sees the way back.
  `CustomCronExpr.PrevUndoesNextIff` and `CustomCronExpr.NextUndoesPrevIff` give the exact
  conditions; in `October.OctoberIsNotUndone` the way from October 31 to the next October 1 and
  back ends at an October 1.
- With year `*` the search forward has no bound; if the calendar cannot meet the fields there is
  nothing for it to return. `CustomSchedule.HasNextIff` gives the condition on the masks and
  `CustomCronTexts.InRangeHasNextIff` the one on the text: a month with a day that it never has,
  and no weekday.
- With year `*` the month loop of `Prev` can go back for ever. `BackwardPasses.EndsIff` gives the
  condition for each start, `BackwardEnds.EndsFromAnywhereIff` the condition on the masks and
  `CustomCronParser.InRangeEndsIff` the one on the text: a lone month with day 30 or 31 and no
  weekday. `CustomCronParser.March31TextEndsIff` is the instance `*,3,31,0,0,0`.
- A login deletes all verification rows of an account although it has passed over those whose
  brief information could not be read; somebody can then list an account that does not list
  him, with no row left to repair it. `Friends.LoginKeepsIff` gives the exact condition,
  `Friends.LoginLosesSomebody` a run that gets there.
- A call of the mutex generator that has run out of sequence numbers takes whatever tick it
  finds after its sleeps; unless that one is later, its id is no greater than the last
  (`Snowflake.ExhaustedCallIncreasesIff`), and with a clock that stands still ids come again
  (`Snowflake.EqualTimesRepeatIds`).

## Model

| member | source | states |
|---|---|---|
| `Calendar.YearsAgreeWithClosedForm` | common-library/timer/cronexpr.go:194-199 | the calendar behind `t.Year()`: summing month lengths gives the closed form of the Gregorian day count for every year |
| `Calendar.FieldsOfDate` | common-library/timer/cronexpr.go:204-220 | an instant built by `time.Date` from in-range fields has these fields |
| `Calendar.DateOfFields` | common-library/timer/cronexpr.go:204-223 | every instant is rebuilt from its month, day, hour, minute and second |
| `Calendar.MonthUnique` | common-library/timer/cronexpr.go:204-211 | every day lies in exactly one month, in both directions of time |
| `Dates.MonthStartInYear` | common-library/timer/cronexpr.go:204-211 | the first day of each month, by the days before it in its year and the closed form for years |
| `Dates.UnixEpoch` | common-library/timer/cronexpr.go:190-199 | the start of 1970 is second 62135596800 of the count, a Thursday |
| `Dates.LeapDay2024` | common-library/timer/cronexpr.go:174-227 | the last second of 2024-02-29 and its fields |
| `Dates.WeekdaysFollow` | common-library/timer/cronexpr.go:174-187 | weekdays follow each other from day to day, Sunday being 0 |
| `Schedule.EveryDayIsLiteral` | common-library/timer/cronexpr.go:174-178 | a day mask equals 0xfffffffe exactly when it selects the days 1 to 31 and nothing else |
| `Schedule.EveryWeekdayIsLiteral` | common-library/timer/cronexpr.go:180-183 | a weekday mask equals 0x7f exactly when it selects the weekdays 0 to 6 and nothing else |
| `Bits.HasIsBitTest` | common-library/timer/cronexpr.go:204 | `1<<uint(i)&m != 0` tests bit i, whatever i |
| `Firing.SelectedDayFires` | common-library/timer/cronexpr.go:203-265 | a selected day has an instant at which the whole expression matches, if some time of day is selected |
| `Firing.FiresWithinEightYears` | common-library/timer/custom_cronexpr.go:129-206 | an expression that the calendar can meet fires in one of the eight years after any given year, the gap around a century included |
| `Firing.SatisfiableIffFires` | common-library/timer/custom_cronexpr.go:129-206 | the condition on the masks is exact: it holds if and only if some instant matches |
| `ForwardSearch.SkipMonths` | common-library/timer/cronexpr.go:203-214 | the month loop passes over no match, keeps the alignment that `initFlag` stands for, moves on when it retries and otherwise ends in a selected month of the same year |
| `ForwardSearch.SkipDays` | common-library/timer/cronexpr.go:216-227 | the same for the day loop and the day rule |
| `ForwardSearch.SkipHours` | common-library/timer/cronexpr.go:229-240 | the same for the hour loop |
| `ForwardSearch.SkipMinutes` | common-library/timer/cronexpr.go:242-253 | the same for the minute loop |
| `ForwardSearch.SkipSeconds` | common-library/timer/cronexpr.go:255-265 | the same for the second loop, which ends in a match |
| `CronExpr.Next` | common-library/timer/cronexpr.go:190-268 | for every mask and every t the search ends; it returns the least match after t that lies before the end of the year after that of the following second, and zero exactly when there is none |
| `CronExpr.NextFailsExactly` | common-library/timer/cronexpr.go:190-268 | with some time of day selected, zero is returned exactly when the rest of the day holds no match and no later day before the horizon is selected |
| `CronExpr.NextGuaranteed` | common-library/timer/cronexpr.go:174-187 | a restricted weekday, or a selected day up to 28, guarantees a result |
| `FiringTimes.AskedIffMatches` | common-library/timer/cronexpr.go:174-187 | an instant matches if and only if its fields are selected, the day by the rule that the two literals decide |
| `FiringTimes.NextIsFirstAsked` | common-library/timer/cronexpr.go:174-268 | the result has a selected month, hour, minute and second, and a selected weekday or day as the rule says; nothing between has them, and zero means that nothing up to the end of the following year has |
| `FiringTimes.WeeklyResults` | common-library/timer/cronexpr.go:174-268 | with one weekday, every day and month, and one time of day, results follow each other at exactly 604800 seconds |
| `FiringTimes.MondayAfterNewYear2024` | common-library/timer/cronexpr.go:174-268 | for Mondays at midnight the result after 2024-01-01 is 2024-01-08 |
| `FiringTimes.HorizonMovesAtYearEnd` | common-library/timer/cronexpr.go:190-199 | for February 29 the search from 2022-12-31 23:59:58 gives up |
| `FiringTimes.HorizonReachesLeapDay` | common-library/timer/cronexpr.go:190-199 | and a second later it finds 2024-02-29 |
| `CustomCronExpr.Next` | common-library/timer/custom_cronexpr.go:129-206 | with year `*` the least match after t, found within eight calendar years; with a fixed year the least later match inside it, and zero when there is none or the next second lies outside it |
| `FiringTimes.CustomNextIsFirstAsked` | common-library/timer/custom_cronexpr.go:113-206 | the result lies in the year asked for, has selected fields, and nothing between has them |
| `FiringTimes.CustomWeeklyResults` | common-library/timer/custom_cronexpr.go:113-206 | results for one weekday and one time of day are a week apart |
| `BackwardMonths.SkipMonthsBack` | common-library/timer/custom_cronexpr.go:221-238 | the month loop computes MonthLoopBack, with the flag it leaves and whether it retries |
| `BackwardMonths.MonthStepBack` | common-library/timer/custom_cronexpr.go:222-234 | a round of the month loop enters the month before, or an earlier day of the same month |
| `BackwardMonths.FirstRound` | common-library/timer/custom_cronexpr.go:223-234 | the first round reaches the end of the month before unless the month it starts in is shorter than that one |
| `BackwardMonths.NextRound` | common-library/timer/custom_cronexpr.go:229-234 | a later round keeps the day number, cut down to the length of the month before |
| `BackwardMonths.NearestBeforeIsNearest` | common-library/timer/custom_cronexpr.go:222-238 | the nearest selected month before a given one, from the masks alone and across the turn of the year |
| `BackwardMonths.LandsFrom` | common-library/timer/custom_cronexpr.go:215-238 | entered with the flag set, in a December too, the runs of the loop land in the nearest selected month, with the least of the day number and the lengths of the months on the way |
| `BackwardMonths.FreshLandingExactIff` | common-library/timer/custom_cronexpr.go:215-238 | entered anew, the runs of the loop land in the nearest selected month before, at its last second if and only if the month they start in is no shorter than the one before it and no month on the way is shorter than the one they land in |
| `BackwardMonths.RepeatedLandingExactIff` | common-library/timer/custom_cronexpr.go:215-238 | entered by a retry, at its last second if and only if neither the day number nor a month on the way is less |
| `BackwardMonths.AprilToMarch` | common-library/timer/custom_cronexpr.go:222-238 | from April an expression for March is left at the end of March 1 |
| `BackwardMonths.JanuaryToOctober` | common-library/timer/custom_cronexpr.go:215-238 | from January an expression for October goes to December 31, by a retry to December 30, and by a second retry to October 30 |
| `BackwardClock.SkipDaysBack` | common-library/timer/custom_cronexpr.go:240-253 | the day loop computes DayLoopBack |
| `BackwardClock.DayLoopKeeps` | common-library/timer/custom_cronexpr.go:240-253 | inside a selected month the day loop passes over no match and ends at a selected day or, by a retry, at the last second of the month before |
| `BackwardClock.SkipHoursBack` | common-library/timer/custom_cronexpr.go:255-266 | the hour loop computes HourLoopBack |
| `BackwardClock.HourLoopKeeps` | common-library/timer/custom_cronexpr.go:255-266 | the same for the hour loop, whose retry stands at the last second of the day before |
| `BackwardClock.SkipMinutesBack` | common-library/timer/custom_cronexpr.go:268-279 | the minute loop computes MinuteLoopBack |
| `BackwardClock.MinuteLoopKeeps` | common-library/timer/custom_cronexpr.go:268-279 | the same for the minute loop, and the last second of the hour before |
| `BackwardClock.SkipSecondsBack` | common-library/timer/custom_cronexpr.go:281-291 | the second loop computes SecondLoopBack |
| `BackwardClock.SecondLoopKeeps` | common-library/timer/custom_cronexpr.go:281-291 | the same for the second loop, which ends in a match, or by a retry at the last second of the minute before |
| `CustomCronExpr.Prev` | common-library/timer/custom_cronexpr.go:209-294 | whenever the search ends it returns what the passes of the source return: the greatest match before t0 among those whose day is not later than the one with which the search enters their month; zero with a fixed year that the second before t0 lies outside of or in which it sees none |
| `FiringTimes.PrevIsLastAsked` | common-library/timer/custom_cronexpr.go:113-294 | the greatest firing instant lies in the year asked for, has selected fields, and nothing between has them |
| `FiringTimes.WeeklyBack` | common-library/timer/custom_cronexpr.go:113-294 | results of the search backward for one weekday and one time of day are a week apart |
| `BackwardPasses.PassKeeps` | common-library/timer/custom_cronexpr.go:215-293 | a pass moves back, keeps that nothing seen was passed over, and returns only the last match seen or, outside a fixed year, zero |
| `BackwardPasses.EndsIff` | common-library/timer/custom_cronexpr.go:209-294 | the search from t0 ends if and only if the year is fixed or it sees a match |
| `BackwardPasses.PrevFindsIff` | common-library/timer/custom_cronexpr.go:209-294 | the greatest firing instant before t0 is found if and only if its day is not later than the one with which the search enters its month |
| `BackwardEnds.EntryWholeIff` | common-library/timer/custom_cronexpr.go:222-238 | the search enters a selected month at its end if and only if no month up to the next selected one, or up to the start, is shorter, and in the latter case the start is no shorter than the month before it |
| `BackwardEnds.EntryFromStart` | common-library/timer/custom_cronexpr.go:222-238 | up to a month with no selected one between, the day of entry is the day number that the month loop carries there from its first round |
| `BackwardEnds.EntryFromSelected` | common-library/timer/custom_cronexpr.go:222-238 | behind a selected month it is the one that the loop carries from the end of the month before that |
| `BackwardEnds.LandsOnEntry` | common-library/timer/custom_cronexpr.go:215-238 | entered anew, the runs of the loop land at the entry of the nearest selected month |
| `BackwardEnds.WholeMonthsGivePrev` | common-library/timer/custom_cronexpr.go:209-294 | with any months selected, if every selected month is entered at its end the result is the greatest firing instant before t0 |
| `BackwardEnds.EveryMonthGivesPrev` | common-library/timer/custom_cronexpr.go:209-294 | with month `*` the result is always the greatest firing instant before t0 |
| `BackwardEnds.JanuaryMissesOctober` | common-library/timer/custom_cronexpr.go:209-294 | from January an expression for all of October returns October 30 although October 31 fires |
| `BackwardEnds.EndsFromAnywhereIff` | common-library/timer/custom_cronexpr.go:209-294 | with year `*` the search ends from every start if and only if some time of day is selected and some selected month has a selected weekday, or a selected day that is entered in time in a leap year |
| `BackwardEnds.March31EndsIff` | common-library/timer/custom_cronexpr.go:209-294 | the search for March 31 of any year ends if and only if it starts on a March 31 |
| `BackwardFinds.FindsUnlessLeftBehind` | common-library/timer/custom_cronexpr.go:209-294 | from every start the search ends with the greatest firing instant before it if and only if there is something to find and no month that is shorter than the one before it follows, with no selected month between, a month that fires on a day later than their difference |
| `BackwardFinds.FindsFromAnywhereIff` | common-library/timer/custom_cronexpr.go:209-294 | the same condition on the masks alone, with year `*` and with a fixed year |
| `October.JanuaryGivesOctober30` | common-library/timer/custom_cronexpr.go:209-294 | from January the search for all of October ends with October 30, which is not the greatest firing instant |
| `CustomCronExpr.PrevUndoesNextIff` | common-library/timer/custom_cronexpr.go:129-294 | from the instant after a firing instant t the search backward returns to t if and only if the day of t is not later than the one with which that search enters its month |
| `CustomCronExpr.NextUndoesPrevIff` | common-library/timer/custom_cronexpr.go:129-294 | from what the search backward returns for a firing instant t the search forward returns to t if and only if the former has seen the greatest firing instant before t |
| `CustomCronExpr.PrevUndoesNext` | common-library/timer/custom_cronexpr.go:129-294 | unless the masks lead the search backward astray it always returns to t |
| `CustomCronExpr.NextUndoesPrev` | common-library/timer/custom_cronexpr.go:129-294 | unless they do the search forward always returns to t |
| `BackwardFinds.EveryMonthIsNotAstray` | common-library/timer/custom_cronexpr.go:222-238 | month `*` never leads it astray |
| `October.OctoberIsNotUndone` | common-library/timer/custom_cronexpr.go:129-294 | from October 31 forward to the next October 1, and backward from there to October 1 of the first year |
| `CustomSchedule.HasNextIff` | common-library/timer/custom_cronexpr.go:129-206 | there is something for the search forward to return if and only if the year is fixed or the calendar can meet the masks |
| `CronParser.RangeMaskIsRun` | common-library/timer/cronexpr.go:161-163 | the two shifts select exactly the bits from start to end |
| `CronParser.SetSteps` | common-library/timer/cronexpr.go:164-168 | the stepping loop ends and adds exactly the visited bits, also when its counter wraps around |
| `CronParser.StepsAreDenotedExactly` | common-library/timer/cronexpr.go:164-168 | the visited bits are those of start, start + incr and so on up to end if and only if start < 2 * (2^63 - incr) |
| `CronParser.ParseOfPrintedPart` | common-library/timer/cronexpr.go:88-159 | each of the six written forms of a part, with bounds inside the field, is read with its meaning |
| `CronTexts.PartAcceptedIff` | common-library/timer/cronexpr.go:88-159 | a part is accepted if and only if its text is a star, a number or two numbers with a hyphen, with or without a step, the numbers in their order and inside the bounds and the step positive; and what it then means |
| `CronTexts.PartErrors` | common-library/timer/cronexpr.go:88-159 | the errors of a malformed part, in their order |
| `CronParser.ParseCronField` | common-library/timer/cronexpr.go:85-172 | on success the mask has a bit exactly when some comma part contributes it; otherwise the error is that of the first malformed part |
| `CronTexts.FieldOfParts` | common-library/timer/cronexpr.go:85-172 | parts between commas mean what they mean together |
| `CronTexts.StarField` | common-library/timer/cronexpr.go:103-109 | a star selects the whole range |
| `CronParser.AcceptedFieldSelects` | common-library/timer/cronexpr.go:85-172 | the mask of an accepted field selects something between the bounds |
| `CronParser.PartInBoundsIff` | common-library/timer/cronexpr.go:161-168 | a part sets no bit outside the bounds of its field if and only if its step does not overflow or comes back in strides that stay in them |
| `CronParser.AcceptedFieldInBoundsIff` | common-library/timer/cronexpr.go:85-172 | the mask of an accepted field lies inside the bounds if and only if each of its parts stays in them |
| `CronParser.SafeStepsStay` | common-library/timer/cronexpr.go:161-168 | parts whose steps are safe stay in the bounds |
| `CronParser.LongStepLeavesBounds` | common-library/timer/cronexpr.go:161-168 | the part `2/9223372036854775807` of a day field is accepted and sets bit 0 |
| `CronParser.FieldSetsDenoted` | common-library/timer/cronexpr.go:85-172 | when no step wraps around so far as to come back, bit b is set exactly when some part denotes b |
| `CronParser.NewCronExpr` | common-library/timer/cronexpr.go:30-77 | an expression with six words that are valid fields gives the masks of second, minute, hour, day, month and weekday in this order and with their bounds; with five the second is 0 and the words are the others; any other number of words is refused, and the error is that of the first invalid field |
| `CronParser.FailureIsExact` | common-library/timer/cronexpr.go:30-77 | a text with an invalid field has one first error and no masks |
| `CronTexts.SixNumbers` | common-library/timer/cronexpr.go:30-77 | six numbers select that second, minute, hour, day, month and weekday alone |
| `CronTexts.SixNumbersFire` | common-library/timer/cronexpr.go:30-268 | a text with six different numbers, from its characters to the first instant of 2024 at which it fires |
| `Text.WordsAreWords` | common-library/timer/cronexpr.go:31 | the words of a text are not empty and have no white space |
| `Text.WordsOfSpaced` | common-library/timer/cronexpr.go:31 | the words of a text are found again, whatever white space stands around and between them |
| `Text.NumberRead` | common-library/timer/cronexpr.go:111-127 | a number is read from digits behind an optional sign if it fits an int64 |
| `CronParser.AcceptedNextFails` | common-library/timer/cronexpr.go:30-77 | for an accepted expression `Next` returns zero only if the weekday is unrestricted, no day up to 28 is selected and no later day before the horizon is |
| `CustomCronParser.CustomFieldBits` | common-library/timer/custom_cronexpr.go:91-111 | a custom field selects all of its range or the bit of its number, which is not checked against the range |
| `CustomCronYears.CustomAcceptedIff` | common-library/timer/custom_cronexpr.go:24-111 | a text is accepted if and only if it has six or seven words that are stars or numbers |
| `CustomCronYears.CustomMasks` | common-library/timer/custom_cronexpr.go:24-111 | the words are year, month, day, hour, minute, second and weekday; a star for the year is 2147483647 |
| `CustomCronYears.CustomYear` | common-library/timer/custom_cronexpr.go:24-206 | with a number for the year an accepted expression fires in that year only, with a star in every year in which the fields match |
| `CustomCronYears.OneDateFiresOnce` | common-library/timer/custom_cronexpr.go:24-206 | the date that six numbers name fires exactly once |
| `CustomCronYears.NextIsOneDate` | common-library/timer/custom_cronexpr.go:129-206 | from any earlier instant of its year `Next` gives it |
| `CustomCronYears.August2023` | common-library/timer/custom_cronexpr.go:24-206 | the text `2023,8,20,22,22,22` asked at the start of 2023 |
| `CustomCronParser.InRangeSatisfiable` | common-library/timer/custom_cronexpr.go:24-86 | the masks of words in range can be met in some year unless the weekday is `*` and the day never occurs in the month |
| `CustomCronTexts.InRangeFiresIff` | common-library/timer/custom_cronexpr.go:24-86 | an expression with words in range fires unless its weekday is `*` and its month does not have the day, with a fixed year in that year |
| `CustomCronTexts.InRangeHasNextIff` | common-library/timer/custom_cronexpr.go:24-206 | with year `*` and words in range there is something for the search forward to return unless the weekday is `*` and the day never occurs in the month |
| `CustomCronTexts.InRangeFindsIff` | common-library/timer/custom_cronexpr.go:24-294 | with year `*` and words in range the search backward is right from every start if and only if the month is `*`, or the day is 1 and the weekday `*` |
| `CustomCronTexts.InRangeFindsInYearIff` | common-library/timer/custom_cronexpr.go:24-294 | with a fixed year also if the month is November or December, or does not have the day in that year |
| `CustomCronTexts.OctoberTextGives30` | common-library/timer/custom_cronexpr.go:24-294 | the text `*,10,*,*,*,*` asks for all of October, and its search backward from January ends with October 30 |
| `CustomCronParser.InRangeEndsIff` | common-library/timer/custom_cronexpr.go:24-86 | with year `*` and words in range the search backward ends from every start unless the weekday is `*`, the month a number and the day 30 or 31 |
| `CustomCronParser.March31TextEndsIff` | common-library/timer/custom_cronexpr.go:24-86 | the text `*,3,31,0,0,0` asks for every March 31, and its search backward ends if and only if it starts on one |
| `Wire.VarintSizeExact` | common-library/proto/msg_struct/data_def.pb.go:660-662 | `sovDataDef` is the number of bytes of the varint, 0 included |
| `CodecBytes.VarintIsGroups` | common-library/proto/msg_struct/data_def.pb.go:676-689 | a varint, minimal or not, is worth its groups of seven bits without those above the 64th, and ends at its first byte below 128 |
| `CodecBytes.NoVarint` | common-library/proto/msg_struct/data_def.pb.go:676-689 | without such a byte among ten it overflows, or the buffer has ended |
| `CodecBytes.TwosComplement` | common-library/proto/msg_struct/data_def.pb.go:550-560 | signed numbers are written modulo 2^64 |
| `CodecBytes.LengthRead` | common-library/proto/msg_struct/data_def.pb.go:718-743 | a length leads to the end of a payload inside the buffer, or to the error that the code gives |
| `CodecBytes.NoLength` | common-library/proto/msg_struct/data_def.pb.go:718-732 | a length that is no varint gives the error of the varint |
| `Wire.ReadEncoded` | common-library/proto/msg_struct/data_def.pb.go:550-560 | a varint read where it was written gives its number and its end |
| `Wire.ReadVarintLocal` | common-library/proto/msg_struct/data_def.pb.go:676-689 | a read that succeeds depends on the bytes it consumes only |
| `WireFields.SkipField` | common-library/proto/msg_struct/data_def.pb.go:1224-1328 | skipping a well-formed field, nested groups included, followed by anything consumes exactly that field |
| `WireFields.SkippedIsField` | common-library/proto/msg_struct/data_def.pb.go:1224-1328 | conversely, what the skipper accepts inside the buffer is a well-formed field |
| `WireFields.SkipLocal` | common-library/proto/msg_struct/data_def.pb.go:1224-1328 | the length of a skipped field depends on its own bytes only |
| `CodecBytes.SkipByWireType` | common-library/proto/msg_struct/data_def.pb.go:1224-1328 | how far the skipper goes for each wire type, and its errors |
| `CodecBytes.UnknownRead` | common-library/proto/msg_struct/data_def.pb.go:746-763 | an unknown field is kept if it ends in the buffer |
| `Buffers.EncodeVarintBefore` | common-library/proto/msg_struct/data_def.pb.go:550-560 | writes the varint so that it ends at the offset, touches nothing else, and returns its start |
| `Buffers.PutVarint` | common-library/proto/msg_struct/data_def.pb.go:553-558 | the group loop writes exactly the varint from a position on and nothing else |
| `Buffers.DecodeVarint` | common-library/proto/msg_struct/data_def.pb.go:676-689 | the read loop ends on every buffer, stays inside it, and agrees with the recursive reader including both errors |
| `Buffers.SkipDataDef` | common-library/proto/msg_struct/data_def.pb.go:1224-1328 | the skipper ends on every byte string, with wrapped lengths and nested groups, and agrees with its specification |
| `Decoding.DecodeConcat` | common-library/proto/msg_struct/data_def.pb.go:1077-1223 | after a message that decodes, decoding a concatenation is decoding the second part into the result of the first |
| `Encoding.ForeignFieldsKept` | common-library/proto/msg_struct/data_def.pb.go:1199-1216 | well-formed fields of unknown number are kept byte for byte |
| `Encoding.DecodeOfEncode` | common-library/proto/msg_struct/data_def.pb.go:666-1223 | decoding an encoded message into a message merges the two: later non-default scalars win, lists and unknown bytes append, the embedded list merges |
| `Encoding.RoundTrip` | common-library/proto/msg_struct/data_def.pb.go:511-1223 | decoding an encoded message into a fresh one gives an equal message, with nested lists, negative numbers and unknown fields |
| `Encoding.DecodeOfConcatenation` | common-library/proto/msg_struct/data_def.pb.go:666-1223 | two encodings one after the other decode to the merge of the messages |
| `FieldMeanings.DecodesToMeanings` | common-library/proto/msg_struct/data_def.pb.go:666-1223 | decoding any sequence of well-formed fields, in any order and with any repetition, gives what the fields mean one after the other: later numbers and texts replace earlier ones even when they are zero or empty, entries and likers append, and the list of an account is read into the one that is there; it fails if and only if a field has the wrong type or a payload that does not decode |
| `FieldMeanings.AcceptedIsFields` | common-library/proto/msg_struct/data_def.pb.go:666-1223 | whatever a contact, a contact list or an account accepts is such a sequence |
| `CodecBytes.TagsRefused` | common-library/proto/msg_struct/data_def.pb.go:686-693 | end-group tags and field numbers that are not positive as an int32 are refused |
| `CodecBytes.UndeclaredKept` | common-library/proto/msg_struct/data_def.pb.go:746-763 | fields numbered above 2 in a contact, 1 in a list and 4 in an account are kept and change nothing else |
| `CodecBytes.WrongTypeRefused` | common-library/proto/msg_struct/data_def.pb.go:694-718 | a declared field with another wire type is refused |
| `CodecBytes.TestingContact` | common-library/proto/msg_struct/data_def.pb.go:344-366 | the twelve bytes of contact 150 named "testing" |
| `CodecBytes.SmallAccount` | common-library/proto/msg_struct/data_def.pb.go:511-548 | the bytes of an account with one contact |
| `CodecBytes.SmallLikers` | common-library/proto/msg_struct/data_def.pb.go:465-494 | the bytes of three likers |
| `CodecBytes.MinusOne` | common-library/proto/msg_struct/data_def.pb.go:550-560 | -1 takes ten bytes |
| `Reencoding.ReencodingIsStable` | common-library/proto/msg_struct/data_def.pb.go:666-1223 | whatever buffer a message was decoded from, encoding and decoding it again changes nothing |
| `Reencoding.RunStorable` | common-library/proto/msg_struct/data_def.pb.go:666-1223 | the unknown bytes that decoding keeps are always well-formed fields of unknown number |
| `PackedLikers.UnpackedLikePacked` | common-library/proto/msg_struct/data_def.pb.go:975-1051 | packed and unpacked encodings of the same values decode to the same message |
| `PackedLikers.CountTerminators` | common-library/proto/msg_struct/data_def.pb.go:1018-1024 | the counting loop counts the bytes that end a varint |
| `PackedLikers.ElementCountExact` | common-library/proto/msg_struct/data_def.pb.go:1018-1046 | the count made beforehand equals the number of values appended, and the reading stops at the end of the payload, if and only if the payload is empty or ends in a terminator; otherwise it is one less |
| `MessageObjects.ContactObject.Size` | common-library/proto/msg_struct/data_def.pb.go:561-578 | the precomputed size is the length of the encoding |
| `MessageObjects.ContactObject.MarshalToSizedBuffer` | common-library/proto/msg_struct/data_def.pb.go:344-366 | filling from the back writes the encoding right before the given end and nothing else |
| `MessageObjects.ContactObject.Marshal` | common-library/proto/msg_struct/data_def.pb.go:329-337 | a buffer of the precomputed size is filled down to index 0 |
| `MessageObjects.ContactObject.Unmarshal` | common-library/proto/msg_struct/data_def.pb.go:666-770 | on success the object holds what its old value and the bytes decode to; otherwise the error is the specified one |
| `ContactListObjects.ContactListObject.Size` | common-library/proto/msg_struct/data_def.pb.go:580-596 | the sum over the entries, each with tag and length, is the length of the encoding |
| `ContactListObjects.ContactListObject.MarshalToSizedBuffer` | common-library/proto/msg_struct/data_def.pb.go:383-407 | the loop from the last entry to the first writes the entries in order |
| `ContactListObjects.ContactListObject.Marshal` | common-library/proto/msg_struct/data_def.pb.go:368-376 | a buffer of the precomputed size is filled down to index 0 |
| `ContactListObjects.ContactListObject.Unmarshal` | common-library/proto/msg_struct/data_def.pb.go:771-858 | each entry becomes a new contact object at the end of the list |
| `LikerListObjects.PackLikers` | common-library/proto/msg_struct/data_def.pb.go:473-488 | ten scratch bytes for each value suffice, and the filled part is the packed encoding |
| `LikerListObjects.LikerListObject.Size` | common-library/proto/msg_struct/data_def.pb.go:616-633 | the precomputed size is the length of the encoding |
| `LikerListObjects.LikerListObject.MarshalToSizedBuffer` | common-library/proto/msg_struct/data_def.pb.go:465-494 | writes the packed encoding right before the given end and nothing else |
| `LikerListObjects.LikerListObject.Marshal` | common-library/proto/msg_struct/data_def.pb.go:450-458 | a buffer of the precomputed size is filled down to index 0 |
| `LikerListObjects.LikerListObject.Unmarshal` | common-library/proto/msg_struct/data_def.pb.go:947-1076 | packed and unpacked fields append their values as specified |
| `AccountObjects.AccountInfoObject.Size` | common-library/proto/msg_struct/data_def.pb.go:635-658 | the precomputed size, nested list included, is the length of the encoding |
| `AccountObjects.AccountInfoObject.MarshalToSizedBuffer` | common-library/proto/msg_struct/data_def.pb.go:511-548 | filling from the back writes the encoding with the nested list and its length |
| `AccountObjects.AccountInfoObject.Marshal` | common-library/proto/msg_struct/data_def.pb.go:496-504 | a buffer of the precomputed size is filled down to index 0 |
| `AccountObjects.AccountInfoObject.Unmarshal` | common-library/proto/msg_struct/data_def.pb.go:1077-1223 | on success the object and its list, created on demand or merged into, hold what their old value and the bytes decode to |
| `AccountObjects.Transfer` | common-library/proto/msg_struct/data_def.pb.go:496-1223 | an account marshalled by one object and unmarshalled by a fresh one has the same value, and the first is unchanged |
| `Snowflake.PartsAreDisjoint` | common-library/snowflake/snowflake.go:104-112 | on machine words the bitwise combination of time, machine and sequence is their sum, and shift and mask take it apart |
| `Snowflake.Generator.constructor` | common-library/snowflake/snowflake.go:22-26 | the initial state |
| `Snowflake.Generator.GetSnowflakeId` | common-library/snowflake/snowflake.go:83-139 | a call changes the state and returns as Advance and Issued say, for any readings of the clock |
| `Snowflake.IdDecodes` | common-library/snowflake/snowflake.go:33-41 | time, machine and sequence can be read back from an id, which fits 63 bits |
| `Snowflake.IdsOrdered` | common-library/snowflake/snowflake.go:104-112 | ids of one machine are ordered as their times, and within a time as their sequences |
| `Snowflake.TwoSleepsCrossATick` | common-library/snowflake/snowflake.go:94-100 | two sleeps of at least 10^6 ns reach a later tick of 2^20 ns |
| `Snowflake.CallKeepsOrder` | common-library/snowflake/snowflake.go:83-139 | an id exceeds every earlier one; 0 is returned exactly when the clock went back, and then nothing changes |
| `Snowflake.IdsIncrease` | common-library/snowflake/snowflake.go:83-139 | over any run the ids other than 0 strictly increase, whatever the clock does between calls |
| `Snowflake.IdsTell` | common-library/snowflake/snowflake.go:83-139 | every id of a run names its machine and a tick between entry and end of its call |
| `Snowflake.TickIsUsedUp` | common-library/snowflake/snowflake.go:89-113 | calls in one tick get consecutive sequence numbers up to 4095 |
| `Snowflake.ExhaustedCallIncreasesIff` | common-library/snowflake/snowflake.go:91-103 | without the assumption on sleeps a call that has run out of sequence numbers increases exactly when the tick it settles on is later |
| `Snowflake.Generator.SetMachineId` | common-library/snowflake/snowflake.go:28-31 | only the machine part changes |
| `Snowflake.EqualTimesRepeatIds` | common-library/snowflake/snowflake.go:83-139 | with all clock readings equal an id comes again after 4096 calls |
| `SnowflakeIds.TickIsFloor` | common-library/snowflake/snowflake.go:23 | a tick is 2^20 nanoseconds |
| `SnowflakeIds.IdLayout` | common-library/snowflake/snowflake.go:104-112 | an id is 2^22 times the low 41 bits of the tick, 2^12 times the machine, and the sequence |
| `SnowflakeIds.IssuedId` | common-library/snowflake/snowflake.go:83-139 | which id each branch of a call returns |
| `SnowflakeIds.NewTickCountsFromZero` | common-library/snowflake/snowflake.go:83-139 | calls in a new tick get the sequence numbers 0, 1, 2 and so on |
| `SnowflakeConcurrent.ComputedIdIsGreaterIff` | common-library/snowflake/snowflake.go:52-73 | a thread that does not sleep computes an id above the one it loaded exactly when its clock reading is not behind that id |
| `SnowflakeConcurrent.SwapKeeps` | common-library/snowflake/snowflake.go:74-77 | a swap keeps the invariant and never lowers the last id; if it fails, an id above the loaded one has been returned |
| `SnowflakeConcurrent.ActionKeeps` | common-library/snowflake/snowflake.go:50-79 | every atomic step of every thread keeps the invariant |
| `SnowflakeConcurrent.ReturnedIdsIncrease` | common-library/snowflake/snowflake.go:50-79 | in every interleaving of any number of threads, with an ordered clock, the returned ids strictly increase in the order of the swaps, so that all are distinct |
| `SnowflakeConcurrent.FailedSwapMeansProgress` | common-library/snowflake/snowflake.go:74-79 | a thread fails to swap only if another has succeeded since it loaded |
| `SnowflakeIds.ComputedId` | common-library/snowflake/snowflake.go:52-73 | a thread computes the first id of a later tick or the next one of the tick that it read, and sleeps if and only if the sequence is used up in a tick that is not past |
| `SnowflakeIds.UndisturbedCall` | common-library/snowflake/snowflake.go:50-79 | a call that no other thread disturbs returns the following id of the present tick, unless that tick is used up |
| `SnowflakeIds.ClockMovesOn` | common-library/snowflake/snowflake.go:43-46 | time passes for all threads alike as long as 41 bits last |
| `SnowflakeIds.ReturnedIdsTell` | common-library/snowflake/snowflake.go:50-79 | in every interleaving every returned id names the machine and a tick that had come |
| `ClientManager.StoredLookup` | msg-server/clientManager/clientManager.go:37-51 | storing changes what is found under its own key only |
| `ClientManager.RemovedLookup` | msg-server/clientManager/clientManager.go:91-100 | removal by key empties that key only |
| `ClientManager.OnlineAccounts` | msg-server/clientManager/clientManager.go:134-138 | as no account keeps an empty inner map, the table has exactly the accounts with some client |
| `ClientManager.Client.Close` | msg-server/client/client.go:327-342 | the close signal is closed by the first call only |
| `ClientManager.Client.Done` | msg-server/client/client.go:168-170 | closes the done signal, which must be open |
| `ClientManager.Manager.StoreClient` | msg-server/clientManager/clientManager.go:37-51 | the nested map after storing |
| `ClientManager.Manager.KickClient` | msg-server/clientManager/clientManager.go:53-89 | the client whose done signal a login waits for, and that it is to be closed |
| `ClientManager.Manager.CloseKicked` | msg-server/clientManager/clientManager.go:59-77 | the goroutine of a kick closes its client |
| `ClientManager.Manager.GetOnlineUserNumber` | msg-server/clientManager/clientManager.go:134-138 | the number of accounts that have a client on some terminal |
| `ClientManager.Manager.RemoveClient` | msg-server/clientManager/clientManager.go:91-108 | the nested map after removal by key, with empty inner maps dropped, and the done signal closed |
| `Sessions.ActionKeeps` | msg-server/msgServerApp/clientLogin.go:236-262 | every step of every login, kick, watcher and connection keeps the invariant |
| `Sessions.OneLiveSession` | msg-server/clientManager/clientManager.go:37-132 | in every reachable state an account and terminal have at most one session that is stored and not removed, and the table leads to it |
| `Sessions.RemovalIsOfItself` | msg-server/clientManager/clientManager.go:91-108 | a watcher that removes by key removes its own session, never a newer one, and no other entry |
| `Sessions.DoneAfterRemoval` | msg-server/clientManager/clientManager.go:91-108 | the done signal is closed only while open, and only after the entry has gone |
| `Sessions.StoreFindsNoEntry` | msg-server/msgServerApp/clientLogin.go:250-259 | a login that has waited stores into an empty place |
| `Sessions.OnlineCount` | msg-server/clientManager/clientManager.go:134-138 | the online count is the number of accounts with a live session |
| `Sessions.WaitingLoginProgresses` | msg-server/msgServerApp/clientLogin.go:250-252 | while a login waits, a step that brings the done signal closer is enabled; at most three are missing |
| `Sessions.NoStepBack` | msg-server/clientManager/clientManager.go:53-132 | no step takes a done signal farther away |
| `Sessions.NoLockEvictsLiveSession` | msg-server/msgServerApp/clientLogin.go:236-262 | in a run without the login lock two logins store one over the other, and the watcher of the first evicts the second, which is live |
| `Sessions.RemovedIsClosed` | msg-server/clientManager/clientManager.go:125-132 | no session is removed before it has been closed |
| `SessionRuns.UnlockFreesLock` | msg-server/msgServerApp/clientLogin.go:248 | the end of a login frees the lock of its account and of no other |
| `SessionRuns.LockIsTaken` | msg-server/msgServerApp/clientLogin.go:236-246 | a login holds the lock of its account alone |
| `SessionRuns.KickedLoginCompletes` | msg-server/msgServerApp/clientLogin.go:248-262 | from every reachable state in which a login has kicked a victim some run brings the victim to its done signal, stores the new session and frees the lock |
| `SessionRuns.LoginCanComplete` | msg-server/msgServerApp/clientLogin.go:236-262 | from every reachable state in which the lock of an account is free some run logs it in: the session found in the table is done, the new one is live and in its place, and the lock is free again |
| `SessionRuns.ReplacementHappens` | msg-server/msgServerApp/clientLogin.go:236-262 | a reachable state with two sessions of one account and terminal, the first closed and done, the second live and found |
| `Friends.Server.C2SAddFriend` | msg-server/client/friends.go:42-129 | the checks in their order and the request row |
| `Friends.Server.C2SAgreeBecomeFriend` | msg-server/client/friends.go:132-231 | the checks in their order; row, contact list, request and message after success, nothing after failure |
| `Friends.Server.C2SReadFriendReq` | msg-server/client/friends.go:233-257 | the request row is gone |
| `Friends.Server.MQAgreeBecomeFriend` | msg-server/client/MQMsg.go:103-135 | the contact list and the row after a delivery, first or repeated |
| `Friends.Server.ClientLogin` | msg-server/msgServerApp/clientLogin.go:731-787 | the loops over rows and contacts, and the deletion of rows |
| `Friends.AgreeEffect` | msg-server/client/friends.go:173-192 | an agreement adds the sender to one list and one row by which the sender can follow |
| `Friends.DeliverKeeps` | msg-server/client/MQMsg.go:103-135 | deliveries keep the invariant however often and late they come |
| `Friends.LoginKeepsIff` | msg-server/msgServerApp/clientLogin.go:731-787 | a login keeps the invariant if and only if it handles no row or passes over nobody who is not listed already |
| `Friends.LoginLosesSomebody` | msg-server/msgServerApp/clientLogin.go:731-787 | a reachable state in which a login whose lookups fail in part leaves somebody listing an account that does not list him, and no row |
| `Friends.ListedOrPending` | msg-server/client/friends.go:132-231 | in every reachable state without deletions, if b lists a then a lists b or a verification row is pending |
| `Friends.LoginCatchesUp` | msg-server/msgServerApp/clientLogin.go:765-787 | after a logs in with all lookups succeeding, everybody who lists a is listed by a and no row for a is left |
| `Friends.LoginsMakeFriendsMutual` | msg-server/msgServerApp/clientLogin.go:765-787 | two accounts that have logged in one after the other list each other or not at all |
| `Friends.HandshakeCompletes` | msg-server/client/friends.go:42-231 | request, agreement and delivery make two strangers list each other and leave no row behind |
| `Friends.AgreementIsOnce` | msg-server/client/friends.go:132-171 | a second agreement finds no request, and a request to a friend is refused |
| `FriendRows.AddFriendReplies` | msg-server/client/friends.go:42-129 | which reply a request gets |
| `FriendRows.AgreeReplies` | msg-server/client/friends.go:132-231 | which reply an agreement gets; a refusal changes nothing |
| `FriendRows.RequestRows` | msg-server/client/friends.go:42-257 | in every step of every handler a request row comes by being asked and goes by being read or agreed to |
| `FriendRows.VerificationRows` | msg-server/msgServerApp/clientLogin.go:731-787 | a verification row comes by an agreement and goes by its delivery or by a login of its friend that can show somebody |
| `FriendRows.Messages` | msg-server/client/friends.go:132-231 | a message is sent by an agreement and by nothing else |
| `FriendRows.Listings` | msg-server/client/friends.go:42-257 | who is on whose list after a step of a run |
| `FriendRows.Online` | msg-server/msgServerApp/clientLogin.go:731-787 | who is online after a step, with the list that is saved |
| `RotatingLog.RotatingFileHandler.DoRollover` | common-library/log/filehandler.go:86-113 | the rename loop and the fresh file, for any set of files |
| `RotatingLog.RotatingFileHandler.Write` | common-library/log/filehandler.go:74-77 | rotation first, then the bytes at the end of the log |
| `RotatingLog.RolloverAt` | common-library/log/filehandler.go:98-111 | which file ends up under which number, also when numbers are missing |
| `RotatingLog.RotationLosesOnlyLast` | common-library/log/filehandler.go:98-111 | a rotation keeps a file under some number if and only if it is not the last backup with another one below it |
| `RotatingLog.WriteRollsIff` | common-library/log/filehandler.go:74-113 | a write to a log of at least maxBytes leaves the new bytes alone in it and the old ones in the first backup; any other write only adds |
| `RotatingLog.LogStaysShort` | common-library/log/filehandler.go:74-113 | the log stays shorter than maxBytes and the last write together |
| `RotatingLog.WriteAppends` | common-library/log/filehandler.go:74-113 | from contiguous backups a write appends to the files read oldest to newest and drops only the oldest backup, when all slots are taken and the log is full |
| `RotatingLog.RunKeepsSuffix` | common-library/log/filehandler.go:74-113 | after any sequence of writes the files hold a suffix of everything written, and bytes are lost only when all slots are taken |
| `RotatingLog.KeepsEnough` | common-library/log/filehandler.go:74-113 | starting without backups, everything is kept or at least backupCount times maxBytes bytes |
| `Colors.UnpackOfPack` | common-library/convert/msg.go:41-96 | packing succeeds exactly for colours in range, and unpacking undoes it |
| `Colors.PackOfUnpack` | common-library/convert/msg.go:41-96 | packing undoes unpacking exactly for 32-bit numbers with a valid alpha, and for -13 |
| `ColorBytes.PackedBytes` | common-library/convert/msg.go:41-76 | red is the highest byte, then green, blue and alpha |
| `ColorBytes.PackErrors` | common-library/convert/msg.go:45-66 | the number that stands for the first channel out of range |
| `ColorBytes.UnpackedBytes` | common-library/convert/msg.go:79-96 | the channels are the four low bytes of any int64 |
| `Colors.RGBColorArrayToStr` | common-library/convert/msg.go:25-38 | the printed list, or the empty text if a colour is out of range |
| `Colors.StrToRGBColorArray` | common-library/convert/msg.go:99-119 | the colours of all numbers, or nil for the empty text and for a malformed number |
| `Colors.ParseOfPrint` | common-library/convert/msg.go:25-119 | reading the text of a non-empty list of colours in range gives the list |
| `ColorBytes.PrintedColor` | common-library/convert/msg.go:25-38 | the text of one colour |
| `ColorBytes.ReadColors` | common-library/convert/msg.go:99-119 | nil for the empty text and for a word that is no int64, else the colour of each word in order |
| `Text.ParseOfFormat` | common-library/convert/msg.go:35 | reading a printed int64 gives the number |
| `CsvRecords.CsvRecord.ReadConfigToTempMemory` | common-library/csvrecord/csvrecord.go:164-257 | the nested loops build the table that Load specifies, or stop with the error of the first bad cell |
| `CsvTables.RecordsHold` | common-library/csvrecord/csvrecord.go:212-255 | after a load there is a record for each line and in it, for each column, the value of the text under the last column of that name, or zero if the field cannot be set |
| `CsvTables.LoadFailsIff` | common-library/csvrecord/csvrecord.go:164-257 | a load fails with the error of the first wrong cell, and only then |
| `CsvTables.LoadSucceedsIff` | common-library/csvrecord/csvrecord.go:164-257 | it succeeds if and only if every name is there when there is a line, every text of a field that can be set has a value, and no value comes twice in an index |
| `CsvTables.PriceIsLoaded` | common-library/csvrecord/csvrecord.go:212-255 | an indexed and an unindexed column of one line |
| `CsvRecords.DuplicateIff` | common-library/csvrecord/csvrecord.go:246-252 | a cell is refused as a duplicate exactly when an earlier cell put the same value into the same index |
| `CsvRecords.IndexIsScan` | common-library/csvrecord/csvrecord.go:150-161 | after a load, looking up an index equals a linear scan of the records, with at most one hit |
| `CsvRecords.CsvRecord.Read` | common-library/csvrecord/csvrecord.go:109-120 | the table is replaced by the loaded one, or unchanged after an error |
| `CsvRecords.CsvRecord.Record` | common-library/csvrecord/csvrecord.go:123-135 | the record of that number, nil outside the table |
| `CsvRecords.CsvRecord.Index` | common-library/csvrecord/csvrecord.go:150-161 | what the index of that name holds for the key, nil without one |
| `CsvRecords.ReloadCsvs` | common-library/csvrecord/csvrecord.go:87-106 | all tables are replaced exactly when all files load; otherwise none changes |

## Left out

- Prev: requires that the search ends, since with year `*` the source can search for ever; when it ends is stated above as an equivalence.
- CustomCronExpr.Next: requires that there is something to return, since with year `*` the source puts no bound on the search; when there is is stated above as an equivalence.
- Time zones, daylight saving time and fractions of a second; instants are whole UTC seconds.
- The contents of a message after a failed Unmarshal, and nil entries of a contact list.
- Byte slices of more than 2^48 bytes, which Go cannot allocate; a size or an index never wraps around below that.
- BlackList is ContactList with another name; MarshalTo is MarshalToSizedBuffer on a prefix.
- The JSON and reflection plumbing of the generated messages, and the other generated files.
- Machine ids of more than 10 bits, which SetMachineId does not refuse, and changes of the id between calls.
- How long a thread of the compare-and-swap generator sleeps; it starts over afterwards.
- The redis lock of a login is exclusive until the login is over; its expiry after thirty seconds is not modelled.
- Registration, which stores the first session of an account that nobody else knows yet.
- What a client sends and saves when it closes, and the logout event.
- Friend deletion, blacklists, remark names and the redis copies of the contact lists.
- Two terminals of one account that keep separate contact maps; the handshake has one client for each account.
- A handler that is interrupted between two of its writes; handlers are single steps, and an SQL write fails only where the handler checks it.
- Failures of the file system in the rotating log other than renaming a file that does not exist.
- The conversion of a csv cell to a Go value, columns that hold references, the csv syntax and the load callback.
- Nil colours, whose channels read as 0.
- Handlers for chats, groups and blogs, the HTTP interface, and everything behind redis, MySQL and the message queue.
