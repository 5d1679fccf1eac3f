/** How `CustomCronExpr.Prev` moves back, unit by unit; `initFlag` tells whether the instant
was moved to the end of a unit.  What is said here holds inside a selected month; the month
loop is the subject of BackwardMonths. */
module BackwardSearch {
  import opened Calendar
  import opened Schedule

  /** If a unit of t cannot match then t stands at the end of that unit. */
  ghost predicate AtUnitEnd(f: Fields, t: int) {
    && (!MonthOk(f, t) ==> t + 1 == MonthBegin(MonthIndex(t) + 1))
    && (!MatchDay(f, t) ==> t % 86400 == 86399)
    && (!HourOk(f, t) ==> t % 3600 == 3599)
    && (!MinuteOk(f, t) ==> t % 60 == 59)
  }

  ghost predicate SearchingBack(f: Fields, from: int, t: int, initFlag: bool) {
    && t <= from
    && (!initFlag ==> t == from)
    && Quiet(f, t + 1, from + 1)
    && (initFlag ==> AtUnitEnd(f, t))
  }

  /** The second before the day, hour or minute of t. */
  function LastBefore(t: int, unit: int): int
    requires unit > 0
  {
    Truncate(t, unit) - 1
  }

  // ----- The second before a unit ends the previous one

  lemma PreviousMidnight(t: int)
    ensures var n := LastBefore(t, 86400);
            && n % 86400 == 86399 && n % 3600 == 3599 && n % 60 == 59 && n / 86400 == t / 86400 - 1
  {
    var d := t / 86400;
    assert Truncate(t, 86400) == d * 86400;
    SplitDay(d - 1, 86399);
    SplitHour(24 * d - 1, 3599);
    SplitMinute(1440 * d - 1, 59);
  }

  lemma PreviousDay(t: int)
    ensures var n := LastBefore(t, 86400); var k := MonthIndex(n);
            if k == MonthIndex(t) then Day(n) == Day(t) - 1 else n + 1 == MonthBegin(k + 1) && k + 1 == MonthIndex(t)
  {
    hide MonthLength, MonthOf;
    var n := LastBefore(t, 86400);
    var k := MonthIndex(t);
    PreviousMidnight(t);
    MonthSpan(t, k);
    if MonthBegin(k) <= n {
      MonthSpan(n, k);
    } else {
      assert n + 1 == MonthBegin(k);
      MonthsOrdered(k - 1, k);
      MonthSpan(n, k - 1);
    }
  }

  lemma PreviousHour(t: int)
    ensures var n := LastBefore(t, 3600);
            && n % 3600 == 3599 && n % 60 == 59
            && if Hour(n) == 23 then n == LastBefore(t, 86400)
               else n / 86400 == t / 86400 && Hour(n) == Hour(t) - 1
  {
    ClockSplit(t);
    var d, x := t / 86400, Hour(t);
    var n := LastBefore(t, 3600);
    assert n == d * 86400 + (x - 1) * 3600 + 3599 == (24 * d + x - 1) * 3600 + 3599;
    SplitHour(24 * d + x - 1, 3599);
    SplitMinute((24 * d + x - 1) * 60 + 59, 59);
    if x > 0 { SplitDay(d, (x - 1) * 3600 + 3599); }
  }

  lemma PreviousMinute(t: int)
    ensures var n := LastBefore(t, 60);
            && n % 60 == 59
            && if Minute(n) == 59 then n == LastBefore(t, 3600)
               else n / 3600 == t / 3600 && Minute(n) == Minute(t) - 1
  {
    ClockSplit(t);
    var h, x := t / 3600, Minute(t);
    var n := LastBefore(t, 60);
    assert n == h * 3600 + (x - 1) * 60 + 59 == (60 * h + x - 1) * 60 + 59;
    SplitMinute(60 * h + x - 1, 59);
    if x > 0 { SplitHour(h, (x - 1) * 60 + 59); }
  }

  lemma PreviousSecond(t: int)
    ensures if Second(t - 1) == 59 then t - 1 == LastBefore(t, 60)
            else (t - 1) / 60 == t / 60 && Second(t - 1) == Second(t) - 1
  {
  }

  lemma EndAtDay(f: Fields, t: int)
    requires MonthOk(f, t)
    ensures var n := LastBefore(t, 86400);
            AtUnitEnd(f, n) && (MonthIndex(n) == MonthIndex(t) ==> MonthOk(f, n))
  {
    hide MonthStart, MonthLength, MonthOf, MatchDay;
    PreviousMidnight(t);
    PreviousDay(t);
  }

  lemma EndAtHour(f: Fields, t: int)
    requires MonthOk(f, t) && MatchDay(f, t)
    ensures var n := LastBefore(t, 3600);
            AtUnitEnd(f, n) && (Hour(n) != 23 ==> MonthOk(f, n) && MatchDay(f, n))
  {
    var n := LastBefore(t, 3600);
    PreviousHour(t);
    if Hour(n) == 23 {
      EndAtDay(f, t);
    } else {
      SameDaySameFields(n, t);
      hide MonthStart, MonthLength, MonthOf;
    }
  }

  lemma EndAtMinute(f: Fields, t: int)
    requires MonthOk(f, t) && MatchDay(f, t) && HourOk(f, t)
    ensures var n := LastBefore(t, 60);
            AtUnitEnd(f, n) && (Minute(n) != 59 ==> MonthOk(f, n) && MatchDay(f, n) && HourOk(f, n))
  {
    hide MonthStart, MonthLength, MonthOf;
    var n := LastBefore(t, 60);
    PreviousMinute(t);
    if Minute(n) == 59 {
      EndAtHour(f, t);
    } else {
      SameHourSameFields(n, t);
      SameDaySameFields(n, t);
    }
  }

  lemma EndAtSecond(f: Fields, t: int)
    requires MonthOk(f, t) && MatchDay(f, t) && HourOk(f, t) && MinuteOk(f, t)
    ensures AtUnitEnd(f, t - 1)
    ensures Second(t - 1) != 59 ==> MonthOk(f, t - 1) && MatchDay(f, t - 1) && HourOk(f, t - 1) && MinuteOk(f, t - 1)
  {
    hide MonthStart, MonthLength, MonthOf;
    PreviousSecond(t);
    if Second(t - 1) == 59 {
      EndAtMinute(f, t);
    } else {
      SameMinuteSameFields(t - 1, t);
      SameHourSameFields(t - 1, t);
      SameDaySameFields(t - 1, t);
    }
  }

  // ----- One step of each loop

  lemma JoinQuietBack(f: Fields, a: int, b: int, t: int, c: int)
    requires Quiet(f, a, b) && Quiet(f, t, c) && t <= b
    ensures Quiet(f, a, c)
  {
  }

  lemma DayStepBack(f: Fields, from: int, t: int, initFlag: bool)
    requires SearchingBack(f, from, t, initFlag) && MonthOk(f, t) && !MatchDay(f, t)
    ensures var n := LastBefore(t, 86400);
            SearchingBack(f, from, n, true) && (initFlag ==> t == n + 86400)
  {
    var n := LastBefore(t, 86400);
    hide MonthStart, MonthLength, MonthOf, MatchDay;
    QuietDay(f, t);
    EndAtDay(f, t);
    JoinQuietBack(f, n + 1, n + 86401, t + 1, from + 1);
  }

  lemma HourStepBack(f: Fields, from: int, t: int, initFlag: bool)
    requires SearchingBack(f, from, t, initFlag) && MonthOk(f, t) && MatchDay(f, t) && !HourOk(f, t)
    ensures var n := LastBefore(t, 3600);
            SearchingBack(f, from, n, true) && (initFlag ==> t == n + 3600)
  {
    var n := LastBefore(t, 3600);
    assert initFlag ==> t == n + 3600;
    hide MonthStart, MonthLength, MonthOf, MatchDay, MonthOk, AtUnitEnd, Hour, Quiet;
    QuietHour(f, t);
    EndAtHour(f, t);
    JoinQuietBack(f, n + 1, n + 3601, t + 1, from + 1);
  }

  lemma MinuteStepBack(f: Fields, from: int, t: int, initFlag: bool)
    requires SearchingBack(f, from, t, initFlag)
    requires MonthOk(f, t) && MatchDay(f, t) && HourOk(f, t) && !MinuteOk(f, t)
    ensures var n := LastBefore(t, 60);
            SearchingBack(f, from, n, true) && (initFlag ==> t == n + 60)
  {
    var n := LastBefore(t, 60);
    assert initFlag ==> t == n + 60;
    hide MonthStart, MonthLength, MonthOf, MatchDay, MonthOk, HourOk, AtUnitEnd, Minute, Quiet;
    QuietMinute(f, t);
    EndAtMinute(f, t);
    JoinQuietBack(f, n + 1, n + 61, t + 1, from + 1);
  }

  lemma SecondStepBack(f: Fields, from: int, t: int, initFlag: bool)
    requires SearchingBack(f, from, t, initFlag)
    requires MonthOk(f, t) && MatchDay(f, t) && HourOk(f, t) && MinuteOk(f, t) && !SecondOk(f, t)
    ensures SearchingBack(f, from, t - 1, true)
  {
    hide MonthStart, MonthLength, MonthOf, MatchDay, AtUnitEnd, Second;
    EndAtSecond(f, t);
  }

  // ----- The moves, from any instant

  lemma AddDaysShifts(t: int, n: int)
    ensures AddDays(t, n) == t + n * 86400
  {
    DateOfFields(t);
  }

  lemma EndOfDay(t: int)
    ensures var n := Date(MonthIndex(t), Day(t), 23, 59, 59);
            n == LastBefore(t, 86400) + 86400 && MonthIndex(n) == MonthIndex(t) && Day(n) == Day(t)
  {
    var n := Date(MonthIndex(t), Day(t), 23, 59, 59);
    assert n == t / 86400 * 86400 + 86399;
    SameDaySameFields(n, t);
  }

  lemma EndOfHour(t: int)
    ensures Date(MonthIndex(t), Day(t), Hour(t), 59, 59) == LastBefore(t, 3600) + 3600
  {
    hide MonthStart, MonthLength, MonthOf;
    ClockSplit(t);
  }

  lemma EndOfMinute(t: int)
    ensures Date(MonthIndex(t), Day(t), Hour(t), Minute(t), 59) == LastBefore(t, 60) + 60
  {
    hide MonthStart, MonthLength, MonthOf;
    ClockSplit(t);
  }

  lemma OneDayBack(t: int)
    ensures var n := t - 86400;
            if MonthIndex(n) == MonthIndex(t) then Day(n) == Day(t) - 1 else MonthIndex(n) == MonthIndex(t) - 1
  {
    hide MonthLength, MonthOf;
    PreviousDay(t);
    PreviousMidnight(t);
    SameDaySameFields(t - 86400, LastBefore(t, 86400));
  }

  lemma OneHourBack(t: int)
    ensures var n := t - 3600; Hour(n) != 23 ==> n / 86400 == t / 86400 && Hour(n) == Hour(t) - 1
  {
    PreviousHour(t);
    assert (t - 3600) / 3600 == LastBefore(t, 3600) / 3600;
    SameHourSameFields(t - 3600, LastBefore(t, 3600));
  }

  lemma OneMinuteBack(t: int)
    ensures var n := t - 60; Minute(n) != 59 ==> n / 3600 == t / 3600 && Minute(n) == Minute(t) - 1
  {
    PreviousMinute(t);
    assert (t - 60) / 60 == LastBefore(t, 60) / 60;
    SameMinuteSameFields(t - 60, LastBefore(t, 60));
  }
}
