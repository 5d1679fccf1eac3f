/** The loops that `CronExpr.Next` and `CustomCronExpr.Next` have in common.

Both functions move an instant `t` forward unit by unit, from the coarsest unit that
cannot match, and start over (`goto retry`) when a unit wraps into the next coarser one.
`initFlag` tells whether `t` was ever cut back to the start of a unit.  Each method below
is one of the five loops; its `retry` result stands for the jump. */
module ForwardSearch {
  import opened Calendar
  import opened Schedule

  /** What holds at every point of the search that began at `from`: nothing before t fires,
  and once the flag is set t stands at the start of every unit that cannot match. */
  ghost predicate Searching(f: Fields, from: int, t: int, initFlag: bool) {
    && from <= t
    && (!initFlag ==> t == from)
    && Quiet(f, from, t)
    && (initFlag ==> AtUnitStart(f, t))
  }

  lemma JoinQuiet(f: Fields, a: int, t: int, b: int, c: int)
    requires Quiet(f, a, t) && Quiet(f, b, c) && b <= t
    ensures Quiet(f, a, c)
  {
  }

  lemma MonthStep(f: Fields, from: int, t: int, initFlag: bool)
    requires Searching(f, from, t, initFlag) && !MonthOk(f, t)
    ensures var k := MonthIndex(t); var n := MonthBegin(k + 1);
            && Searching(f, from, n, true) && t < n
            && MonthIndex(n) == k + 1
            && (initFlag ==> t == MonthBegin(k))
            && Date(k, 1, 0, 0, 0) == MonthBegin(k)
            && AddMonths(MonthBegin(k), 1) == n
  {
    hide MonthStart, MonthLength, MonthOf, MatchDay;
    var k := MonthIndex(t);
    SkipMonth(f, t);
    MonthBeginIsDate(k);
    MonthBeginIsAligned(k + 1);
    JoinQuiet(f, from, t, MonthBegin(k), MonthBegin(k + 1));
  }

  method SkipMonths(f: Fields, ghost from: int, start: int, startFlag: bool)
    returns (t: int, initFlag: bool, retry: bool)
    requires Searching(f, from, start, startFlag)
    ensures Searching(f, from, t, initFlag)
    ensures if retry then start < t else start <= t && Year(t) == Year(start) && MonthOk(f, t)
  {
    hide MonthStart, MonthLength, MonthOf, MonthOk, AddMonths, Date, MonthBegin, Searching;
    t, initFlag, retry := start, startFlag, false;
    while !MonthOk(f, t)
      invariant Searching(f, from, t, initFlag)
      invariant start <= t && Year(t) == Year(start)
      decreases 12 - Month(t)
    {
      MonthStep(f, from, t, initFlag);
      if !initFlag {
        initFlag := true;
        t := Date(MonthIndex(t), 1, 0, 0, 0);
      }
      t := AddMonths(t, 1);
      if Month(t) == 1 {
        retry := true;
        return;
      }
    }
  }

  lemma DayStep(f: Fields, from: int, t: int, initFlag: bool)
    requires Searching(f, from, t, initFlag) && MonthOk(f, t) && !MatchDay(f, t)
    ensures var b := Truncate(t, 86400); var n := b + 86400;
            && Searching(f, from, n, true) && b <= t < n
            && (initFlag ==> t == b)
            && Date(MonthIndex(t), Day(t), 0, 0, 0) == b
            && AddDays(b, 1) == n
            && (Day(n) != 1 ==> MonthOk(f, n) && MonthIndex(n) == MonthIndex(t) && Day(n) == Day(t) + 1)
  {
    var b := Truncate(t, 86400);
    assert b <= t < b + 86400 && (initFlag ==> t == b);
    hide MonthStart, MonthLength, MonthOf, MonthIndex, MatchDay, Truncate, AtUnitStart, Day, Date, AddDays, MonthBegin;
    QuietDay(f, t);
    AlignedAtDay(f, t);
    JoinQuiet(f, from, t, b, b + 86400);
    NextDay(t);
    MidnightMoves(t);
  }

  /** The day loop goes to the midnight before t and from there to the next. */
  lemma MidnightMoves(t: int)
    ensures var b := Truncate(t, 86400); var n := b + 86400;
            && Date(MonthIndex(t), Day(t), 0, 0, 0) == b && AddDays(b, 1) == n
            && (MonthIndex(n) == MonthIndex(t) ==> Day(n) == Day(t) + 1)
  {
    hide MonthStart, MonthOf, MonthLength;
    var d := t / 86400;
    assert Truncate(t, 86400) == d * 86400;
    SplitDay(d, 0);
    SameDaySameFields(d * 86400, t);
    SplitDay(d + 1, 0);
    Midnight(d);
  }

  method SkipDays(f: Fields, ghost from: int, start: int, startFlag: bool)
    returns (t: int, initFlag: bool, retry: bool)
    requires Searching(f, from, start, startFlag) && MonthOk(f, start)
    ensures Searching(f, from, t, initFlag)
    ensures if retry then start < t else start <= t && Year(t) == Year(start) && MonthOk(f, t) && MatchDay(f, t)
  {
    hide MonthStart, MonthLength, MonthOf, MatchDay, MonthOk, AddDays, Date, Day, Searching, Truncate;
    t, initFlag, retry := start, startFlag, false;
    while !MatchDay(f, t)
      invariant Searching(f, from, t, initFlag) && MonthOk(f, t)
      invariant start <= t && MonthIndex(t) == MonthIndex(start)
      decreases MonthLength(MonthIndex(t)) - Day(t)
    {
      DayStep(f, from, t, initFlag);
      DayInMonth(t);
      if !initFlag {
        initFlag := true;
        t := Date(MonthIndex(t), Day(t), 0, 0, 0);
      }
      t := AddDays(t, 1);
      if Day(t) == 1 {
        retry := true;
        return;
      }
      DayInMonth(t);
    }
  }

  lemma HourStep(f: Fields, from: int, t: int, initFlag: bool)
    requires Searching(f, from, t, initFlag) && MonthOk(f, t) && MatchDay(f, t) && !HourOk(f, t)
    ensures var b := Truncate(t, 3600); var n := b + 3600;
            && Searching(f, from, n, true) && b <= t < n
            && (initFlag ==> t == b)
            && (Hour(n) != 0 ==> MonthOk(f, n) && MatchDay(f, n) && Year(n) == Year(t) && Hour(n) == Hour(t) + 1)
  {
    var b := Truncate(t, 3600);
    assert initFlag ==> t == b;
    hide MonthStart, MonthLength, MonthOf, MatchDay, MonthOk, AtUnitStart, Hour, Quiet;
    QuietHour(f, t);
    AlignedAtHour(f, t);
    JoinQuiet(f, from, t, b, b + 3600);
    NextHour(t);
  }

  method SkipHours(f: Fields, ghost from: int, start: int, startFlag: bool)
    returns (t: int, initFlag: bool, retry: bool)
    requires Searching(f, from, start, startFlag) && MonthOk(f, start) && MatchDay(f, start)
    ensures Searching(f, from, t, initFlag)
    ensures if retry then start < t
            else start <= t && Year(t) == Year(start) && MonthOk(f, t) && MatchDay(f, t) && HourOk(f, t)
  {
    hide MonthStart, MonthLength, MonthOf, MatchDay, MonthOk, HourOk, Searching, Year, Truncate;
    t, initFlag, retry := start, startFlag, false;
    while !HourOk(f, t)
      invariant Searching(f, from, t, initFlag) && MonthOk(f, t) && MatchDay(f, t)
      invariant start <= t && Year(t) == Year(start)
      decreases 24 - Hour(t)
    {
      HourStep(f, from, t, initFlag);
      if !initFlag {
        initFlag := true;
        t := Truncate(t, 3600);
      }
      t := t + 3600;
      if Hour(t) == 0 {
        retry := true;
        return;
      }
    }
  }

  lemma MinuteStep(f: Fields, from: int, t: int, initFlag: bool)
    requires Searching(f, from, t, initFlag)
    requires MonthOk(f, t) && MatchDay(f, t) && HourOk(f, t) && !MinuteOk(f, t)
    ensures var b := Truncate(t, 60); var n := b + 60;
            && Searching(f, from, n, true) && b <= t < n
            && (initFlag ==> t == b)
            && (Minute(n) != 0 ==> MonthOk(f, n) && MatchDay(f, n) && HourOk(f, n)
                                   && Year(n) == Year(t) && Minute(n) == Minute(t) + 1)
  {
    var b := Truncate(t, 60);
    assert initFlag ==> t == b;
    hide MonthStart, MonthLength, MonthOf, MatchDay, MonthOk, HourOk, AtUnitStart, Hour, Minute, Quiet;
    QuietMinute(f, t);
    AlignedAtMinute(f, t);
    JoinQuiet(f, from, t, b, b + 60);
    NextMinute(t);
    if Minute(b + 60) != 0 { SameHourSameFields(b + 60, t); }
  }

  method SkipMinutes(f: Fields, ghost from: int, start: int, startFlag: bool)
    returns (t: int, initFlag: bool, retry: bool)
    requires Searching(f, from, start, startFlag) && MonthOk(f, start) && MatchDay(f, start) && HourOk(f, start)
    ensures Searching(f, from, t, initFlag)
    ensures if retry then start < t
            else start <= t && Year(t) == Year(start)
                 && MonthOk(f, t) && MatchDay(f, t) && HourOk(f, t) && MinuteOk(f, t)
  {
    hide MonthStart, MonthLength, MonthOf, MatchDay, MonthOk, HourOk, MinuteOk, Searching, Year, Truncate;
    t, initFlag, retry := start, startFlag, false;
    while !MinuteOk(f, t)
      invariant Searching(f, from, t, initFlag) && MonthOk(f, t) && MatchDay(f, t) && HourOk(f, t)
      invariant start <= t && Year(t) == Year(start)
      decreases 60 - Minute(t)
    {
      MinuteStep(f, from, t, initFlag);
      if !initFlag {
        initFlag := true;
        t := Truncate(t, 60);
      }
      t := t + 60;
      if Minute(t) == 0 {
        retry := true;
        return;
      }
    }
  }

  lemma SecondStep(f: Fields, from: int, t: int, initFlag: bool)
    requires Searching(f, from, t, initFlag)
    requires MonthOk(f, t) && MatchDay(f, t) && HourOk(f, t) && MinuteOk(f, t) && !SecondOk(f, t)
    ensures Searching(f, from, t + 1, true)
    ensures Second(t + 1) != 0 ==>
              && MonthOk(f, t + 1) && MatchDay(f, t + 1) && HourOk(f, t + 1) && MinuteOk(f, t + 1)
              && Year(t + 1) == Year(t)
  {
    hide MonthStart, MonthLength, MonthOf, MatchDay;
    AlignedAtSecond(f, t);
    NextSecond(t);
    if Second(t + 1) != 0 {
      SameMinuteSameFields(t + 1, t);
      SameHourSameFields(t + 1, t);
    }
  }

  method SkipSeconds(f: Fields, ghost from: int, start: int, startFlag: bool)
    returns (t: int, initFlag: bool, retry: bool)
    requires Searching(f, from, start, startFlag)
    requires MonthOk(f, start) && MatchDay(f, start) && HourOk(f, start) && MinuteOk(f, start)
    ensures Searching(f, from, t, initFlag)
    ensures if retry then start < t else start <= t && Year(t) == Year(start) && Matches(f, t)
  {
    hide MonthStart, MonthLength, MonthOf, MatchDay, MonthOk, HourOk, MinuteOk, SecondOk, Searching, Year;
    t, initFlag, retry := start, startFlag, false;
    while !SecondOk(f, t)
      invariant Searching(f, from, t, initFlag)
      invariant MonthOk(f, t) && MatchDay(f, t) && HourOk(f, t) && MinuteOk(f, t)
      invariant start <= t && Year(t) == Year(start)
      decreases 60 - Second(t)
    {
      SecondStep(f, from, t, initFlag);
      if !initFlag {
        initFlag := true;
      }
      t := t + 1;
      if Second(t) == 0 {
        retry := true;
        return;
      }
    }
  }
}
