/** The day, hour, minute and second loops of `CustomCronExpr.Prev`.  Inside a selected month
they search backward from an instant `from` and pass over nothing. */
module BackwardClock {
  import opened Bits
  import opened Calendar
  import opened Schedule
  import opened BackwardSearch

  /** Where a loop leaves the instant, with the flag, and whether it jumps to `retry`. */
  datatype Where = Where(t: int, initFlag: bool, retry: bool)

  /** What a loop keeps, given where it started: nothing is passed over from `from` down, the
  loop does not leave the month except by a retry, and then it stops at the end of the month
  before at the latest. */
  ghost predicate Kept(f: Fields, from: int, start: int, w: Where) {
    && SearchingBack(f, from, w.t, w.initFlag)
    && MonthBegin(MonthIndex(start)) <= w.t + 1
    && (if w.retry then w.t < start && w.initFlag else w.t <= start && MonthIndex(w.t) == MonthIndex(start))
  }

  // ----- The bounds of the month

  lemma DayInsideMonth(t: int)
    ensures MonthBegin(MonthIndex(t)) <= Truncate(t, 86400)
  {
    hide MonthOf, MonthStart;
  }

  lemma HourInsideDay(t: int)
    ensures Truncate(t, 86400) <= Truncate(t, 3600) <= Truncate(t, 60) <= t
  {
    ClockSplit(t);
  }

  /** A unit of the clock that starts at or before t starts in the month of t. */
  lemma UnitInsideMonth(t: int)
    ensures MonthBegin(MonthIndex(t)) <= LastBefore(t, 86400) + 1 <= LastBefore(t, 3600) + 1
            <= LastBefore(t, 60) + 1 <= t
  {
    hide MonthBegin, MonthIndex, Truncate;
    DayInsideMonth(t);
    HourInsideDay(t);
  }

  /** An instant outside the month of t that is no earlier than the second before that month. */
  lemma OutOfMonth(u: int, t: int)
    requires Month(u) != Month(t) && u <= t && MonthBegin(MonthIndex(t)) <= u + 1
    ensures u + 1 == MonthBegin(MonthIndex(t))
  {
    hide MonthBegin, MonthIndex;
    MonthSpan(t, MonthIndex(t));
    MonthSpan(u, MonthIndex(t));
  }

  /** Before two instants of one unit lies the same second. */
  lemma SameBefore(s: int, t: int)
    ensures s / 86400 == t / 86400 ==> LastBefore(s, 86400) == LastBefore(t, 86400)
    ensures s / 3600 == t / 3600 ==> LastBefore(s, 3600) == LastBefore(t, 3600)
    ensures s / 60 == t / 60 ==> LastBefore(s, 60) == LastBefore(t, 60)
  {
  }

  lemma SameMonth(s: int, t: int)
    requires s / 86400 == t / 86400
    ensures MonthIndex(s) == MonthIndex(t)
  {
    hide MonthOf;
  }

  // ----- Days

  function DayBefore(t: int, initFlag: bool): int {
    AddDays(if initFlag then t else Date(MonthIndex(t), Day(t), 23, 59, 59), -1)
  }

  lemma DayMove(t: int, initFlag: bool)
    ensures var u := DayBefore(t, initFlag);
            && (Month(u) == Month(t) ==> MonthIndex(u) == MonthIndex(t) && Day(u) == Day(t) - 1)
            && (initFlag || u == LastBefore(t, 86400)) && (initFlag ==> u == t - 86400)
  {
    hide MonthStart, MonthOf, MonthLength, MonthIndex, Day, Date, AddDays;
    EndOfDay(t);
    var t1 := if initFlag then t else Date(MonthIndex(t), Day(t), 23, 59, 59);
    AddDaysShifts(t1, -1);
    OneDayBack(t1);
    AdjacentMonthNumbers(MonthIndex(t));
  }

  lemma AdjacentMonthNumbers(k: int)
    ensures (k - 1) % 12 != k % 12
  {
  }

  function DayLoopBack(f: Fields, t: int, initFlag: bool): Where
    decreases Day(t)
  {
    if MatchDay(f, t) then Where(t, initFlag, false)
    else
      DayMove(t, initFlag);
      DayInMonth(t);
      var u := DayBefore(t, initFlag);
      if Month(u) != Month(t) then Where(u, true, true) else DayLoopBack(f, u, true)
  }

  lemma {:induction false} DayLoopKeeps(f: Fields, from: int, t: int, initFlag: bool)
    requires SearchingBack(f, from, t, initFlag) && MonthOk(f, t)
    ensures var w := DayLoopBack(f, t, initFlag); Kept(f, from, t, w) && (!w.retry ==> MatchDay(f, w.t))
    ensures var w := DayLoopBack(f, t, initFlag); w.retry ==> w.t + 1 == MonthBegin(MonthIndex(t))
    decreases Day(t)
  {
    hide MonthStart, MonthOf, MonthLength, Day, DayBefore, MatchDay, SearchingBack, MonthBegin, LastBefore;
    UnitInsideMonth(t);
    if !MatchDay(f, t) {
      DayMove(t, initFlag);
      DayInMonth(t);
      DayStepBack(f, from, t, initFlag);
      var u := DayBefore(t, initFlag);
      if Month(u) == Month(t) { DayLoopKeeps(f, from, u, true); } else { OutOfMonth(u, t); }
    }
  }

  method SkipDaysBack(f: Fields, start: int, startFlag: bool) returns (t: int, initFlag: bool, retry: bool)
    ensures Where(t, initFlag, retry) == DayLoopBack(f, start, startFlag)
  {
    hide MonthStart, MonthOf, MonthLength, MonthIndex, Day, Date, AddDays, MatchDay;
    t, initFlag, retry := start, startFlag, false;
    while !MatchDay(f, t)
      invariant DayLoopBack(f, t, initFlag) == DayLoopBack(f, start, startFlag)
      decreases Day(t)
    {
      DayMove(t, initFlag);
      DayInMonth(t);
      ghost var before, flag := t, initFlag;
      if !initFlag {
        initFlag := true;
        EndOfDay(t);
        t := Date(MonthIndex(t), Day(t), 23, 59, 59);
      }
      var curMonth := Month(t);
      t := AddDays(t, -1);
      assert t == DayBefore(before, flag);
      var prevMonth := Month(t);
      if curMonth != prevMonth {
        retry := true;
        return;
      }
    }
  }

  // ----- Hours

  function HourBefore(t: int, initFlag: bool): int {
    (if initFlag then t else Date(MonthIndex(t), Day(t), Hour(t), 59, 59)) - 3600
  }

  lemma HourMove(t: int, initFlag: bool)
    ensures var u := HourBefore(t, initFlag);
            && (Hour(u) != 23 ==> u / 86400 == t / 86400 && Hour(u) == Hour(t) - 1)
            && (initFlag || u == LastBefore(t, 3600)) && (initFlag ==> u == t - 3600)
  {
    hide MonthStart, MonthOf, MonthLength, MonthIndex, Day, Date;
    EndOfHour(t);
    OneHourBack(t);
    var u, n := HourBefore(t, initFlag), t - 3600;
    SameUnit(LastBefore(t, 3600), n, t);
    hide HourBefore, LastBefore;
    if !initFlag { SameHourSameFields(u, n); }
  }

  lemma SameUnit(u: int, n: int, t: int)
    requires u == LastBefore(t, 3600) && n == t - 3600
    ensures u / 3600 == n / 3600
  {
    ClockSplit(t);
    SplitHour(t / 3600 - 1, 3599);
    SplitHour(t / 3600 - 1, t % 3600);
  }

  function HourLoopBack(f: Fields, t: int, initFlag: bool): Where
    decreases Hour(t)
  {
    if HourOk(f, t) then Where(t, initFlag, false)
    else
      HourMove(t, initFlag);
      var u := HourBefore(t, initFlag);
      if Hour(u) == 23 then Where(u, true, true) else HourLoopBack(f, u, true)
  }

  lemma {:induction false} HourLoopKeeps(f: Fields, from: int, t: int, initFlag: bool)
    requires SearchingBack(f, from, t, initFlag) && MonthOk(f, t) && MatchDay(f, t)
    ensures var w := HourLoopBack(f, t, initFlag);
            Kept(f, from, t, w) && (if w.retry then w.t == LastBefore(t, 86400) else MatchDay(f, w.t) && HourOk(f, w.t))
    decreases Hour(t)
  {
    hide MonthStart, MonthOf, MonthLength, MonthIndex, Day, HourBefore, MatchDay, HourOk, SearchingBack, MonthBegin;
    hide LastBefore, Hour, Has;
    UnitInsideMonth(t);
    if !HourOk(f, t) {
      HourMove(t, initFlag);
      HourStepBack(f, from, t, initFlag);
      var u := HourBefore(t, initFlag);
      PreviousHour(t);
      if Hour(u) != 23 {
        SameBefore(u, t);
        SameMonth(u, t);
        SameDayMatches(f, u, t);
        HourLoopKeeps(f, from, u, true);
      }
    }
  }

  lemma SameDayMatches(f: Fields, s: int, t: int)
    requires s / 86400 == t / 86400
    ensures MonthIndex(s) == MonthIndex(t) && (MonthOk(f, s) <==> MonthOk(f, t)) && (MatchDay(f, s) <==> MatchDay(f, t))
  {
    hide MonthStart, MonthOf, MonthLength;
    SameDaySameFields(s, t);
    hide MonthIndex, Day, Weekday;
  }

  method SkipHoursBack(f: Fields, start: int, startFlag: bool) returns (t: int, initFlag: bool, retry: bool)
    ensures Where(t, initFlag, retry) == HourLoopBack(f, start, startFlag)
  {
    hide MonthStart, MonthOf, MonthLength, MonthIndex, Day, Date, HourOk, Hour;
    t, initFlag, retry := start, startFlag, false;
    while !HourOk(f, t)
      invariant HourLoopBack(f, t, initFlag) == HourLoopBack(f, start, startFlag)
      decreases Hour(t)
    {
      HourMove(t, initFlag);
      ghost var before, flag := t, initFlag;
      if !initFlag {
        initFlag := true;
        t := Date(MonthIndex(t), Day(t), Hour(t), 59, 59);
      }
      t := t - 3600;
      assert t == HourBefore(before, flag);
      if Hour(t) == 23 {
        retry := true;
        return;
      }
    }
  }

  // ----- Minutes

  function MinuteBefore(t: int, initFlag: bool): int {
    (if initFlag then t else Date(MonthIndex(t), Day(t), Hour(t), Minute(t), 59)) - 60
  }

  lemma MinuteMove(t: int, initFlag: bool)
    ensures var u := MinuteBefore(t, initFlag);
            && (Minute(u) != 59 ==> u / 3600 == t / 3600 && Minute(u) == Minute(t) - 1)
            && (initFlag || u == LastBefore(t, 60)) && (initFlag ==> u == t - 60)
  {
    hide MonthStart, MonthOf, MonthLength, MonthIndex, Day, Date;
    EndOfMinute(t);
    OneMinuteBack(t);
    var u, n := MinuteBefore(t, initFlag), t - 60;
    SameMinuteUnit(LastBefore(t, 60), n, t);
    hide MinuteBefore, LastBefore;
    if !initFlag { SameMinuteSameFields(u, n); }
  }

  lemma SameMinuteUnit(u: int, n: int, t: int)
    requires u == LastBefore(t, 60) && n == t - 60
    ensures u / 60 == n / 60
  {
    SplitMinute(t / 60 - 1, 59);
    SplitMinute(t / 60 - 1, t % 60);
  }

  function MinuteLoopBack(f: Fields, t: int, initFlag: bool): Where
    decreases Minute(t)
  {
    if MinuteOk(f, t) then Where(t, initFlag, false)
    else
      MinuteMove(t, initFlag);
      var u := MinuteBefore(t, initFlag);
      if Minute(u) == 59 then Where(u, true, true) else MinuteLoopBack(f, u, true)
  }

  lemma SameHourMatches(f: Fields, s: int, t: int)
    requires s / 3600 == t / 3600
    ensures MonthIndex(s) == MonthIndex(t) && (MonthOk(f, s) <==> MonthOk(f, t)) && (MatchDay(f, s) <==> MatchDay(f, t))
    ensures HourOk(f, s) <==> HourOk(f, t)
  {
    hide MonthOk, MatchDay, Hour, MonthIndex;
    SameHourSameFields(s, t);
    SameDayMatches(f, s, t);
  }

  lemma {:induction false} MinuteLoopKeeps(f: Fields, from: int, t: int, initFlag: bool)
    requires SearchingBack(f, from, t, initFlag) && MonthOk(f, t) && MatchDay(f, t) && HourOk(f, t)
    ensures var w := MinuteLoopBack(f, t, initFlag);
            && Kept(f, from, t, w)
            && (if w.retry then w.t == LastBefore(t, 3600) else MatchDay(f, w.t) && HourOk(f, w.t) && MinuteOk(f, w.t))
    decreases Minute(t)
  {
    hide MonthStart, MonthOf, MonthLength, MonthIndex, Day, MinuteBefore, MatchDay, HourOk, MinuteOk, SearchingBack;
    hide LastBefore, Minute, Has, MonthBegin, MonthOk;
    UnitInsideMonth(t);
    if !MinuteOk(f, t) {
      MinuteMove(t, initFlag);
      MinuteStepBack(f, from, t, initFlag);
      var u := MinuteBefore(t, initFlag);
      PreviousMinute(t);
      if Minute(u) != 59 {
        SameBefore(u, t);
        SameHourMatches(f, u, t);
        MinuteLoopKeeps(f, from, u, true);
      }
    }
  }

  method SkipMinutesBack(f: Fields, start: int, startFlag: bool) returns (t: int, initFlag: bool, retry: bool)
    ensures Where(t, initFlag, retry) == MinuteLoopBack(f, start, startFlag)
  {
    hide MonthStart, MonthOf, MonthLength, MonthIndex, Day, Date, MinuteOk, Hour, Minute;
    t, initFlag, retry := start, startFlag, false;
    while !MinuteOk(f, t)
      invariant MinuteLoopBack(f, t, initFlag) == MinuteLoopBack(f, start, startFlag)
      decreases Minute(t)
    {
      MinuteMove(t, initFlag);
      ghost var before, flag := t, initFlag;
      if !initFlag {
        initFlag := true;
        t := Date(MonthIndex(t), Day(t), Hour(t), Minute(t), 59);
      }
      t := t - 60;
      assert t == MinuteBefore(before, flag);
      if Minute(t) == 59 {
        retry := true;
        return;
      }
    }
  }

  // ----- Seconds

  function SecondLoopBack(f: Fields, t: int, initFlag: bool): Where
    decreases Second(t)
  {
    if SecondOk(f, t) then Where(t, initFlag, false)
    else
      PreviousSecond(t);
      if Second(t - 1) == 59 then Where(t - 1, true, true) else SecondLoopBack(f, t - 1, true)
  }

  lemma SameMinuteMatches(f: Fields, s: int, t: int)
    requires s / 60 == t / 60
    ensures MonthIndex(s) == MonthIndex(t) && (MonthOk(f, s) <==> MonthOk(f, t)) && (MatchDay(f, s) <==> MatchDay(f, t))
    ensures (HourOk(f, s) <==> HourOk(f, t)) && (MinuteOk(f, s) <==> MinuteOk(f, t))
  {
    hide MonthOk, MatchDay, HourOk, Minute, MonthIndex;
    SameMinuteSameFields(s, t);
    SameHourMatches(f, s, t);
  }

  lemma {:induction false} SecondLoopKeeps(f: Fields, from: int, t: int, initFlag: bool)
    requires SearchingBack(f, from, t, initFlag) && MonthOk(f, t) && MatchDay(f, t) && HourOk(f, t) && MinuteOk(f, t)
    ensures var w := SecondLoopBack(f, t, initFlag);
            Kept(f, from, t, w) && (if w.retry then w.t == LastBefore(t, 60) else Matches(f, w.t))
    decreases Second(t)
  {
    hide MonthStart, MonthOf, MonthLength, MonthIndex, Day, MatchDay, HourOk, MinuteOk, SecondOk, SearchingBack;
    hide LastBefore, Second, Has, MonthBegin, MonthOk;
    UnitInsideMonth(t);
    if !SecondOk(f, t) {
      PreviousSecond(t);
      SecondStepBack(f, from, t, initFlag);
      if Second(t - 1) != 59 {
        SameBefore(t - 1, t);
        SameMinuteMatches(f, t - 1, t);
        SecondLoopKeeps(f, from, t - 1, true);
      }
    }
  }

  method SkipSecondsBack(f: Fields, start: int, startFlag: bool) returns (t: int, initFlag: bool, retry: bool)
    ensures Where(t, initFlag, retry) == SecondLoopBack(f, start, startFlag)
  {
    hide SecondOk, Second;
    t, initFlag, retry := start, startFlag, false;
    while !SecondOk(f, t)
      invariant SecondLoopBack(f, t, initFlag) == SecondLoopBack(f, start, startFlag)
      decreases Second(t)
    {
      PreviousSecond(t);
      if !initFlag {
        initFlag := true;
      }
      t := t - 1;
      if Second(t) == 59 {
        retry := true;
        return;
      }
    }
  }

  // ----- The four loops in a row

  /** From the day loop on: the loops of one pass that starts in a selected month. */
  function ClockLoopsBack(f: Fields, t: int, initFlag: bool): Where {
    var d := DayLoopBack(f, t, initFlag);
    if d.retry then d
    else
      var h := HourLoopBack(f, d.t, d.initFlag);
      if h.retry then h
      else
        var m := MinuteLoopBack(f, h.t, h.initFlag);
        if m.retry then m else SecondLoopBack(f, m.t, m.initFlag)
  }

  lemma KeptOn(f: Fields, from: int, t: int, v: Where, w: Where)
    requires Kept(f, from, t, v) && !v.retry && Kept(f, from, v.t, w)
    ensures Kept(f, from, t, w)
  {
    hide SearchingBack, MonthBegin, MonthIndex;
  }

  lemma MonthStaysOk(f: Fields, s: int, t: int)
    requires MonthIndex(s) == MonthIndex(t) && MonthOk(f, t)
    ensures MonthOk(f, s)
  {
    hide MonthIndex;
  }

  lemma ClockLoopsKeep(f: Fields, from: int, t: int, initFlag: bool)
    requires SearchingBack(f, from, t, initFlag) && MonthOk(f, t)
    ensures var w := ClockLoopsBack(f, t, initFlag); Kept(f, from, t, w) && (!w.retry ==> Matches(f, w.t))
  {
    hide MonthIndex, MatchDay, HourOk, MinuteOk, SecondOk, MonthOk, SearchingBack, Has, MonthBegin, Matches;
    hide DayLoopBack, HourLoopBack, MinuteLoopBack, SecondLoopBack;
    DayLoopKeeps(f, from, t, initFlag);
    var d := DayLoopBack(f, t, initFlag);
    if !d.retry {
      MonthStaysOk(f, d.t, t);
      HourLoopKeeps(f, from, d.t, d.initFlag);
      var h := HourLoopBack(f, d.t, d.initFlag);
      KeptOn(f, from, t, d, h);
      if !h.retry {
        MonthStaysOk(f, h.t, t);
        MinuteLoopKeeps(f, from, h.t, h.initFlag);
        var m := MinuteLoopBack(f, h.t, h.initFlag);
        KeptOn(f, from, t, h, m);
        if !m.retry {
          MonthStaysOk(f, m.t, t);
          SecondLoopKeeps(f, from, m.t, m.initFlag);
          KeptOn(f, from, t, m, SecondLoopBack(f, m.t, m.initFlag));
        }
      }
    }
  }
}
