/** The month loop of `CustomCronExpr.Prev`, and where it lands.  It carries the day number of
the end of one month through the months before, so that it reaches the last second of a month
only if no month on the way is shorter. */
module BackwardMonths {
  import opened Bits
  import opened Calendar
  import opened Schedule
  import opened Firing

  // ----- AddDate and Date with days outside the month

  lemma AddMonthsToDate(k: int, day: int, hour: int, minute: int, second: int, n: int)
    requires 1 <= day <= MonthLength(k) && 0 <= hour < 24 && 0 <= minute < 60 && 0 <= second < 60
    ensures AddMonths(Date(k, day, hour, minute, second), n) == Date(k + n, day, hour, minute, second)
  {
    hide MonthStart, MonthOf, MonthLength, MonthIndex, Day, Hour, Minute, Second, Date;
    FieldsOfDate(k, day, hour, minute, second);
  }

  lemma DateCarries(k: int, day: int, hour: int, minute: int, second: int)
    ensures Date(k, MonthLength(k) + day, hour, minute, second) == Date(k + 1, day, hour, minute, second)
  {
    hide MonthStart, MonthOf, MonthLength;
    MonthsAdjacent(k);
  }

  lemma ClockInRange(t: int)
    ensures 0 <= Hour(t) < 24 && 0 <= Minute(t) < 60 && 0 <= Second(t) < 60
  {
  }

  /** A day number from 29 to 31 that month k does not have. */
  lemma Excess(k: int, day: int)
    requires MonthLength(k) < day <= 31
    ensures 1 <= day - MonthLength(k) <= 3
  {
    hide MonthLength;
  }

  /** `AddDate(0, n, 0)` keeps the day number, or carries the excess into the following month. */
  lemma AddMonthsFields(t: int, n: int)
    ensures var u := AddMonths(t, n); var k := MonthIndex(t) + n;
            if Day(t) <= MonthLength(k) then MonthIndex(u) == k && Day(u) == Day(t)
            else MonthIndex(u) == k + 1 && Day(u) == Day(t) - MonthLength(k) && Day(u) <= 3
  {
    hide MonthStart, MonthOf, MonthLength, MonthIndex, Day, Hour, Minute, Second, Date;
    var k, day := MonthIndex(t) + n, Day(t);
    DayInMonth(t);
    ClockInRange(t);
    if day <= MonthLength(k) {
      FieldsOfDate(k, day, Hour(t), Minute(t), Second(t));
    } else {
      var rest := day - MonthLength(k);
      Excess(k, day);
      DateCarries(k, rest, Hour(t), Minute(t), Second(t));
      FieldsOfDate(k + 1, rest, Hour(t), Minute(t), Second(t));
    }
  }

  /** Day 0 of a month is the last day of the one before. */
  lemma DayZero(k: int, hour: int, minute: int, second: int)
    requires 0 <= hour < 24 && 0 <= minute < 60 && 0 <= second < 60
    ensures var u := Date(k, 0, hour, minute, second);
            MonthIndex(u) == k - 1 && Day(u) == MonthLength(k - 1)
  {
    hide MonthStart, MonthOf, MonthLength, MonthIndex, Day, Hour, Minute, Second, Date;
    DateCarries(k - 1, 0, hour, minute, second);
    FieldsOfDate(k - 1, MonthLength(k - 1), hour, minute, second);
  }

  // ----- The loop

  /** The body of the month loop. */
  function StepMonthBack(t: int, initFlag: bool): int {
    var t1 := if initFlag then t else AddMonths(Date(MonthIndex(t), 0, 23, 59, 59), 1);
    var t2 := AddMonths(t1, -1);
    if Day(t1) != Day(t2) then AddMonths(Date(MonthIndex(t2), 0, Hour(t2), Minute(t2), Second(t2)), 1) else t2
  }

  /** Each round of the month loop stays in its month or enters the month before. */
  lemma MonthStepBack(t: int, initFlag: bool)
    ensures var u := StepMonthBack(t, initFlag); var k := MonthIndex(t);
            MonthIndex(u) == k - 1 || (MonthIndex(u) == k && (initFlag ==> Day(u) < Day(t)))
  {
    hide MonthStart, MonthOf, MonthLength, MonthIndex, AddMonths, Date, Day, Hour, Minute, Second;
    var k := MonthIndex(t);
    DayInMonth(t);
    var t1 := t;
    if !initFlag {
      DayZero(k, 23, 59, 59);
      t1 := AddMonths(Date(k, 0, 23, 59, 59), 1);
      AddMonthsFields(Date(k, 0, 23, 59, 59), 1);
    }
    AddMonthsFields(t1, -1);
    var t2 := AddMonths(t1, -1);
    if Day(t1) != Day(t2) {
      ClockInRange(t2);
      DayZero(MonthIndex(t2), Hour(t2), Minute(t2), Second(t2));
      AddMonthsFields(Date(MonthIndex(t2), 0, Hour(t2), Minute(t2), Second(t2)), 1);
    }
  }

  /** What decreases in the month loop: the month, then the day. */
  function Rank(t: int, initFlag: bool): nat {
    32 * (Month(t) + if initFlag then 0 else 1) + Day(t)
  }

  lemma MonthNumbers(k: int)
    ensures (k - 1) % 12 == 11 || (k - 1) % 12 == k % 12 - 1
    ensures k % 12 == 0 <==> (k - 1) % 12 == 11
    ensures (k - 1) % 12 != 11 ==> (k - 1) / 12 == k / 12
  {
  }

  lemma RankDecreases(t: int, initFlag: bool)
    ensures var u := StepMonthBack(t, initFlag);
            Month(u) == 12 || Rank(u, true) < Rank(t, initFlag)
  {
    hide MonthStart, MonthOf, MonthLength, MonthIndex, StepMonthBack, Day;
    var u := StepMonthBack(t, initFlag);
    MonthStepBack(t, initFlag);
    MonthNumbers(MonthIndex(t));
    DayInMonth(t);
    DayInMonth(u);
  }

  /** Where the month loop leaves t, and whether it jumps to `retry` from there. */
  function MonthLoopBack(f: Fields, t: int, initFlag: bool): (int, bool)
    decreases Rank(t, initFlag)
  {
    if MonthOk(f, t) then (t, false)
    else
      RankDecreases(t, initFlag);
      if Month(StepMonthBack(t, initFlag)) == 12 then (StepMonthBack(t, initFlag), true)
      else MonthLoopBack(f, StepMonthBack(t, initFlag), true)
  }

  lemma SelectedStays(f: Fields, t: int, initFlag: bool)
    requires MonthOk(f, t)
    ensures MonthLoopBack(f, t, initFlag) == (t, false)
  {
  }

  lemma LoopRound(f: Fields, t: int, initFlag: bool)
    requires !MonthOk(f, t)
    ensures var u := StepMonthBack(t, initFlag);
            MonthLoopBack(f, t, initFlag) == if Month(u) == 12 then (u, true) else MonthLoopBack(f, u, true)
  {
    hide StepMonthBack, Month, MonthOk;
  }

  method SkipMonthsBack(f: Fields, start: int, startFlag: bool) returns (t: int, initFlag: bool, retry: bool)
    ensures (t, retry) == MonthLoopBack(f, start, startFlag)
    ensures initFlag == (startFlag || !MonthOk(f, start))
  {
    hide MonthStart, MonthOf, MonthLength, MonthIndex, AddMonths, Date, MonthOk, Day, Rank, Hour, Minute, Second;
    t, initFlag, retry := start, startFlag, false;
    while !MonthOk(f, t)
      invariant MonthLoopBack(f, t, initFlag) == MonthLoopBack(f, start, startFlag)
      invariant initFlag == startFlag || (initFlag && !MonthOk(f, start))
      invariant MonthOk(f, start) ==> t == start && initFlag == startFlag
      invariant !MonthOk(f, start) && !initFlag ==> t == start
      decreases Rank(t, initFlag)
    {
      RankDecreases(t, initFlag);
      ghost var before, flag := t, initFlag;
      if !initFlag {
        initFlag := true;
        t := Date(MonthIndex(t), 0, 23, 59, 59);
        t := AddMonths(t, 1);
      }
      var d := Day(t);
      t := AddMonths(t, -1);
      if d != Day(t) {
        t := Date(MonthIndex(t), 0, Hour(t), Minute(t), Second(t));
        t := AddMonths(t, 1);
      }
      assert t == StepMonthBack(before, flag);
      if Month(t) == 12 {
        retry := true;
        break;
      }
    }
  }

  // ----- One round

  /** The last second of a day of month k. */
  function EndOf(k: int, day: int): int { Date(k, day, 23, 59, 59) }

  lemma EndOfFields(k: int, day: int)
    requires 1 <= day <= MonthLength(k)
    ensures var t := EndOf(k, day);
            MonthIndex(t) == k && Day(t) == day && Hour(t) == 23 && Minute(t) == 59 && Second(t) == 59
  {
    hide MonthIndex, Day, Hour, Minute, Second, Date, MonthLength, MonthStart, MonthOf;
    FieldsOfDate(k, day, 23, 59, 59);
  }

  /** A round of the loop after the first. */
  lemma NextRound(m: int, day: int)
    requires 1 <= day <= MonthLength(m)
    ensures StepMonthBack(EndOf(m, day), true) ==
            if day <= MonthLength(m - 1) then EndOf(m - 1, day) else EndOf(m, MonthLength(m - 1))
  {
    hide MonthStart, MonthOf, MonthLength, MonthIndex, Day, Hour, Minute, Second, Date, AddMonths;
    var n := MonthLength(m - 1);
    EndOfFields(m, day);
    AddMonthsToDate(m, day, 23, 59, 59, -1);
    if day <= n {
      EndOfFields(m - 1, day);
    } else {
      DateCarries(m - 1, day - n, 23, 59, 59);
      EndOfFields(m, day - n);
      DateCarries(m - 1, 0, 23, 59, 59);
      AddMonthsToDate(m - 1, n, 23, 59, 59, 1);
    }
  }

  /** The first round: from anywhere in month k. */
  lemma FirstRound(t: int)
    ensures var k := MonthIndex(t); var n := MonthLength(k - 1);
            StepMonthBack(t, false) ==
            if n <= MonthLength(k) then EndOf(k - 1, n) else EndOf(k, n - MonthLength(k))
  {
    hide MonthStart, MonthOf, MonthLength, MonthIndex, Day, Hour, Minute, Second, Date, AddMonths;
    var k := MonthIndex(t);
    var n := MonthLength(k - 1);
    DateCarries(k - 1, 0, 23, 59, 59);
    AddMonthsToDate(k - 1, n, 23, 59, 59, 1);
    if n <= MonthLength(k) {
      EndOfFields(k, n);
      AddMonthsToDate(k, n, 23, 59, 59, -1);
      EndOfFields(k - 1, n);
    } else {
      var rest := n - MonthLength(k);
      DateCarries(k, rest, 23, 59, 59);
      Excess(k, n);
      EndOfFields(k + 1, rest);
      AddMonthsToDate(k + 1, rest, 23, 59, 59, -1);
      EndOfFields(k, rest);
    }
  }

  lemma LastSecond(k: int, day: int)
    ensures EndOf(k, day) + 1 == MonthBegin(k + 1) <==> day == MonthLength(k)
  {
    hide MonthStart, MonthOf, MonthLength;
    MonthsAdjacent(k);
  }

  // ----- The landing, through all runs of the loop

  predicate Selected(f: Fields, k: int) { Has(f.month, k % 12 + 1) }

  /** The selected month nearest before month k, if it is one of the n months before k. */
  function NearestWithin(f: Fields, k: int, n: nat): int
    decreases n
  {
    if n <= 1 || Selected(f, k - 1) then k - 1 else NearestWithin(f, k - 1, n - 1)
  }

  /** The selected month nearest before month k, across the turn of the year. */
  function NearestBefore(f: Fields, k: int): int { NearestWithin(f, k, 12) }

  lemma {:induction false} NearestIsNearest(f: Fields, k: int, n: nat, w: int)
    requires k - n <= w < k && Selected(f, w)
    ensures var j := NearestWithin(f, k, n);
            w <= j < k && Selected(f, j) && forall i :: j < i < k ==> !Selected(f, i)
    decreases n
  {
    hide Selected;
    if n > 1 && !Selected(f, k - 1) { NearestIsNearest(f, k - 1, n - 1, w); }
  }

  /** Every month number occurs among twelve months in a row. */
  lemma MonthInTwelve(k: int, number: int) returns (w: int)
    requires 1 <= number <= 12
    ensures k - 12 <= w < k && w % 12 + 1 == number
  {
    w := 12 * ((k - number) / 12) + number - 1;
  }

  lemma NearestBeforeIsNearest(f: Fields, k: int)
    requires Selects(f.month, 1, 12)
    ensures var j := NearestBefore(f, k);
            k - 12 <= j < k && Selected(f, j) && forall i :: j < i < k ==> !Selected(f, i)
  {
    var number :| 1 <= number <= 12 && Has(f.month, number);
    var w := MonthInTwelve(k, number);
    NearestIsNearest(f, k, 12, w);
  }

  /** The nearest month does not change on the way to it. */
  lemma NearestFromBelow(f: Fields, k: int)
    requires Selects(f.month, 1, 12) && !Selected(f, k - 1)
    ensures NearestBefore(f, k) == NearestBefore(f, k - 1)
  {
    hide Selected, NearestBefore, Selects;
    NearestBeforeIsNearest(f, k);
    NearestBeforeIsNearest(f, k - 1);
  }

  /** n runs of the month loop, each after the first entered by `goto retry` with the flag set;
  a run that starts in a selected month ends the search for one. */
  function Runs(f: Fields, t: int, initFlag: bool, n: nat): int
    decreases n
  {
    if n == 0 || MonthOk(f, t) then t
    else Runs(f, MonthLoopBack(f, t, initFlag).0, true, n - 1)
  }

  function Least(a: int, b: int): int { if a < b then a else b }

  /** The day number with which the loop arrives in month j from the given day of month m. */
  function DayAt(m: int, day: int, j: int): int
    requires j <= m
    decreases m - j
  {
    if j == m then day else Least(DayAt(m, day, j + 1), MonthLength(j))
  }

  lemma {:induction false} DayAtFromBelow(m: int, day: int, j: int)
    requires j < m
    ensures DayAt(m, day, j) ==
            DayAt(m - 1, Least(day, MonthLength(m - 1)), j)
    decreases m - j
  {
    hide MonthLength;
    if j < m - 1 {
      DayAtFromBelow(m, day, j + 1);
    }
  }

  lemma {:induction false} DayAtIsLeast(m: int, day: int, j: int)
    requires j <= m
    ensures DayAt(m, day, j) <= day && forall i :: j <= i < m ==> DayAt(m, day, j) <= MonthLength(i)
    ensures DayAt(m, day, j) == day || exists i :: j <= i < m && DayAt(m, day, j) == MonthLength(i)
    decreases m - j
  {
    hide MonthLength;
    if j < m {
      DayAtIsLeast(m, day, j + 1);
    }
  }

  /** The runs go on like the rounds do. */
  lemma RunsStep(f: Fields, t: int, initFlag: bool, n: nat) returns (n': nat)
    requires !MonthOk(f, t)
    ensures Runs(f, t, initFlag, n') == Runs(f, StepMonthBack(t, initFlag), true, n) || n == 0
    ensures MonthOk(f, StepMonthBack(t, initFlag)) ==> Runs(f, t, initFlag, n') == StepMonthBack(t, initFlag)
    ensures n > 0 || MonthOk(f, StepMonthBack(t, initFlag)) ==> n' > 0
  {
    hide StepMonthBack, MonthOk, Month;
    var u := StepMonthBack(t, initFlag);
    if Month(u) == 12 {
      n' := n + 1;
      assert MonthLoopBack(f, t, initFlag) == (u, true);
      assert Runs(f, t, initFlag, n + 1) == Runs(f, u, true, n);
    } else if MonthOk(f, u) {
      n' := 1;
      assert MonthLoopBack(f, u, true) == (u, false);
      assert MonthLoopBack(f, t, initFlag) == (u, false);
      assert Runs(f, t, initFlag, 1) == Runs(f, u, true, 0);
    } else {
      n' := n;
      assert MonthLoopBack(f, t, initFlag) == MonthLoopBack(f, u, true);
    }
  }

  /** Entered with the flag set at the end of a day of an unselected month m, the loop lands in
  the nearest selected month before m, with the least of the day number and the lengths of the
  months on the way. */
  lemma {:induction false} LandsFrom(f: Fields, m: int, day: int) returns (n: nat)
    requires Selects(f.month, 1, 12) && 1 <= day <= MonthLength(m) && !Selected(f, m)
    ensures n > 0 && NearestBefore(f, m) < m
    ensures Runs(f, EndOf(m, day), true, n) == EndOf(NearestBefore(f, m), DayAt(m, day, NearestBefore(f, m)))
    decreases m - NearestBefore(f, m), day
  {
    hide MonthStart, MonthOf, MonthLength, MonthIndex, Day, Hour, Minute, Second, EndOf, StepMonthBack, MonthLoopBack;
    hide NearestBefore, Has, Selects;
    NextRound(m, day);
    EndOfFields(m, day);
    NearestBeforeIsNearest(f, m);
    var j, shorter := NearestBefore(f, m), MonthLength(m - 1);
    if day <= shorter {
      EndOfFields(m - 1, day);
      DayAtFromBelow(m, day, j);
      if j == m - 1 {
        n := RunsStep(f, EndOf(m, day), true, 0);
      } else {
        NearestFromBelow(f, m);
        n := LandsFrom(f, m - 1, day);
        n := RunsStep(f, EndOf(m, day), true, n);
      }
    } else {
      EndOfFields(m, shorter);
      n := LandsFrom(f, m, shorter);
      n := RunsStep(f, EndOf(m, day), true, n);
      DayAtFromBelow(m, day, j);
      DayAtFromBelow(m, shorter, j);
    }
  }

  /** The day number that the first round gives to the month before, unless it is too short. */
  function FirstDay(k: int): (day: int)
    ensures 1 <= day <= MonthLength(k)
  {
    if MonthLength(k - 1) <= MonthLength(k) then MonthLength(k) else MonthLength(k - 1) - MonthLength(k)
  }

  /** Entered anew in an unselected month k, the loop lands in the nearest selected month. */
  lemma LandsFresh(f: Fields, t: int) returns (n: nat)
    requires Selects(f.month, 1, 12) && !MonthOk(f, t)
    ensures var k := MonthIndex(t); var j := NearestBefore(f, k);
            j < k && Runs(f, t, false, n) == EndOf(j, DayAt(k, FirstDay(k), j))
  {
    hide MonthStart, MonthOf, MonthLength, MonthIndex, Day, Hour, Minute, Second, EndOf, StepMonthBack, MonthLoopBack;
    hide NearestBefore, Has, Selects;
    var k := MonthIndex(t);
    var shorter := MonthLength(k - 1);
    FirstRound(t);
    NearestBeforeIsNearest(f, k);
    var j := NearestBefore(f, k);
    DayAtFromBelow(k, FirstDay(k), j);
    if shorter <= MonthLength(k) {
      EndOfFields(k - 1, shorter);
      if j == k - 1 {
        n := RunsStep(f, t, false, 0);
      } else {
        NearestFromBelow(f, k);
        n := LandsFrom(f, k - 1, shorter);
        n := RunsStep(f, t, false, n);
      }
    } else {
      n := LandsFrom(f, k, shorter - MonthLength(k));
      n := RunsStep(f, t, false, n);
    }
  }

  /** No month from j up to, not including, k is shorter than month j. */
  predicate NoneShorter(j: int, k: int) { forall i :: j <= i < k ==> MonthLength(j) <= MonthLength(i) }

  lemma ArrivesWholeIff(m: int, day: int, j: int)
    requires j < m && 1 <= day <= MonthLength(m)
    ensures 1 <= DayAt(m, day, j) <= MonthLength(j)
    ensures DayAt(m, day, j) == MonthLength(j) <==> MonthLength(j) <= day && NoneShorter(j, m)
  {
    hide MonthLength;
    DayAtIsLeast(m, day, j);
  }

  /** Through all its runs the loop goes from an unselected month k to the nearest selected month
  j before it.  Entered anew, it reaches the last second of j exactly when k is no shorter than
  the month before it and no month on the way is shorter than j. */
  lemma FreshLandingExactIff(f: Fields, t: int) returns (n: nat)
    requires Selects(f.month, 1, 12) && !MonthOk(f, t)
    ensures var u := Runs(f, t, false, n); var k := MonthIndex(t); var j := NearestBefore(f, k);
            && MonthIndex(u) == j && MonthOk(f, u)
            && (u + 1 == MonthBegin(j + 1) <==> MonthLength(k - 1) <= MonthLength(k) && NoneShorter(j, k))
  {
    hide MonthStart, MonthOf, MonthLength, MonthIndex, Day, Hour, Minute, Second, EndOf, Runs, MonthBegin;
    hide NearestBefore, Has, Selects, NoneShorter;
    n := LandsFresh(f, t);
    var k := MonthIndex(t);
    var j := NearestBefore(f, k);
    NearestBeforeIsNearest(f, k);
    ArrivesWholeIff(k, FirstDay(k), j);
    LengthsInRange(j, k);
    EndOfFields(j, DayAt(k, FirstDay(k), j));
    LastSecond(j, DayAt(k, FirstDay(k), j));
  }

  lemma LengthsInRange(j: int, k: int)
    requires j < k
    ensures MonthLength(k - 1) > MonthLength(k) ==> MonthLength(k - 1) - MonthLength(k) < MonthLength(j)
    ensures MonthLength(k - 1) <= MonthLength(k) && NoneShorter(j, k) ==> MonthLength(j) <= MonthLength(k)
  {
    hide MonthLength;
    if NoneShorter(j, k) { assert MonthLength(j) <= MonthLength(k - 1); }
  }

  /** Entered with the flag set, as after `goto retry`, at the end of a day of month k, it reaches
  the last second of j exactly when neither the day number nor a month on the way is less. */
  lemma RepeatedLandingExactIff(f: Fields, k: int, day: int) returns (n: nat)
    requires Selects(f.month, 1, 12) && 1 <= day <= MonthLength(k) && !Selected(f, k)
    ensures var u := Runs(f, EndOf(k, day), true, n); var j := NearestBefore(f, k);
            && MonthIndex(u) == j && MonthOk(f, u)
            && (u + 1 == MonthBegin(j + 1) <==> MonthLength(j) <= day && NoneShorter(j, k))
  {
    hide MonthStart, MonthOf, MonthLength, MonthIndex, Day, Hour, Minute, Second, EndOf, Runs, MonthBegin;
    hide NearestBefore, Has, Selects, NoneShorter;
    n := LandsFrom(f, k, day);
    var j := NearestBefore(f, k);
    NearestBeforeIsNearest(f, k);
    ArrivesWholeIff(k, day, j);
    EndOfFields(j, DayAt(k, day, j));
    LastSecond(j, DayAt(k, day, j));
  }

  // ----- Instances

  lemma MonthNumber(y: int, i: int)
    requires 0 <= i < 12
    ensures (12 * y + i) / 12 == y && (12 * y + i) % 12 == i
  {
  }

  lemma OnlyFebruaryLeaps(number: int, leap: bool)
    ensures number != 2 ==> DaysIn(number, leap) == DaysIn(number, true)
    ensures DaysIn(number, leap) <= DaysIn(number, true)
  {
  }

  lemma LengthOfMonth(y: int, number: int)
    requires 1 <= number <= 12
    ensures number != 2 ==> MonthLength(12 * y + number - 1) == DaysIn(number, true)
    ensures (12 * y + number - 1) % 12 + 1 == number
  {
    hide MonthLength, LeapYear, DaysIn;
    MonthLengthAt(y, number - 1);
    MonthNumber(y, number - 1);
    OnlyFebruaryLeaps(number, LeapYear(y));
  }

  /** A number that is the only selected month. */
  predicate OnlyMonth(f: Fields, number: int) {
    1 <= number <= 12 && forall m :: 1 <= m <= 12 ==> (Has(f.month, m) <==> m == number)
  }

  lemma NearestOfOnly(f: Fields, y: int, number: int, k: int)
    requires OnlyMonth(f, number) && 12 * y + number - 1 < k <= 12 * y + number + 11
    ensures Selects(f.month, 1, 12) && NearestBefore(f, k) == 12 * y + number - 1
  {
    hide NearestBefore;
    var j := 12 * y + number - 1;
    assert Has(f.month, number);
    LengthOfMonth(y, number);
    NearestBeforeIsNearest(f, k);
  }

  /** From anywhere in April, with March the only selected month, the loop lands on March 1. */
  lemma AprilToMarch(f: Fields, y: int, t: int) returns (n: nat)
    requires OnlyMonth(f, 3) && MonthIndex(t) == 12 * y + 3
    ensures Runs(f, t, false, n) == Date(12 * y + 2, 1, 23, 59, 59)
  {
    hide NearestBefore, Has, Selects, Runs, MonthIndex, DaysIn;
    var k := 12 * y + 3;
    NearestOfOnly(f, y, 3, k);
    LengthOfMonth(y, 3);
    LengthOfMonth(y, 4);
    assert DaysIn(3, true) == 31 && DaysIn(4, true) == 30 by { MarchAndApril(); }
    hide MonthLength;
    n := LandsFresh(f, t);
    assert DayAt(k, 1, k - 1) == 1;
  }

  lemma MarchAndApril()
    ensures DaysIn(3, true) == 31 && DaysIn(4, true) == 30
  {
  }

  /** From anywhere in January, with October the only selected month, the loop goes to December
  31, by `goto retry` to December 30 and by `goto retry` again to October 30, not 31. */
  lemma JanuaryToOctober(f: Fields, y: int, t: int)
    requires OnlyMonth(f, 10) && MonthIndex(t) == 12 * (y + 1)
    ensures MonthLoopBack(f, t, false) == (Date(12 * y + 11, 31, 23, 59, 59), true)
    ensures MonthLoopBack(f, Date(12 * y + 11, 31, 23, 59, 59), true) == (Date(12 * y + 11, 30, 23, 59, 59), true)
    ensures MonthLoopBack(f, Date(12 * y + 11, 30, 23, 59, 59), true) == (Date(12 * y + 9, 30, 23, 59, 59), false)
    ensures Runs(f, t, false, 3) == Date(12 * y + 9, 30, 23, 59, 59)
  {
    hide OnlyMonth, MonthIndex, DaysIn, MonthOk, Month, MonthLength, EndOf, StepMonthBack, MonthLoopBack;
    var december := 12 * y + 11;
    LengthOfMonth(y, 10);
    LengthOfMonth(y, 11);
    LengthOfMonth(y, 12);
    LengthOfMonth(y + 1, 1);
    AutumnMonths();
    assert EndOf(december, 31) == Date(december, 31, 23, 59, 59) by { EndOfIsDate(december, 31); }
    assert EndOf(december, 30) == Date(december, 30, 23, 59, 59) by { EndOfIsDate(december, 30); }
    assert EndOf(december - 2, 30) == Date(december - 2, 30, 23, 59, 59) by { EndOfIsDate(december - 2, 30); }
    hide Date;
    FirstRound(t);
    assert !MonthOk(f, t) by { MonthsBesideOctober(f, y + 1, 1, t); }
    LoopRound(f, t, false);
    EndOfFields(december, 31);
    MonthsBesideOctober(f, y, 12, EndOf(december, 31));
    RoundOfAutumn(f, y, 12, 31);
    RoundOfAutumn(f, y, 12, 30);
    RoundOfAutumn(f, y, 11, 30);
    EndOfFields(december - 2, 30);
    MonthsBesideOctober(f, y, 10, EndOf(december - 2, 30));
    SelectedStays(f, EndOf(december - 2, 30), true);
    EndOfFields(december, 30);
    MonthsBesideOctober(f, y, 12, EndOf(december, 30));
    assert Runs(f, EndOf(december, 30), true, 1) == EndOf(december - 2, 30);
    assert Runs(f, EndOf(december, 31), true, 2) == EndOf(december - 2, 30);
  }

  lemma EndOfIsDate(k: int, day: int)
    ensures EndOf(k, day) == Date(k, day, 23, 59, 59)
  {
  }

  lemma MonthsBesideOctober(f: Fields, y: int, number: int, t: int)
    requires OnlyMonth(f, 10) && 1 <= number <= 12 && MonthIndex(t) == 12 * y + number - 1
    ensures Month(t) == number && (MonthOk(f, t) <==> number == 10)
  {
    hide MonthIndex;
    MonthNumber(y, number - 1);
  }

  lemma RoundOfAutumn(f: Fields, y: int, number: int, day: int)
    requires OnlyMonth(f, 10) && (number == 12 || number == 11)
    requires var m := 12 * y + number - 1; 1 <= day <= MonthLength(m)
    ensures var m := 12 * y + number - 1;
            var u := if day <= MonthLength(m - 1) then EndOf(m - 1, day) else EndOf(m, MonthLength(m - 1));
            MonthLoopBack(f, EndOf(m, day), true) ==
            if number == 12 && day > MonthLength(m - 1) then (u, true) else MonthLoopBack(f, u, true)
  {
    hide OnlyMonth, MonthIndex, MonthOk, Month, MonthLength, EndOf, StepMonthBack, MonthLoopBack;
    var m := 12 * y + number - 1;
    var shorter := MonthLength(m - 1);
    NextRound(m, day);
    EndOfFields(m, day);
    MonthsBesideOctober(f, y, number, EndOf(m, day));
    LoopRound(f, EndOf(m, day), true);
    if day <= shorter {
      EndOfFields(m - 1, day);
      MonthsBesideOctober(f, y, number - 1, EndOf(m - 1, day));
    } else {
      EndOfFields(m, shorter);
      MonthsBesideOctober(f, y, number, EndOf(m, shorter));
    }
  }

  lemma AutumnMonths()
    ensures DaysIn(10, true) == 31 && DaysIn(11, true) == 30 && DaysIn(12, true) == 31 && DaysIn(1, true) == 31
  {
  }
}
