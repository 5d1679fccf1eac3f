/** When `CustomCronExpr.Prev` is right: the masks for which, from every start, the search backward
ends with the greatest firing instant before it. */
module BackwardFinds {
  import opened Bits
  import opened Calendar
  import opened Schedule
  import opened Firing
  import opened BackwardMonths
  import opened BackwardPasses
  import opened BackwardEnds
  import opened CustomSchedule
  import opened Options

  /** The search from t0 ends, and r is what it returns. */
  ghost predicate Returns(e: CustomCronExpr, t0: int, r: Option<int>) {
    exists n: nat :: After(e, t0, n) == Returned(r)
  }

  /** The search from t0 ends with the greatest firing instant before t0. */
  ghost predicate Finds(e: CustomCronExpr, t0: int) {
    exists r :: Returns(e, t0, r) && IsPrev(e, t0, r)
  }

  lemma ReturnsLastSeen(e: CustomCronExpr, t0: int, r: Option<int>)
    requires Returns(e, t0, r)
    ensures IsLastSeen(e, t0, r)
  {
    hide After, IsLastSeen;
    var n: nat :| After(e, t0, n) == Returned(r);
    AfterKeeps(e, t0, n);
  }

  lemma ReturnsIfSeen(e: CustomCronExpr, t0: int) returns (r: Option<int>)
    requires SeesMatch(e, t0)
    ensures Returns(e, t0, r) && IsLastSeen(e, t0, r)
  {
    hide After, IsLastSeen, SeesMatch;
    EndsIff(e, t0);
    var n: nat :| After(e, t0, n).Returned?;
    r := After(e, t0, n).r;
    assert Returns(e, t0, r);
    ReturnsLastSeen(e, t0, r);
  }

  // ----- Months that leave a day of an earlier month behind

  predicate MonthOfYear(e: CustomCronExpr, k: int) { e.year == ANY_YEAR || k / 12 == e.year }

  /** Month k is shorter than the month before it, so that a search that starts in it enters
  the months before with a day number of at most three, and the expression fires in month j on a
  later day, with no selected month between. */
  ghost predicate LeavesBehind(e: CustomCronExpr, j: int, k: int) {
    && j < k && MonthOfYear(e, j) && MonthOfYear(e, k)
    && NoneSelected(e.fields, j, k) && MonthLength(k) < MonthLength(k - 1)
    && exists s :: Matches(e.fields, s) && MonthIndex(s) == j && MonthLength(k - 1) - MonthLength(k) < Day(s)
  }

  /** A day that is not seen from month k on is left behind by some month on the way. */
  lemma {:induction false} ShorterOnTheWay(f: Fields, k: int, j: int, day: int) returns (i: int)
    requires j < k && Entry(f, k, j) < day <= MonthLength(j)
    ensures j < i <= k && NoneSelected(f, j, i)
    ensures MonthLength(i) < MonthLength(i - 1) && MonthLength(i - 1) - MonthLength(i) < day
    decreases k - j
  {
    hide MonthLength, Selected;
    i := j + 1;
    if i < k && day <= MonthLength(i) {
      i := ShorterOnTheWay(f, k, i, day);
    } else if i < k {
      LengthsDiffer(i);
    }
  }

  lemma LengthsDiffer(k: int)
    ensures MonthLength(k - 1) - MonthLength(k) <= 3 && 28 <= MonthLength(k)
  {
    hide MonthLength;
  }

  /** What fires and is not seen has been left behind. */
  lemma UnseenLeftBehind(e: CustomCronExpr, t0: int, s: int) returns (i: int)
    requires s < t0 && Fires(e, s) && YearOk(e, t0 - 1) && !Seen(e.fields, t0, s)
    ensures LeavesBehind(e, MonthIndex(s), i)
  {
    hide MonthIndex, MonthLength, Matches, Day, Entry, NoneSelected;
    var f, j, k := e.fields, MonthIndex(s), MonthIndex(t0 - 1);
    EarlierMonth(s, t0 - 1);
    DayInMonth(s);
    i := ShorterOnTheWay(f, k, j, Day(s));
    if e.year != ANY_YEAR { Between(j, i, k); }
  }

  /** If no month leaves a day behind, the search sees all that fires. */
  lemma AllSeen(e: CustomCronExpr, t0: int, s: int)
    requires forall j, k :: !LeavesBehind(e, j, k)
    requires s < t0 && Fires(e, s) && YearOk(e, t0 - 1)
    ensures Seen(e.fields, t0, s)
  {
    hide LeavesBehind, Seen, Fires, YearOk, MonthIndex;
    if !Seen(e.fields, t0, s) {
      var i := UnseenLeftBehind(e, t0, s);
    }
  }

  lemma Between(j: int, i: int, k: int)
    requires j <= i <= k && j / 12 == k / 12
    ensures i / 12 == j / 12
  {
  }

  /** A search that sees all that fires before t0 returns what it should. */
  lemma AllSeenGivesPrev(e: CustomCronExpr, t0: int, r: Option<int>)
    requires IsLastSeen(e, t0, r)
    requires YearOk(e, t0 - 1) ==> forall s :: s < t0 && Fires(e, s) ==> Seen(e.fields, t0, s)
    ensures IsPrev(e, t0, r)
  {
    hide Seen, Matches, MonthBegin, Year;
    if YearOk(e, t0 - 1) {
      if r.Some? { SeenIsBefore(e.fields, t0, r.value); }
      var from := if r.Some? then r.value + 1 else MonthBegin(12 * e.year);
      forall s | from <= s < t0 ensures !Matches(e.fields, s) {
        YearContains(t0 - 1, e.year);
        YearContains(s, e.year);
        if r.Some? { YearContains(r.value, e.year); }
      }
    }
  }

  /** The entry is never later than the first day number, up to a selected month. */
  lemma EntryAtMostFirst(f: Fields, k: int, j: int)
    requires j < k && NoneSelected(f, j, k)
    ensures Entry(f, k, j) <= FirstDay(k)
  {
    hide MonthLength, NoneSelected, Entry, DayAt, FirstDay;
    EntryFromStart(f, k, j);
    DayAtIsLeast(k, FirstDay(k), j);
  }

  /** The start from which a day that is left behind is missed. */
  lemma MissedFrom(e: CustomCronExpr, j: int, k: int, r: Option<int>)
    requires LeavesBehind(e, j, k)
    ensures var t0 := MonthBegin(k) + 1; !(IsLastSeen(e, t0, r) && IsPrev(e, t0, r))
  {
    var f, t0 := e.fields, MonthBegin(k) + 1;
    MonthBeginIsAligned(k);
    hide MonthIndex, MonthLength, Matches, Day, Entry, MonthBegin, NoneSelected, FirstDay, Seen;
    var s :| Matches(f, s) && MonthIndex(s) == j && MonthLength(k - 1) - MonthLength(k) < Day(s);
    EntryAtMostFirst(f, k, j);
    assert FirstDay(k) == MonthLength(k - 1) - MonthLength(k) by { FirstDayOfShorter(k); }
    EarlierMonth(s, t0 - 1);
    assert YearOk(e, s) && YearOk(e, t0 - 1);
    if IsLastSeen(e, t0, r) && IsPrev(e, t0, r) {
      if r.Some? {
        var u := r.value;
        SeenIsBefore(f, t0, u);
        assert s <= u;
        EarlierMonth(s, u);
        EarlierMonth(u, t0 - 1);
        assert MonthIndex(u) == j by { OnlyFirst(f, j, k, u); }
        LaterDay(s, u);
        assert false by { NotSeen(f, t0, u); }
      } else {
        YearContains(s, e.year);
        assert false;
      }
    }
  }

  lemma FirstDayOfShorter(k: int)
    requires MonthLength(k) < MonthLength(k - 1)
    ensures FirstDay(k) == MonthLength(k - 1) - MonthLength(k)
  {
    hide MonthLength;
  }

  lemma OnlyFirst(f: Fields, j: int, k: int, u: int)
    requires NoneSelected(f, j, k) && Matches(f, u) && j <= MonthIndex(u) <= k
    ensures MonthIndex(u) == j
  {
    hide MonthIndex, Matches, Selected;
    if !Selected(f, MonthIndex(u)) { NoMatchOutside(f, u); }
  }

  lemma NotSeen(f: Fields, t0: int, u: int)
    requires var k := MonthIndex(t0 - 1); MonthIndex(u) < k && Entry(f, k, MonthIndex(u)) < Day(u)
    ensures !Seen(f, t0, u)
  {
    hide MonthIndex, Entry, Day;
  }

  /** The search finds the greatest firing instant from every start exactly when there is
  something to find and no month leaves a day behind. */
  lemma FindsUnlessLeftBehind(e: CustomCronExpr)
    ensures (forall t0 :: Finds(e, t0)) <==>
            Searchable(e) && forall j, k :: !LeavesBehind(e, j, k)
  {
    hide Returns, IsPrev, IsLastSeen, LeavesBehind, Satisfiable, MonthBegin, YearOk, Fires, Seen;
    if Searchable(e) && forall j, k :: !LeavesBehind(e, j, k) {
      forall t0 ensures Finds(e, t0) {
        var r := FindsAll(e, t0);
      }
    }
    if forall t0 :: Finds(e, t0) {
      assert Finds(e, 0);
      var r :| Returns(e, 0, r) && IsPrev(e, 0, r);
      FoundFires(e, 0, r);
      forall j, k ensures !LeavesBehind(e, j, k) {
        if LeavesBehind(e, j, k) {
          var t0 := MonthBegin(k) + 1;
          assert Finds(e, t0);
          var r :| Returns(e, t0, r) && IsPrev(e, t0, r);
          ReturnsLastSeen(e, t0, r);
          MissedFrom(e, j, k, r);
        }
      }
    }
  }

  lemma FoundFires(e: CustomCronExpr, t0: int, r: Option<int>)
    requires IsPrev(e, t0, r)
    ensures Searchable(e)
  {
    hide Matches, Satisfiable;
    SatisfiableIffFires(e.fields);
  }

  lemma FindsAll(e: CustomCronExpr, t0: int) returns (r: Option<int>)
    requires Searchable(e) && forall j, k :: !LeavesBehind(e, j, k)
    ensures Returns(e, t0, r) && IsPrev(e, t0, r)
  {
    hide IsPrev, IsLastSeen, LeavesBehind, Satisfiable, MonthBegin, Matches, Seen, After, Year;
    forall s | s < t0 && Fires(e, s) && YearOk(e, t0 - 1) ensures Seen(e.fields, t0, s) { AllSeen(e, t0, s); }
    if e.year == ANY_YEAR {
      var y := Year(t0 - 1);
      var s := FiresWithinEightYears(e.fields, y - 9);
      YearSpan(t0 - 1, y - 1);
      assert s < t0 && Fires(e, s);
    }
    assert SeesMatch(e, t0);
    r := ReturnsIfSeen(e, t0);
    AllSeenGivesPrev(e, t0, r);
  }

  // ----- The same on the masks

  /** The length of the month number x months after `number`. */
  function LengthAfter(number: int, x: int, leap: bool): (n: int)
    ensures 28 <= n <= 31
  {
    DaysIn(NumberAfter(number, x), leap)
  }

  /** By how many days that month is shorter than the one before it. */
  function Drop(number: int, x: int, leap: bool): int {
    LengthAfter(number, x - 1, leap) - LengthAfter(number, x, leap)
  }

  /** The day rule can accept a day after the first n of the month. */
  ghost predicate LateDay(f: Fields, number: int, n: nat, leap: bool) {
    || (WeekdayDecides(f) && Selects(f.dow, 0, 6))
    || (DayDecides(f) && Selects(f.dom, n + 1, DaysIn(number, leap)))
  }

  /** A leap year is among the years of the expression. */
  predicate LeapPossible(e: CustomCronExpr) { e.year == ANY_YEAR || LeapYear(e.year) }

  ghost predicate AstrayAt(e: CustomCronExpr, a: int, x: int) {
    && 1 <= a <= 12 && 1 <= x <= 11 && (e.year != ANY_YEAR ==> a + x <= 12)
    && Has(e.fields.month, a) && (forall i :: 1 <= i <= x ==> !Has(e.fields.month, NumberAfter(a, i)))
    && 0 < Drop(a, x, LeapPossible(e)) && LateDay(e.fields, a, Drop(a, x, LeapPossible(e)), LeapPossible(e))
  }

  /** After a selected month comes, before the next selected one, a month that is shorter than the
  one before it, and the day rule can accept a day of the selected month later than their
  difference. */
  ghost predicate Astray(e: CustomCronExpr) {
    ClockPossible(e.fields) && exists a, x :: AstrayAt(e, a, x)
  }

  lemma NumberOfMonth(j: int, x: int)
    ensures 1 <= j % 12 + 1 <= 12 && NumberAfter(j % 12 + 1, x) == (j + x) % 12 + 1
  {
    var q, r := j / 12, j % 12;
    var q', r' := (r + x) / 12, (r + x) % 12;
    MonthNumber(q + q', r');
  }

  /** An instant after the first n days of month j, if the day rule allows it. */
  lemma FiresLate(f: Fields, j: int, n: int) returns (s: int)
    requires ClockPossible(f) && Has(f.month, j % 12 + 1) && 0 < n <= 3
    requires (WeekdayDecides(f) && Selects(f.dow, 0, 6)) || (DayDecides(f) && Selects(f.dom, n + 1, MonthLength(j)))
    ensures Matches(f, s) && MonthIndex(s) == j && n < Day(s)
  {
    hide MonthIndex, MonthLength, Has, Day, DaySelected, Matches, WeekdayDecides, DayDecides, ClockPossible, MonthBegin;
    var d: int;
    if WeekdayDecides(f) && Selects(f.dow, 0, 6) {
      var w :| 0 <= w <= 6 && Has(f.dow, w);
      d := WeekdayInSecondWeek(f, j, w);
    } else {
      var day :| n + 1 <= day <= MonthLength(j) && Has(f.dom, day);
      d := DayNumberInMonth(f, j, day);
    }
    s := SelectedDayFires(f, d);
    SameDay(s, d);
  }

  lemma WeekdayInSecondWeek(f: Fields, k: int, w: int) returns (d: int)
    requires 0 <= w < 7 && Has(f.dow, w) && WeekdayDecides(f) && Has(f.month, k % 12 + 1)
    ensures DaySelected(f, d) && MonthIndex(d * 86400) == k && 8 <= Day(d * 86400)
  {
    hide MonthStart, MonthLength, MonthOf, MonthIndex, Day, Weekday, MonthBegin;
    var offset := WeekdayInSeven(MonthStart(k) + 7, w);
    d := DayOfMonth(k, offset + 8);
  }

  /** Twelve months from number a on, or those of the fixed year, with the lengths that count. */
  lemma MonthsWithLengths(e: CustomCronExpr, a: int, x: int) returns (j: int)
    requires 1 <= a <= 12 && 1 <= x <= 11 && (e.year != ANY_YEAR ==> a + x <= 12)
    ensures j % 12 + 1 == a && MonthOfYear(e, j) && MonthOfYear(e, j + x)
    ensures forall i :: 0 <= i <= x ==> MonthLength(j + i) == LengthAfter(a, i, LeapPossible(e))
  {
    hide MonthLength, DaysIn, LeapYear, NumberAfter;
    if e.year == ANY_YEAR {
      var l := LeapYearAhead(0);
      j := LeapWindow(a, l);
      forall i | 0 <= i <= x ensures MonthLength(j + i) == LengthAfter(a, i, true) { NumberOfMonth(j, i); }
    } else {
      j := 12 * e.year + a - 1;
      MonthNumber(e.year, a - 1);
      MonthNumber(e.year, a - 1 + x);
      forall i | 0 <= i <= x ensures MonthLength(j + i) == LengthAfter(a, i, LeapPossible(e)) {
        MonthNumber(e.year, a - 1 + i);
        MonthLengthAt(e.year, a - 1 + i);
        NumberOfMonth(j, i);
      }
    }
  }

  lemma AstrayLeavesBehind(e: CustomCronExpr, a: int, x: int) returns (j: int)
    requires ClockPossible(e.fields) && AstrayAt(e, a, x)
    ensures LeavesBehind(e, j, j + x)
  {
    hide MonthLength, NumberAfter, Has, ClockPossible, MonthIndex, Day, Matches, LengthAfter, Selects, LeapPossible;
    hide DayDecides, WeekdayDecides, DaysIn;
    var f := e.fields;
    j := MonthsWithLengths(e, a, x);
    assert MonthLength(j + x) == LengthAfter(a, x, LeapPossible(e));
    assert MonthLength(j + (x - 1)) == LengthAfter(a, x - 1, LeapPossible(e));
    assert MonthLength(j + 0) == DaysIn(a, LeapPossible(e)) by { FirstLength(a, LeapPossible(e)); }
    var s := FiresLate(f, j, Drop(a, x, LeapPossible(e)));
    forall i | j < i <= j + x ensures !Selected(f, i) {
      NumberOfMonth(j, i - j);
      assert !Has(f.month, NumberAfter(a, i - j));
    }
  }

  lemma FirstLength(a: int, leap: bool)
    requires 1 <= a <= 12
    ensures LengthAfter(a, 0, leap) == DaysIn(a, leap)
  {
  }

  /** In leap years a month is shorter than the one before it by no more days than in others. */
  lemma DropInLeapYear(k: int)
    requires MonthLength(k) < MonthLength(k - 1)
    ensures 0 < DaysIn((k - 1) % 12 + 1, true) - DaysIn(k % 12 + 1, true) <= MonthLength(k - 1) - MonthLength(k)
  {
    hide LeapYear;
    MonthNumbers(k);
  }

  lemma DropThatCounts(e: CustomCronExpr, j: int, k: int)
    requires j < k && MonthOfYear(e, j) && MonthOfYear(e, k) && MonthLength(k) < MonthLength(k - 1)
    ensures 0 < Drop(j % 12 + 1, k - j, LeapPossible(e)) <= MonthLength(k - 1) - MonthLength(k)
  {
    hide MonthLength, NumberAfter, DaysIn, LeapYear;
    NumberOfMonth(j, k - j);
    NumberOfMonth(j, k - j - 1);
    if e.year == ANY_YEAR {
      DropInLeapYear(k);
    } else {
      SameYear(e.year, j, k);
      LengthsThatCount(e, k);
      LengthsThatCount(e, k - 1);
    }
  }

  lemma LeftBehindIsAstray(e: CustomCronExpr, j: int, k: int)
    requires LeavesBehind(e, j, k)
    ensures Astray(e)
  {
    hide MonthLength, NumberAfter, Has, MonthIndex, Day, Matches, DaysIn, LeapYear, Drop, DayDecides, WeekdayDecides;
    var f, a, x, leap := e.fields, j % 12 + 1, k - j, LeapPossible(e);
    var s :| Matches(f, s) && MonthIndex(s) == j && MonthLength(k - 1) - MonthLength(k) < Day(s);
    MatchFields(f, s);
    WithinTwelve(f, j, k);
    DropThatCounts(e, j, k);
    LengthsThatCount(e, j);
    assert LateDay(f, a, Drop(a, x, leap), leap);
    hide LeapPossible, LateDay;
    forall i | 1 <= i <= x ensures !Has(f.month, NumberAfter(a, i)) {
      NumberOfMonth(j, i);
      assert !Selected(f, j + i);
    }
    NumberOfMonth(j, 0);
    if e.year != ANY_YEAR { SameYear(e.year, j, k); }
    assert AstrayAt(e, a, x);
  }

  lemma LengthsThatCount(e: CustomCronExpr, j: int)
    ensures e.year == ANY_YEAR ==> MonthLength(j) <= DaysIn(j % 12 + 1, LeapPossible(e))
    ensures e.year != ANY_YEAR && j / 12 == e.year ==> MonthLength(j) == DaysIn(j % 12 + 1, LeapPossible(e))
  {
    hide DaysIn, LeapYear;
    LengthAtMost(j);
  }

  lemma SameYear(y: int, j: int, k: int)
    requires j < k && j / 12 == y && k / 12 == y
    ensures (k - 1) / 12 == y && j % 12 + k - j <= 11
  {
  }

  lemma WithinTwelve(f: Fields, j: int, k: int)
    requires j < k && NoneSelected(f, j, k) && Selected(f, j)
    ensures k - j <= 11
  {
    NextYearSameNumber(j);
    assert Selected(f, j + 12);
    hide Selected;
  }

  lemma MatchFields(f: Fields, s: int)
    requires Matches(f, s)
    ensures ClockPossible(f) && Selected(f, MonthIndex(s)) && 1 <= Day(s) <= MonthLength(MonthIndex(s))
    ensures (WeekdayDecides(f) && Selects(f.dow, 0, 6)) || (DayDecides(f) && Has(f.dom, Day(s)))
  {
    hide MonthIndex, MonthLength, Day, Weekday, Has, Hour, Minute, Second;
    DayInMonth(s);
    ClockInRange(s);
    WeekdayInRange(s);
  }

  lemma WeekdayInRange(s: int)
    ensures 0 <= Weekday(s) <= 6
  {
  }

  /** The search backward is right from every start, that is, it ends with the greatest firing
  instant before it, if and only if there is something to find and the masks do not lead it astray. */
  lemma FindsFromAnywhereIff(e: CustomCronExpr)
    ensures (forall t0 :: Finds(e, t0)) <==> Searchable(e) && !Astray(e)
  {
    hide Finds, LeavesBehind, Searchable, AstrayAt, ClockPossible;
    FindsUnlessLeftBehind(e);
    if Astray(e) {
      var a, x :| AstrayAt(e, a, x);
      var j := AstrayLeavesBehind(e, a, x);
    } else {
      forall j, k ensures !LeavesBehind(e, j, k) {
        if LeavesBehind(e, j, k) { LeftBehindIsAstray(e, j, k); }
      }
    }
  }

  /** Whatever it returns is then the greatest firing instant. */
  lemma NotAstrayGivesPrev(e: CustomCronExpr, t0: int, r: Option<int>)
    requires !Astray(e) && IsLastSeen(e, t0, r)
    ensures IsPrev(e, t0, r)
  {
    hide IsPrev, IsLastSeen, LeavesBehind, Astray, Fires, Seen, YearOk;
    forall j, k ensures !LeavesBehind(e, j, k) {
      if LeavesBehind(e, j, k) { LeftBehindIsAstray(e, j, k); }
    }
    forall s | s < t0 && Fires(e, s) && YearOk(e, t0 - 1) ensures Seen(e.fields, t0, s) { AllSeen(e, t0, s); }
    AllSeenGivesPrev(e, t0, r);
  }

  lemma EveryMonthIsNotAstray(e: CustomCronExpr)
    requires EveryMonth(e.fields)
    ensures !Astray(e)
  {
    hide Has, NumberAfter, Drop, LateDay;
    forall a, x ensures !AstrayAt(e, a, x) {
      assert Has(e.fields.month, NumberAfter(a, 1));
    }
  }
}
