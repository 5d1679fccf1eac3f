/** When an expression fires at all, and how long one may have to wait for it. */
module Firing {
  import opened Bits
  import opened Calendar
  import opened Schedule

  ghost predicate Selects(m: Mask, lo: int, hi: int)
    requires 0 <= lo
  {
    exists i :: lo <= i <= hi && Has(m, i)
  }

  /** Some time of day is selected. */
  ghost predicate ClockPossible(f: Fields) {
    Selects(f.hour, 0, 23) && Selects(f.min, 0, 59) && Selects(f.sec, 0, 59)
  }

  /** The weekday field takes part in the choice of days. */
  predicate WeekdayDecides(f: Fields) {
    f.dom == EVERY_DAY || f.dow != EVERY_WEEKDAY
  }

  /** The day-of-month field takes part in the choice of days. */
  predicate DayDecides(f: Fields) {
    f.dom != EVERY_DAY
  }

  /** Month m (1 to 12) has, in a leap year, a day that the day rule can accept. */
  ghost predicate DayPossible(f: Fields, m: int) {
    || (WeekdayDecides(f) && Selects(f.dow, 0, 6))
    || (DayDecides(f) && Selects(f.dom, 1, DaysIn(m, true)))
  }

  /** The condition under which the expression is not vacuous. */
  ghost predicate Satisfiable(f: Fields) {
    ClockPossible(f) && exists m :: 1 <= m <= 12 && Has(f.month, m) && DayPossible(f, m)
  }

  /** The month and the day rule accept day number d. */
  predicate DaySelected(f: Fields, d: int) {
    MonthOk(f, d * 86400) && MatchDay(f, d * 86400)
  }

  lemma MatchIsDayAndClock(f: Fields, t: int)
    ensures Matches(f, t) <==> DaySelected(f, t / 86400) && HourOk(f, t) && MinuteOk(f, t) && SecondOk(f, t)
  {
    hide MonthStart, MonthLength, MonthOf;
    SameDaySameFields(t / 86400 * 86400, t);
  }

  lemma SelectedDayFires(f: Fields, d: int) returns (t: int)
    requires ClockPossible(f) && DaySelected(f, d)
    ensures d * 86400 <= t < (d + 1) * 86400 && Matches(f, t)
  {
    var h :| 0 <= h <= 23 && Has(f.hour, h);
    var m :| 0 <= m <= 59 && Has(f.min, m);
    var s :| 0 <= s <= 59 && Has(f.sec, s);
    t := TimeOfDay(d, h, m, s);
    hide DaySelected, Matches;
    MatchIsDayAndClock(f, t);
  }

  /** The day number of a day of a month, with the fields that decide about it. */
  lemma DayOfMonth(k: int, day: int) returns (d: int)
    requires 1 <= day <= MonthLength(k)
    ensures d == MonthStart(k) + day - 1
    ensures MonthIndex(d * 86400) == k && Day(d * 86400) == day
    ensures Weekday(d * 86400) == (d + 1) % 7
    ensures MonthBegin(k) <= d * 86400 && (d + 1) * 86400 <= MonthBegin(k + 1)
  {
    hide MonthOf, MonthLength, MonthStart;
    d := MonthStart(k) + day - 1;
    MidnightDate(k, day, d);
    MonthsAdjacent(k);
    hide MonthIndex, Day, Hour, Minute, Second, Date;
    FieldsOfDate(k, day, 0, 0, 0);
    Midnight(d);
  }

  lemma MidnightDate(k: int, day: int, d: int)
    requires d == MonthStart(k) + day - 1
    ensures Date(k, day, 0, 0, 0) == d * 86400
  {
    hide MonthStart;
  }

  /** Among seven days in a row one falls on weekday w; day 0 was a Monday. */
  lemma WeekdayInSeven(start: int, w: int) returns (offset: int)
    requires 0 <= w < 7
    ensures 0 <= offset < 7 && (start + offset + 1) % 7 == w
  {
    offset := (w - start - 1) % 7;
    var q := (w - start - 1) / 7;
    assert start + offset + 1 == w - 7 * q;
    SplitWeek(-q, w);
  }

  lemma SplitWeek(q: int, w: int)
    requires 0 <= w < 7
    ensures (q * 7 + w) % 7 == w
  {
  }

  /** Every weekday occurs among the first seven days of a month. */
  lemma WeekdayInMonth(f: Fields, k: int, w: int) returns (d: int)
    requires 0 <= w < 7 && Has(f.dow, w) && WeekdayDecides(f) && Has(f.month, k % 12 + 1)
    ensures DaySelected(f, d) && MonthIndex(d * 86400) == k && Day(d * 86400) <= 7
    ensures MonthBegin(k) <= d * 86400 && (d + 1) * 86400 <= MonthBegin(k + 1)
  {
    hide MonthStart, MonthLength, MonthOf, MonthIndex, Day, Weekday, MonthBegin;
    var offset := WeekdayInSeven(MonthStart(k), w);
    d := DayOfMonth(k, offset + 1);
  }

  lemma DayNumberInMonth(f: Fields, k: int, day: int) returns (d: int)
    requires 1 <= day <= MonthLength(k) && Has(f.dom, day) && DayDecides(f) && Has(f.month, k % 12 + 1)
    ensures DaySelected(f, d) && MonthIndex(d * 86400) == k && Day(d * 86400) == day
    ensures MonthBegin(k) <= d * 86400 && (d + 1) * 86400 <= MonthBegin(k + 1)
  {
    hide MonthStart, MonthLength, MonthOf, MonthIndex, Day, Weekday, MonthBegin;
    d := DayOfMonth(k, day);
  }

  lemma AfterCentury(c: int)
    ensures (100 * c + 4) % 100 == 4
  {
  }

  lemma LeapYearAhead(y: int) returns (l: int)
    ensures y < l <= y + 8 && LeapYear(l)
  {
    var q := y / 4 + 1;
    if 4 * q % 100 == 0 {
      AfterCentury(4 * q / 100);
      l := 4 * (q + 1);
    } else {
      l := 4 * q;
    }
  }

  lemma MonthOfYear(y: int, m: int) returns (k: int)
    requires 1 <= m <= 12
    ensures k == 12 * y + m - 1 && k % 12 + 1 == m
    ensures MonthLength(k) == DaysIn(m, LeapYear(y))
    ensures MonthBegin(12 * y) <= MonthBegin(k) && MonthBegin(k + 1) <= MonthBegin(12 * (y + 1))
  {
    hide MonthStart, MonthLength, LeapYear, DaysIn;
    k := 12 * y + m - 1;
    MonthLengthAt(y, m - 1);
    if m > 1 { MonthsOrdered(12 * y, k); }
    if m < 12 { MonthsOrdered(k + 1, 12 * (y + 1)); }
  }

  lemma SelectedDayInMonth(f: Fields, k: int, longest: int) returns (d: int)
    requires Has(f.month, k % 12 + 1) && longest <= MonthLength(k)
    requires (WeekdayDecides(f) && Selects(f.dow, 0, 6)) || (DayDecides(f) && Selects(f.dom, 1, longest))
    ensures DaySelected(f, d)
    ensures MonthBegin(k) <= d * 86400 && (d + 1) * 86400 <= MonthBegin(k + 1)
  {
    hide MonthStart, MonthLength, DaySelected;
    if WeekdayDecides(f) && Selects(f.dow, 0, 6) {
      var w :| 0 <= w <= 6 && Has(f.dow, w);
      d := WeekdayInMonth(f, k, w);
    } else {
      var day :| 1 <= day <= longest && Has(f.dom, day);
      d := DayNumberInMonth(f, k, day);
    }
  }

  /** A selected month with a selected day or weekday fires in every year in which it is long enough. */
  lemma FiresInYear(f: Fields, y: int, m: int, longest: int) returns (t: int)
    requires ClockPossible(f) && 1 <= m <= 12 && Has(f.month, m) && longest <= DaysIn(m, LeapYear(y))
    requires (WeekdayDecides(f) && Selects(f.dow, 0, 6)) || (DayDecides(f) && Selects(f.dom, 1, longest))
    ensures MonthBegin(12 * y) <= t < MonthBegin(12 * (y + 1))
    ensures Matches(f, t)
  {
    hide MonthStart, MonthLength, Has, Matches, DaySelected, LeapYear, DaysIn, MonthBegin, WeekdayDecides, DayDecides;
    var k := MonthOfYear(y, m);
    var d := SelectedDayInMonth(f, k, longest);
    t := SelectedDayFires(f, d);
  }

  /** A satisfiable expression fires in one of the eight years after any year y. */
  lemma FiresWithinEightYears(f: Fields, y: int) returns (t: int)
    requires Satisfiable(f)
    ensures MonthBegin(12 * (y + 1)) <= t < MonthBegin(12 * (y + 9))
    ensures Matches(f, t)
  {
    var m :| 1 <= m <= 12 && Has(f.month, m) && DayPossible(f, m);
    hide MonthStart, MonthLength, Has, Matches, DaySelected, LeapYear, DaysIn;
    var l := LeapYearAhead(y);
    t := FiresInYear(f, l, m, DaysIn(m, true));
    if y + 1 < l { MonthsOrdered(12 * (y + 1), 12 * l); }
    if l < y + 8 { MonthsOrdered(12 * (l + 1), 12 * (y + 9)); }
  }

  /** The condition is exact: without it no instant, past or future, matches. */
  lemma SatisfiableIffFires(f: Fields)
    ensures Satisfiable(f) <==> exists t :: Matches(f, t)
  {
    if Satisfiable(f) {
      var t := FiresWithinEightYears(f, 0);
    }
    if exists t :: Matches(f, t) {
      var t :| Matches(f, t);
      assert Has(f.hour, Hour(t)) && Has(f.min, Minute(t)) && Has(f.sec, Second(t));
      DayInMonth(t);
      assert Has(f.dow, Weekday(t)) || Has(f.dom, Day(t));
      assert DayPossible(f, Month(t));
    }
  }
}
