/** The instants that the searches give, in terms of the masks and the calendar alone. */
module FiringTimes {
  import opened Bits
  import opened Calendar
  import opened Dates
  import opened Schedule
  import opened Firing
  import opened CronExpr
  import opened BackwardPasses
  import opened BackwardEnds
  import opened CustomSchedule
  import opened Options

  // ----- Which instants are asked for

  /** The day is asked for: by the weekday if the day field is full, by the day of the month if
  the weekday field is full, and by either of them otherwise. */
  ghost predicate DayAsked(f: Fields, t: int) {
    && (Value(f.dom) == 0xfffffffe ==> Has(f.dow, Weekday(t)))
    && (Value(f.dom) != 0xfffffffe && Value(f.dow) == 0x7f ==> Has(f.dom, Day(t)))
    && (Value(f.dom) != 0xfffffffe && Value(f.dow) != 0x7f ==> Has(f.dow, Weekday(t)) || Has(f.dom, Day(t)))
  }

  ghost predicate Asked(f: Fields, t: int) {
    && Has(f.month, Month(t)) && DayAsked(f, t)
    && Has(f.hour, Hour(t)) && Has(f.min, Minute(t)) && Has(f.sec, Second(t))
  }

  lemma AskedIffMatches(f: Fields, t: int)
    ensures Asked(f, t) <==> Matches(f, t)
  {
    hide MonthIndex, Day, Weekday, Hour, Minute, Second, Value, Has;
    EveryDayIsLiteral(f.dom);
    EveryWeekdayIsLiteral(f.dow);
  }

  /** The fields of an instant that is asked for. */
  lemma FieldsAreSelected(f: Fields, u: int)
    requires Matches(f, u)
    ensures f.dom == EVERY_DAY ==> Has(f.dow, Weekday(u))
    ensures f.dom != EVERY_DAY && f.dow == EVERY_WEEKDAY ==> Has(f.dom, Day(u))
    ensures f.dom != EVERY_DAY && f.dow != EVERY_WEEKDAY ==> Has(f.dow, Weekday(u)) || Has(f.dom, Day(u))
    ensures Has(f.month, Month(u)) && Has(f.hour, Hour(u)) && Has(f.min, Minute(u)) && Has(f.sec, Second(u))
  {
    hide MonthIndex, Day, Weekday, Hour, Minute, Second, Has;
  }

  lemma QuietIffNoneAsked(f: Fields, a: int, b: int)
    ensures Quiet(f, a, b) <==> forall s :: a <= s < b ==> !Asked(f, s)
  {
    hide Asked, Matches;
    forall s ensures Asked(f, s) <==> Matches(f, s) { AskedIffMatches(f, s); }
  }

  /** `CronExpr.Next` gives the first instant after t0 whose fields are selected, unless it lies
  beyond the year after that of the second after t0. */
  lemma NextIsFirstAsked(f: Fields, t0: int, r: Option<int>)
    requires FirstMatch(f, t0 + 1, Horizon(t0), r)
    ensures r.Some? ==>
              var u := r.value;
              && t0 < u && Year(u) <= Year(t0 + 1) + 1 && (forall s :: t0 < s < u ==> !Asked(f, s))
              && Has(f.month, Month(u)) && Has(f.hour, Hour(u)) && Has(f.min, Minute(u)) && Has(f.sec, Second(u))
              && (f.dom == EVERY_DAY ==> Has(f.dow, Weekday(u)))
              && (f.dom != EVERY_DAY && f.dow == EVERY_WEEKDAY ==> Has(f.dom, Day(u)))
              && (f.dom != EVERY_DAY && f.dow != EVERY_WEEKDAY ==> Has(f.dow, Weekday(u)) || Has(f.dom, Day(u)))
    ensures r.None? ==> forall s :: t0 < s && Year(s) <= Year(t0 + 1) + 1 ==> !Asked(f, s)
  {
    hide MonthIndex, MonthBegin, Month, Day, Weekday, Hour, Minute, Second, Has, Asked, Matches, Quiet, Year;
    if r.Some? {
      FieldsAreSelected(f, r.value);
      QuietIffNoneAsked(f, t0 + 1, r.value);
      YearSpan(r.value, Year(t0 + 1) + 1);
    } else {
      QuietIffNoneAsked(f, t0 + 1, Horizon(t0));
      forall s | t0 < s && Year(s) <= Year(t0 + 1) + 1 ensures !Asked(f, s) { YearSpan(s, Year(t0 + 1) + 1); }
    }
  }

  /** What the custom `Next` gives lies in the year asked for and has the selected fields. */
  lemma CustomNextIsFirstAsked(e: CustomCronExpr, t: int, u: int)
    requires IsNext(e, t, Some(u))
    ensures var f := e.fields;
            && t < u && (e.year == 2147483647 || Year(u) == e.year)
            && (forall s :: t < s < u && (e.year == 2147483647 || Year(s) == e.year) ==> !Asked(f, s))
            && Has(f.month, Month(u)) && Has(f.hour, Hour(u)) && Has(f.min, Minute(u)) && Has(f.sec, Second(u))
            && (f.dom == EVERY_DAY ==> Has(f.dow, Weekday(u)))
            && (f.dom != EVERY_DAY && f.dow == EVERY_WEEKDAY ==> Has(f.dom, Day(u)))
            && (f.dom != EVERY_DAY && f.dow != EVERY_WEEKDAY ==> Has(f.dow, Weekday(u)) || Has(f.dom, Day(u)))
  {
    hide MonthIndex, MonthBegin, Month, Day, Weekday, Hour, Minute, Second, Has, Asked, Matches, Quiet, Year;
    FieldsAreSelected(e.fields, u);
    QuietIffNoneAsked(e.fields, t + 1, u);
  }

  lemma PrevIsLastAsked(e: CustomCronExpr, t: int, u: int)
    requires IsPrev(e, t, Some(u))
    ensures var f := e.fields;
            && u < t && (e.year == 2147483647 || Year(u) == e.year)
            && (forall s :: u < s < t && (e.year == 2147483647 || Year(s) == e.year) ==> !Asked(f, s))
            && Has(f.month, Month(u)) && Has(f.hour, Hour(u)) && Has(f.min, Minute(u)) && Has(f.sec, Second(u))
            && (f.dom == EVERY_DAY ==> Has(f.dow, Weekday(u)))
            && (f.dom != EVERY_DAY && f.dow == EVERY_WEEKDAY ==> Has(f.dom, Day(u)))
            && (f.dom != EVERY_DAY && f.dow != EVERY_WEEKDAY ==> Has(f.dow, Weekday(u)) || Has(f.dom, Day(u)))
  {
    hide MonthIndex, MonthBegin, Month, Day, Weekday, Hour, Minute, Second, Has, Asked, Matches, Quiet, Year;
    FieldsAreSelected(e.fields, u);
    QuietIffNoneAsked(e.fields, u + 1, t);
  }

  // ----- Once a week

  /** One weekday and one time of day, whatever the day and the month. */
  function Weekly(weekday: int, hour: int, minute: int, second: int): Fields {
    Fields(Run(second, second), Run(minute, minute), Run(hour, hour), Run(1, 31), Run(1, 12), Run(weekday, weekday))
  }

  lemma WeeklyMatches(weekday: int, hour: int, minute: int, second: int, t: int)
    requires 0 <= weekday <= 6 && 0 <= hour <= 23 && 0 <= minute <= 59 && 0 <= second <= 59
    ensures Matches(Weekly(weekday, hour, minute, second), t) <==>
            Weekday(t) == weekday && t % 86400 == hour * 3600 + minute * 60 + second
  {
    ClockSplit(t);
    ClockNumbers(Hour(t), Minute(t), Second(t), hour, minute, second);
    hide MonthIndex, Day, Weekday, Hour, Minute, Second;
  }

  lemma ClockNumbers(h: int, m: int, s: int, hour: int, minute: int, second: int)
    requires 0 <= m < 60 && 0 <= s < 60 && 0 <= minute < 60 && 0 <= second < 60
    ensures h * 3600 + m * 60 + s == hour * 3600 + minute * 60 + second <==> h == hour && m == minute && s == second
  {
  }

  /** A week later is the first instant of the same weekday and time of day. */
  lemma WeekApart(t: int, s: int)
    ensures Weekday(t + 604800) == Weekday(t) && (t + 604800) % 86400 == t % 86400
    ensures t < s < t + 604800 ==> !(Weekday(s) == Weekday(t) && s % 86400 == t % 86400)
  {
    var d, x := t / 86400, t % 86400;
    assert t + 604800 == (d + 7) * 86400 + x;
    SplitDay(d + 7, x);
    SplitWeek(1, (d + 1) % 7);
    if t < s < t + 604800 && s % 86400 == x {
      var e := s / 86400;
      assert d < e < d + 7;
      DaysOfWeek(d, e);
    }
  }

  lemma DaysOfWeek(d: int, e: int)
    requires d < e < d + 7
    ensures (e + 1) % 7 != (d + 1) % 7
  {
  }

  lemma WeekBetween(weekday: int, hour: int, minute: int, second: int, t: int)
    requires 0 <= weekday <= 6 && 0 <= hour <= 23 && 0 <= minute <= 59 && 0 <= second <= 59
    requires Matches(Weekly(weekday, hour, minute, second), t)
    ensures var f := Weekly(weekday, hour, minute, second); Matches(f, t + 604800) && Quiet(f, t + 1, t + 604800)
  {
    hide Weekly, Matches, Weekday;
    var f := Weekly(weekday, hour, minute, second);
    WeeklyMatches(weekday, hour, minute, second, t);
    WeeklyMatches(weekday, hour, minute, second, t + 604800);
    WeekApart(t, t);
    forall s | t + 1 <= s < t + 604800 ensures !Matches(f, s) {
      WeeklyMatches(weekday, hour, minute, second, s);
      WeekApart(t, s);
    }
  }

  /** The results of the search for one weekday and one time of day follow each other at a
  distance of exactly a week. */
  lemma WeeklyResults(weekday: int, hour: int, minute: int, second: int, t: int, r: Option<int>)
    requires 0 <= weekday <= 6 && 0 <= hour <= 23 && 0 <= minute <= 59 && 0 <= second <= 59
    requires var f := Weekly(weekday, hour, minute, second); Matches(f, t) && FirstMatch(f, t + 1, Horizon(t), r)
    ensures r == Some(t + 604800)
  {
    WeekBetween(weekday, hour, minute, second, t);
    NextWeekIsNear(t);
    hide Weekly, Matches, Horizon, Quiet;
    var f := Weekly(weekday, hour, minute, second);
    if r.Some? {
      OneFirstMatch(f, t + 1, r.value, t + 604800);
    } else {
      NotQuiet(f, t + 1, Horizon(t), t + 604800);
    }
  }

  lemma OneFirstMatch(f: Fields, from: int, u: int, v: int)
    requires from <= u && Matches(f, u) && Quiet(f, from, u) && from <= v && Matches(f, v) && Quiet(f, from, v)
    ensures u == v
  {
    hide Matches;
  }

  lemma NotQuiet(f: Fields, from: int, limit: int, s: int)
    requires from <= s < limit && Matches(f, s)
    ensures !Quiet(f, from, limit)
  {
    hide Matches;
  }

  lemma NextWeekIsNear(t: int)
    ensures t + 604800 < Horizon(t)
  {
    hide MonthIndex, MonthBegin, Year;
    YearSpan(t + 1, Year(t + 1));
    YearHasWeeks(Year(t + 1) + 1);
  }

  lemma YearHasWeeks(y: int)
    ensures MonthBegin(12 * y) + 604800 < MonthBegin(12 * (y + 1))
  {
    hide MonthStart, LeapYear;
    YearLength(y);
  }

  /** So do those of the custom search with year `*`. */
  lemma CustomWeeklyResults(weekday: int, hour: int, minute: int, second: int, t: int, r: Option<int>)
    requires 0 <= weekday <= 6 && 0 <= hour <= 23 && 0 <= minute <= 59 && 0 <= second <= 59
    requires var e := CustomCronExpr(Weekly(weekday, hour, minute, second), ANY_YEAR);
             Fires(e, t) && IsNext(e, t, r)
    ensures r == Some(t + 604800)
  {
    WeekBetween(weekday, hour, minute, second, t);
    hide Weekly, Matches;
  }

  lemma AllMonthsOfWeekly(weekday: int, hour: int, minute: int, second: int)
    ensures EveryMonth(Weekly(weekday, hour, minute, second))
  {
  }

  /** And those of the search backward, a week earlier. */
  lemma WeeklyBack(weekday: int, hour: int, minute: int, second: int, t: int, r: Option<int>)
    requires 0 <= weekday <= 6 && 0 <= hour <= 23 && 0 <= minute <= 59 && 0 <= second <= 59
    requires var e := CustomCronExpr(Weekly(weekday, hour, minute, second), ANY_YEAR);
             Fires(e, t) && IsLastSeen(e, t, r)
    ensures r == Some(t - 604800)
  {
    AllMonthsOfWeekly(weekday, hour, minute, second);
    hide Weekly, Matches, IsLastSeen, EveryMonth, Weekday;
    EveryMonthGivesPrev(CustomCronExpr(Weekly(weekday, hour, minute, second), ANY_YEAR), t, r);
    WeeklyMatches(weekday, hour, minute, second, t);
    WeeklyMatches(weekday, hour, minute, second, t - 604800);
    WeekApart(t - 604800, t);
    WeekBetween(weekday, hour, minute, second, t - 604800);
  }

  /** Mondays at midnight: the Monday after 2024-01-01 is 2024-01-08. */
  lemma MondayAfterNewYear2024(r: Option<int>)
    requires FirstMatch(Weekly(1, 0, 0, 0), Date(12 * 2024, 1, 0, 0, 0) + 1, Horizon(Date(12 * 2024, 1, 0, 0, 0)), r)
    ensures r == Some(Date(12 * 2024, 8, 0, 0, 0))
  {
    hide FirstMatch, Horizon, Weekly, Matches;
    var t := Date(12 * 2024, 1, 0, 0, 0);
    NewYear2024();
    hide Date;
    WeeklyMatches(1, 0, 0, 0, t);
    WeeklyResults(1, 0, 0, 0, t, r);
  }

  lemma NewYear2024()
    ensures Date(12 * 2024, 1, 0, 0, 0) == 63_839_664_000 && Date(12 * 2024, 8, 0, 0, 0) == 63_839_664_000 + 604800
    ensures Weekday(63_839_664_000) == 1 && 63_839_664_000 % 86400 == 0
  {
    KnownYears();
    hide Date, DaysBeforeYear, LeapYear;
    SecondsOfDate(2024, 0, 1, 0, 0, 0);
    SecondsOfDate(2024, 0, 8, 0, 0, 0);
    assert 12 * 2024 + 0 == 12 * 2024;
  }

  // ----- Where the search gives up

  /** February 29 at midnight. */
  const LEAP_DAY := Fields(Run(0, 0), Run(0, 0), Run(0, 0), Run(29, 29), Run(2, 2), Run(0, 6))

  /** From the last second but one of 2022 the search sees no further than 2023 and gives up; a
  second later it sees 2024 and finds February 29. */
  lemma HorizonMovesAtYearEnd(r: Option<int>)
    requires var t := Date(12 * 2022 + 11, 31, 23, 59, 58); FirstMatch(LEAP_DAY, t + 1, Horizon(t), r)
    ensures r == None
  {
    hide Horizon, Date, MonthIndex, Day, Hour, Minute, Second, Weekday, Year, MonthLength, DaysBeforeYear, LeapYear;
    var t := Date(12 * 2022 + 11, 31, 23, 59, 58);
    LastSecondsOf2022();
    if r.Some? {
      var u := r.value;
      NextIsFirstAsked(LEAP_DAY, t, r);
      YearIsAfter(t + 1, u);
      FebruaryHas29(u);
    }
  }

  lemma LastSecondsOf2022()
    ensures var t := Date(12 * 2022 + 11, 31, 23, 59, 58); Year(t + 1) == 2022 && Year(t + 2) == 2023
  {
    hide Date, MonthIndex, Day, Hour, Minute, Second, MonthLength, DaysBeforeYear, LeapYear;
    MonthLengthAt(2022, 11);
    assert DaysIn(12, LeapYear(2022)) == 31;
    FieldsOfDate(12 * 2022 + 11, 31, 23, 59, 59);
    FieldsOfDate(12 * 2023, 1, 0, 0, 0);
    SameInstants();
  }

  lemma SameInstants()
    ensures Date(12 * 2022 + 11, 31, 23, 59, 58) + 1 == Date(12 * 2022 + 11, 31, 23, 59, 59)
    ensures Date(12 * 2022 + 11, 31, 23, 59, 58) + 2 == Date(12 * 2023, 1, 0, 0, 0)
  {
    hide MonthStart, MonthLength;
    MonthsAdjacent(12 * 2022 + 11);
    MonthLengthAt(2022, 11);
    assert 12 * 2022 + 11 + 1 == 12 * 2023;
  }

  lemma YearIsAfter(s: int, u: int)
    requires s <= u
    ensures Year(s) <= Year(u)
  {
    hide MonthIndex;
    MonthIndexOrdered(s, u);
  }

  /** A February 29 lies in a leap year. */
  lemma FebruaryHas29(u: int)
    requires Has(Run(29, 29), Day(u)) && Has(Run(2, 2), Month(u))
    ensures LeapYear(Year(u)) && Year(u) != 2022 && Year(u) != 2023
  {
    DayInMonth(u);
    hide Day, MonthIndex;
  }

  lemma HorizonReachesLeapDay(r: Option<int>)
    requires var t := Date(12 * 2022 + 11, 31, 23, 59, 59); FirstMatch(LEAP_DAY, t + 1, Horizon(t), r)
    ensures r == Some(Date(12 * 2024 + 1, 29, 0, 0, 0))
  {
    hide Horizon, MonthIndex, Day, Hour, Minute, Second, Weekday, Year, MonthLength, DaysBeforeYear, LeapYear;
    hide MonthStart, Date, Asked, FirstMatch;
    var t := Date(12 * 2022 + 11, 31, 23, 59, 59);
    var leap := Date(12 * 2024 + 1, 29, 0, 0, 0);
    LastSecondsOf2022();
    SameInstants();
    LeapDayIsAsked();
    NextIsFirstAsked(LEAP_DAY, t, r);
    assert t < leap by { LeapDayIsLater(); }
    var u := r.value;
    YearIsAfter(t + 1, u);
    FebruaryHas29(u);
    OnLeapDay(u);
  }

  lemma LeapDayIsAsked()
    ensures var u := Date(12 * 2024 + 1, 29, 0, 0, 0); Asked(LEAP_DAY, u) && Year(u) == 2024
  {
    hide Date, MonthIndex, Day, Hour, Minute, Second, Value, Has;
    KnownYears();
    MonthLengthAt(2024, 1);
    FieldsOfDate(12 * 2024 + 1, 29, 0, 0, 0);
    EveryWeekdayIsLiteral(LEAP_DAY.dow);
    EveryDayIsLiteral(LEAP_DAY.dom);
    LeapDayBits(Weekday(Date(12 * 2024 + 1, 29, 0, 0, 0)));
  }

  lemma LeapDayBits(w: int)
    requires 0 <= w < 7
    ensures var f := LEAP_DAY;
            && Has(f.month, 2) && Has(f.dom, 29) && Has(f.hour, 0) && Has(f.min, 0) && Has(f.sec, 0) && Has(f.dow, w)
            && f.dow == EVERY_WEEKDAY && f.dom != EVERY_DAY
  {
    assert LEAP_DAY.dom[1] != EVERY_DAY[1];
  }

  lemma LeapDayIsLater()
    ensures Date(12 * 2022 + 11, 31, 23, 59, 59) < Date(12 * 2024 + 1, 29, 0, 0, 0)
  {
    hide Date, DaysBeforeYear, LeapYear;
    SecondsOfDate(2022, 11, 31, 23, 59, 59);
    SecondsOfDate(2024, 1, 29, 0, 0, 0);
    KnownYears();
    assert DaysBeforeYear(2022) < DaysBeforeYear(2024) - 700 by { Year2022(); }
  }

  lemma Year2022()
    ensures DaysBeforeYear(2022) == 738155
  {
  }

  /** An instant of February 29 at midnight, of a year up to 2024. */
  lemma OnLeapDay(u: int)
    requires Has(Run(29, 29), Day(u)) && Has(Run(2, 2), Month(u)) && Year(u) == 2024
    requires Has(Run(0, 0), Hour(u)) && Has(Run(0, 0), Minute(u)) && Has(Run(0, 0), Second(u))
    ensures u == Date(12 * 2024 + 1, 29, 0, 0, 0)
  {
    DateOfFields(u);
    hide Day, MonthIndex, Hour, Minute, Second, Date;
  }
}
