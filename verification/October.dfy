/** An expression that the search backward does not answer as it should: all of October. */
module October {
  import opened Bits
  import opened Calendar
  import opened Schedule
  import opened BackwardMonths
  import opened BackwardPasses
  import opened BackwardEnds
  import opened BackwardFinds
  import opened CustomSchedule
  import opened Options

  /** `*,10,*,*,*,*` */
  const EVERY_OCTOBER: CustomCronExpr :=
    CustomCronExpr(Fields(Run(0, 59), Run(0, 59), Run(0, 23), Run(1, 31), Run(10, 10), EVERY_WEEKDAY), ANY_YEAR)

  lemma FiresInOctober(t: int)
    ensures Fires(EVERY_OCTOBER, t) <==> Month(t) == 10
  {
    hide MonthIndex, Hour, Minute, Second, Weekday, Day;
    ClockInRange(t);
    WeekdayInRange(t);
  }

  lemma OctoberMasks()
    ensures OnlyMonth(EVERY_OCTOBER.fields, 10) && MonthAlone(EVERY_OCTOBER.fields) && MasksEnd(EVERY_OCTOBER.fields)
  {
    OctoberEnds(EVERY_OCTOBER.fields);
    hide Matches, Month;
    forall s | MonthOk(EVERY_OCTOBER.fields, s) ensures Matches(EVERY_OCTOBER.fields, s) { FiresInOctober(s); }
  }

  lemma OctoberEnds(f: Fields)
    requires f == EVERY_OCTOBER.fields
    ensures MasksEnd(f)
  {
    assert Has(f.hour, 0) && Has(f.min, 0) && Has(f.sec, 0) && Has(f.dow, 0) && Has(f.month, 10);
    hide Has;
    assert EnteredInTime(f, 10);
  }

  /** From anywhere in January the search returns the end of October 30, and not of October 31. */
  lemma JanuaryGivesOctober30(y: int, t0: int)
    requires MonthIndex(t0 - 1) == 12 * (y + 1)
    ensures var r := Some(Date(12 * y + 9, 30, 23, 59, 59));
            Returns(EVERY_OCTOBER, t0, r) && !IsPrev(EVERY_OCTOBER, t0, r)
  {
    OctoberMasks();
    hide OnlyMonth, MonthAlone, MonthIndex, IsLastSeen, IsPrev, Date, MasksEnd, SeesMatch, Returns;
    MasksEndSeesMatch(EVERY_OCTOBER, t0);
    var r := ReturnsIfSeen(EVERY_OCTOBER, t0);
    JanuaryMissesOctober(EVERY_OCTOBER, y, t0, r);
  }

  /** From the last second of October the search forward goes to the next October, and the search
  backward from there to the end of October 1: it starts in September, which is a day shorter
  than August. */
  lemma OctoberIsNotUndone(y: int)
    ensures var e, t, r := EVERY_OCTOBER, Date(12 * y + 9, 31, 23, 59, 59), Date(12 * y + 21, 1, 0, 0, 0);
            && Fires(e, t) && IsNext(e, t, Some(r))
            && Returns(e, r, Some(Date(12 * y + 9, 1, 23, 59, 59)))
  {
    OctoberMasks();
    hide OnlyMonth, MonthAlone, MasksEnd, SeesMatch, Returns, MonthIndex, Matches, Date, MonthLength, Day;
    hide MonthBegin, Month, Seen;
    var e := EVERY_OCTOBER;
    var t, r, first := Date(12 * y + 9, 31, 23, 59, 59), Date(12 * y + 21, 1, 0, 0, 0), Date(12 * y + 9, 1, 23, 59, 59);
    OctoberDates(y);
    FiresInOctober(t);
    FiresInOctober(r);
    forall s | t < s < r ensures !Matches(e.fields, s) {
      FiresInOctober(s);
      BetweenOctobers(y, s);
    }
    MasksEndSeesMatch(e, r);
    var p := ReturnsIfSeen(e, r);
    FromSeptember(y, p.value);
  }

  /** The first and last instants of October in the years y and y + 1. */
  lemma OctoberDates(y: int)
    ensures var j, k := 12 * y + 9, 12 * y + 21;
            var t, r, first := Date(j, 31, 23, 59, 59), Date(k, 1, 0, 0, 0), Date(j, 1, 23, 59, 59);
            && t + 1 == MonthBegin(j + 1) && r == MonthBegin(k) && first < t < r && first == EndOf(j, 1)
            && MonthIndex(t) == j && MonthIndex(r) == k && MonthIndex(r - 1) == k - 1 && MonthIndex(first) == j
            && Month(t) == 10 && Month(r) == 10 && Month(first) == 10 && Day(first) == 1
  {
    var j, k := 12 * y + 9, 12 * y + 21;
    EndOfIsDate(j, 31);
    EndOfIsDate(j, 1);
    OctoberNumbers(y);
    OctoberNumbers(y + 1);
    hide Date, MonthLength, MonthIndex, Day, MonthBegin, EndOf;
    MonthBeginIsDate(k);
    LastSecond(j, 31);
    EndOfFields(j, 31);
    EndOfFields(j, 1);
    MonthStarts(k);
    EndOfDays(j, 1, EndOf(j, 31));
    EndOfDays(j, 31, EndOf(j, 1));
    EarlierMonth(MonthBegin(k), EndOf(j, 31));
  }

  lemma OctoberNumbers(y: int)
    ensures (12 * y + 9) % 12 + 1 == 10 && MonthLength(12 * y + 9) == 31
  {
    hide MonthLength, DaysIn;
    LengthOfMonth(y, 10);
    AutumnMonths();
  }

  lemma MonthStarts(k: int)
    ensures MonthIndex(MonthBegin(k)) == k && MonthIndex(MonthBegin(k) - 1) == k - 1
  {
    MonthBeginIsAligned(k);
    hide MonthIndex, MonthBegin, MonthLength, EndOf;
    LastSecond(k - 1, MonthLength(k - 1));
    EndOfFields(k - 1, MonthLength(k - 1));
  }

  lemma BetweenOctobers(y: int, s: int)
    requires Date(12 * y + 9, 31, 23, 59, 59) < s < Date(12 * y + 21, 1, 0, 0, 0)
    ensures Month(s) != 10
  {
    hide Date, MonthIndex, MonthBegin, Day;
    OctoberDates(y);
    EarlierMonth(Date(12 * y + 9, 31, 23, 59, 59), s);
    MonthSpan(s, 12 * y + 9);
    EarlierMonth(s, Date(12 * y + 21, 1, 0, 0, 0) - 1);
    NotOctober(y, MonthIndex(s));
  }

  lemma NotOctober(y: int, k: int)
    requires 12 * y + 9 < k < 12 * y + 21
    ensures k % 12 + 1 != 10
  {
    if k < 12 * (y + 1) { MonthNumber(y, k - 12 * y); } else { MonthNumber(y + 1, k - 12 * (y + 1)); }
  }

  lemma FromSeptember(y: int, u: int)
    requires var r := Date(12 * y + 21, 1, 0, 0, 0);
             Seen(EVERY_OCTOBER.fields, r, u) && Fires(EVERY_OCTOBER, u) && NoneSeen(EVERY_OCTOBER.fields, r, u)
    ensures u == Date(12 * y + 9, 1, 23, 59, 59)
  {
    hide Date, MonthIndex, MonthBegin, Day, Matches, EndOf, Entry;
    var f, j, k := EVERY_OCTOBER.fields, 12 * y + 9, 12 * y + 20;
    var r, first := Date(12 * y + 21, 1, 0, 0, 0), Date(j, 1, 23, 59, 59);
    OctoberDates(y);
    SeptemberEntry(y);
    FiresInOctober(u);
    FiresInOctober(first);
    assert Seen(f, r, first);
    var m := MonthIndex(u);
    if j < m { NotOctober(y, m); }
    EarlierMonth(first, u);
    if first < u { EndOfDays(j, 1, u); }
  }

  lemma SeptemberEntry(y: int)
    ensures Entry(EVERY_OCTOBER.fields, 12 * y + 20, 12 * y + 9) == 1
  {
    var f, j, k := EVERY_OCTOBER.fields, 12 * y + 9, 12 * y + 20;
    OctoberMasks();
    hide Entry, Has, DaysIn, MonthAlone;
    assert DaysIn(8, true) == 31 && DaysIn(9, true) == 30 by { SummerMonths(); }
    LengthOfMonth(y + 1, 8);
    LengthOfMonth(y + 1, 9);
    FirstDayOfShorter(k);
    forall i | j < i <= k ensures !Selected(f, i) { NotOctober(y, i); }
    EntryAtMostFirst(f, k, j);
  }

  lemma SummerMonths()
    ensures DaysIn(8, true) == 31 && DaysIn(9, true) == 30
  {
  }
}
