/** What a cron expression means: the six masks, the instants they select, and how an
instant moves past a unit of time that cannot match. */
module Schedule {
  import opened Bits
  import opened Calendar

  datatype Fields = Fields(sec: Mask, min: Mask, hour: Mask, dom: Mask, month: Mask, dow: Mask)

  /** 0xfffffffe: every day of the month. */
  const EVERY_DAY: Mask := Run(1, 31)

  /** 0x7f: every day of the week. */
  const EVERY_WEEKDAY: Mask := Run(0, 6)

  lemma EveryDayIsLiteral(m: Mask)
    ensures m == EVERY_DAY <==> Value(m) == 0xfffffffe
  {
    ValueOfRun(EVERY_DAY, 1, 31);
    Power2Of32();
    if Value(m) == 0xfffffffe { ValueInjective(m, EVERY_DAY); }
  }

  lemma EveryWeekdayIsLiteral(m: Mask)
    ensures m == EVERY_WEEKDAY <==> Value(m) == 0x7f
  {
    ValueOfRun(EVERY_WEEKDAY, 0, 6);
    if Value(m) == 0x7f { ValueInjective(m, EVERY_WEEKDAY); }
  }

  predicate MonthOk(f: Fields, t: int) { Has(f.month, Month(t)) }

  /** `matchDay`: a blank (full) field leaves the decision to the other one; otherwise either is enough. */
  predicate MatchDay(f: Fields, t: int) {
    if f.dom == EVERY_DAY then Has(f.dow, Weekday(t))
    else if f.dow == EVERY_WEEKDAY then Has(f.dom, Day(t))
    else Has(f.dow, Weekday(t)) || Has(f.dom, Day(t))
  }

  predicate HourOk(f: Fields, t: int) { Has(f.hour, Hour(t)) }

  predicate MinuteOk(f: Fields, t: int) { Has(f.min, Minute(t)) }

  predicate SecondOk(f: Fields, t: int) { Has(f.sec, Second(t)) }

  /** The instant is one at which the expression fires. */
  predicate Matches(f: Fields, t: int) {
    MonthOk(f, t) && MatchDay(f, t) && HourOk(f, t) && MinuteOk(f, t) && SecondOk(f, t)
  }

  /** Nothing fires from a up to, not including, b. */
  ghost predicate Quiet(f: Fields, a: int, b: int) {
    forall s :: a <= s < b ==> !Matches(f, s)
  }

  /** If a unit of t cannot match then t stands at the start of that unit, so that
  stepping over whole units skips nothing. */
  ghost predicate AtUnitStart(f: Fields, t: int) {
    && (!MonthOk(f, t) ==> t == MonthBegin(MonthIndex(t)))
    && (!MatchDay(f, t) ==> t % 86400 == 0)
    && (!HourOk(f, t) ==> t % 3600 == 0)
    && (!MinuteOk(f, t) ==> t % 60 == 0)
  }

  lemma MonthBeginIsAligned(k: int)
    ensures var t := MonthBegin(k);
            MonthIndex(t) == k && Day(t) == 1 && t % 86400 == 0 && t % 3600 == 0 && t % 60 == 0
  {
    Midnight(MonthStart(k));
    MonthsAdjacent(k);
    MonthUnique(MonthStart(k), k);
  }

  lemma MonthBeginIsDate(k: int)
    ensures Date(k, 1, 0, 0, 0) == MonthBegin(k)
    ensures AddMonths(MonthBegin(k), 1) == MonthBegin(k + 1)
  {
    MonthBeginIsAligned(k);
    Midnight(MonthStart(k));
  }

  lemma SkipMonth(f: Fields, t: int)
    requires !MonthOk(f, t)
    ensures var k := MonthIndex(t);
            && MonthBegin(k) <= t < MonthBegin(k + 1)
            && Quiet(f, MonthBegin(k), MonthBegin(k + 1))
            && AtUnitStart(f, MonthBegin(k + 1))
  {
    hide MonthStart, MonthLength, MonthOf, MatchDay;
    var k := MonthIndex(t);
    MonthSpan(t, k);
    forall s | MonthBegin(k) <= s < MonthBegin(k + 1) ensures !Matches(f, s) { MonthSpan(s, k); }
    MonthBeginIsAligned(k + 1);
  }

  lemma SameDaySameFields(s: int, t: int)
    requires s / 86400 == t / 86400
    ensures MonthIndex(s) == MonthIndex(t) && Day(s) == Day(t) && Weekday(s) == Weekday(t)
  {
  }

  lemma SameHourSameFields(s: int, t: int)
    requires s / 3600 == t / 3600
    ensures s / 86400 == t / 86400 && Hour(s) == Hour(t)
  {
    assert s / 3600 / 24 == s / 86400 && t / 3600 / 24 == t / 86400;
  }

  lemma SameMinuteSameFields(s: int, t: int)
    requires s / 60 == t / 60
    ensures s / 3600 == t / 3600 && Minute(s) == Minute(t)
  {
    assert s / 60 / 60 == s / 3600 && t / 60 / 60 == t / 3600;
  }

  lemma NextMidnight(t: int)
    ensures var n := Truncate(t, 86400) + 86400; n / 86400 == t / 86400 + 1 && n == n / 86400 * 86400
  {
    SplitDay(t / 86400 + 1, 0);
  }

  /** The hour after t opens a day if its number is 0, and lies in the day of t otherwise. */
  lemma NextHour(t: int)
    ensures var n := Truncate(t, 3600) + 3600;
            && n % 3600 == 0 && n % 60 == 0
            && if Hour(n) == 0 then n == Truncate(t, 86400) + 86400
               else n / 86400 == t / 86400 && Hour(n) == Hour(t) + 1
  {
    ClockSplit(t);
    var d, x := t / 86400, Hour(t);
    var h := 24 * d + x + 1;
    assert Truncate(t, 3600) + 3600 == h * 3600;
    SplitHour(h, 0);
    SplitMinute(60 * h, 0);
    if x < 23 {
      SplitTwentyFour(d, x + 1);
      SplitDay(d, (x + 1) * 3600);
    } else {
      SplitTwentyFour(d + 1, 0);
    }
  }

  lemma NextMinute(t: int)
    ensures var n := Truncate(t, 60) + 60;
            && n % 60 == 0
            && if Minute(n) == 0 then n == Truncate(t, 3600) + 3600
               else n / 3600 == t / 3600 && Minute(n) == Minute(t) + 1
  {
    ClockSplit(t);
    var h, x := t / 3600, Minute(t);
    var m := 60 * h + x + 1;
    assert Truncate(t, 60) + 60 == m * 60;
    SplitMinute(m, 0);
    if x < 59 {
      SplitSixty(h, x + 1);
      SplitHour(h, (x + 1) * 60);
    } else {
      SplitSixty(h + 1, 0);
    }
  }

  lemma NextSecond(t: int)
    ensures if Second(t + 1) == 0 then t + 1 == Truncate(t, 60) + 60 else (t + 1) / 60 == t / 60
  {
  }

  /** The day after t is either the first of a month or in the month of t. */
  lemma NextDay(t: int)
    ensures var n := Truncate(t, 86400) + 86400;
            && n % 86400 == 0 && n % 3600 == 0 && n % 60 == 0
            && (if Day(n) == 1 then n == MonthBegin(MonthIndex(n)) else MonthIndex(n) == MonthIndex(t))
  {
    var n := Truncate(t, 86400) + 86400;
    var k := MonthIndex(t);
    NextMidnight(t);
    Midnight(n / 86400);
    MonthSpan(t, k);
    if n < MonthBegin(k + 1) {
      MonthSpan(n, k);
    } else {
      assert n == MonthBegin(k + 1);
      MonthBeginIsAligned(k + 1);
    }
  }

  /** Reaching midnight from a day whose month is selected keeps the alignment. */
  lemma AlignedAtDay(f: Fields, t: int)
    requires MonthOk(f, t)
    ensures var n := Truncate(t, 86400) + 86400;
            AtUnitStart(f, n) && (Day(n) != 1 ==> MonthOk(f, n))
  {
    NextDay(t);
  }

  lemma AlignedAtHour(f: Fields, t: int)
    requires MonthOk(f, t) && MatchDay(f, t)
    ensures var n := Truncate(t, 3600) + 3600;
            AtUnitStart(f, n) && (Hour(n) != 0 ==> MonthOk(f, n) && MatchDay(f, n))
  {
    hide MonthStart, MonthLength, MonthOf;
    var n := Truncate(t, 3600) + 3600;
    NextHour(t);
    if Hour(n) == 0 {
      AlignedAtDay(f, t);
    } else {
      SameDaySameFields(n, t);
    }
  }

  lemma AlignedAtMinute(f: Fields, t: int)
    requires MonthOk(f, t) && MatchDay(f, t) && HourOk(f, t)
    ensures var n := Truncate(t, 60) + 60;
            AtUnitStart(f, n) && (Minute(n) != 0 ==> MonthOk(f, n) && MatchDay(f, n) && HourOk(f, n))
  {
    hide MonthStart, MonthLength, MonthOf;
    var n := Truncate(t, 60) + 60;
    NextMinute(t);
    if Minute(n) == 0 {
      AlignedAtHour(f, t);
    } else {
      SameHourSameFields(n, t);
      SameDaySameFields(n, t);
    }
  }

  lemma AlignedAtSecond(f: Fields, t: int)
    requires MonthOk(f, t) && MatchDay(f, t) && HourOk(f, t) && MinuteOk(f, t)
    ensures AtUnitStart(f, t + 1)
    ensures Second(t + 1) != 0 ==> MonthOk(f, t + 1) && MatchDay(f, t + 1) && HourOk(f, t + 1) && MinuteOk(f, t + 1)
  {
    hide MonthStart, MonthLength, MonthOf;
    NextSecond(t);
    if Second(t + 1) == 0 {
      AlignedAtMinute(f, t);
    } else {
      SameMinuteSameFields(t + 1, t);
      SameHourSameFields(t + 1, t);
      SameDaySameFields(t + 1, t);
    }
  }

  lemma QuietDay(f: Fields, t: int)
    requires !MatchDay(f, t)
    ensures Quiet(f, Truncate(t, 86400), Truncate(t, 86400) + 86400)
  {
    forall s | Truncate(t, 86400) <= s < Truncate(t, 86400) + 86400 ensures !Matches(f, s) {
      SplitDay(t / 86400, s - Truncate(t, 86400));
      SameDaySameFields(s, t);
    }
  }

  lemma QuietHour(f: Fields, t: int)
    requires !HourOk(f, t)
    ensures Quiet(f, Truncate(t, 3600), Truncate(t, 3600) + 3600)
  {
    forall s | Truncate(t, 3600) <= s < Truncate(t, 3600) + 3600 ensures !Matches(f, s) {
      SplitHour(t / 3600, s - Truncate(t, 3600));
      SameHourSameFields(s, t);
    }
  }

  lemma QuietMinute(f: Fields, t: int)
    requires !MinuteOk(f, t)
    ensures Quiet(f, Truncate(t, 60), Truncate(t, 60) + 60)
  {
    forall s | Truncate(t, 60) <= s < Truncate(t, 60) + 60 ensures !Matches(f, s) {
      SplitMinute(t / 60, s - Truncate(t, 60));
      SameMinuteSameFields(s, t);
    }
  }
}
