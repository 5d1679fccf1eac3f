/** What the masks alone say about the search backward: when it ends from every start, and when
it finds the greatest match. */
module BackwardEnds {
  import opened Bits
  import opened Calendar
  import opened Schedule
  import opened Firing
  import opened BackwardMonths
  import opened BackwardPasses
  import opened CustomSchedule
  import opened Options

  // ----- The greatest match is found

  /** The search that starts in month k enters the selected month j at its end: no month from j
  up to the next selected one is shorter than j, and if there is none up to k then k is no
  shorter than the month before it. */
  ghost predicate Whole(f: Fields, k: int, j: int) {
    && (forall i :: j <= i < k && NoneSelected(f, j, i) ==> MonthLength(j) <= MonthLength(i))
    && (NoneSelected(f, j, k) ==> MonthLength(k - 1) <= MonthLength(k))
  }

  /** No month after j up to i is selected. */
  ghost predicate NoneSelected(f: Fields, j: int, i: int) {
    forall x :: j < x <= i ==> !Selected(f, x)
  }

  lemma {:induction false} EntryAtLeastIff(f: Fields, k: int, j: int, day: int)
    requires j < k && 28 <= day
    ensures day <= Entry(f, k, j) <==>
            && (forall i :: j <= i < k && NoneSelected(f, j, i) ==> day <= MonthLength(i))
            && (NoneSelected(f, j, k) ==> MonthLength(k - 1) <= MonthLength(k))
    decreases k - j
  {
    hide MonthLength, Selected;
    var m := j + 1;
    if Selected(f, m) {
      forall i | j <= i < k && NoneSelected(f, j, i) ensures i == j { }
    } else if m == k {
      FirstEntry(k, day);
    } else {
      EntryAtLeastIff(f, k, m, day);
      forall i | m <= i <= k ensures NoneSelected(f, j, i) <==> NoneSelected(f, m, i) { }
      forall i | j <= i < k && NoneSelected(f, j, i) ensures i == j || (m <= i && NoneSelected(f, m, i)) { }
    }
  }

  lemma FirstEntry(k: int, day: int)
    requires 28 <= day
    ensures day <= Least(FirstDay(k), MonthLength(k - 1)) <==>
            day <= MonthLength(k - 1) && MonthLength(k - 1) <= MonthLength(k)
  {
    hide MonthLength;
  }

  lemma EntryWholeIff(f: Fields, k: int, j: int)
    requires j < k
    ensures Entry(f, k, j) == MonthLength(j) <==> Whole(f, k, j)
  {
    hide MonthLength, NoneSelected, Entry;
    EntryAtLeastIff(f, k, j, MonthLength(j));
  }

  /** Where months j + 1 to k are not selected, the entry is the day number that the month loop
  carries from its first round in month k. */
  lemma {:induction false} EntryFromStart(f: Fields, k: int, j: int)
    requires j < k && NoneSelected(f, j, k)
    ensures Entry(f, k, j) == DayAt(k, FirstDay(k), j)
    ensures Whole(f, k, j) <==> MonthLength(k - 1) <= MonthLength(k) && NoneShorter(j, k)
    decreases k - j
  {
    hide MonthLength, Selected;
    if j + 1 < k { EntryFromStart(f, k, j + 1); }
  }

  /** Otherwise it is the one that the loop carries from the end of the month before the next
  selected one, w. */
  lemma {:induction false} EntryFromSelected(f: Fields, k: int, j: int, w: int)
    requires j < w <= k && Selected(f, w) && NoneSelected(f, j, w - 1)
    ensures Entry(f, k, j) == DayAt(w - 1, MonthLength(w - 1), j)
    ensures Whole(f, k, j) <==> NoneShorter(j, w)
    decreases w - j
  {
    hide MonthLength, Selected;
    if j + 1 < w { EntryFromSelected(f, k, j + 1, w); }
    forall i | w <= i ensures !NoneSelected(f, j, i) { }
  }

  /** The runs of the month loop land at the entry of the nearest selected month. */
  lemma LandsOnEntry(f: Fields, t: int) returns (n: nat)
    requires Selects(f.month, 1, 12) && !MonthOk(f, t)
    ensures var k := MonthIndex(t); var j := NearestBefore(f, k);
            j < k && Runs(f, t, false, n) == EndOf(j, Entry(f, k, j))
  {
    hide MonthIndex, MonthLength, Selected, NearestBefore, Runs, EndOf, DayAt, Entry, FirstDay;
    var k := MonthIndex(t);
    n := LandsFresh(f, t);
    NearestBeforeIsNearest(f, k);
    assert !Selected(f, k) by { NotSelected(f, t); }
    EntryFromStart(f, k, NearestBefore(f, k));
  }

  lemma NotSelected(f: Fields, t: int)
    requires !MonthOk(f, t)
    ensures !Selected(f, MonthIndex(t))
  {
    hide MonthIndex;
  }

  /** If the search enters every selected month at its end, its result is the greatest firing
  instant before t0. */
  lemma WholeMonthsGivePrev(e: CustomCronExpr, t0: int, r: Option<int>)
    requires IsLastSeen(e, t0, r)
    requires forall j :: j < MonthIndex(t0 - 1) && Selected(e.fields, j) ==> Whole(e.fields, MonthIndex(t0 - 1), j)
    ensures IsPrev(e, t0, r)
  {
    hide MonthIndex, MonthLength, Matches, Entry, Whole, Day, MonthBegin, Year, Selected;
    var f, k := e.fields, MonthIndex(t0 - 1);
    forall s | s < t0 && Matches(f, s) ensures Seen(f, t0, s) {
      EarlierMonth(s, t0 - 1);
      if !Selected(f, MonthIndex(s)) { NoMatchOutside(f, s); }
      if MonthIndex(s) < k {
        EntryWholeIff(f, k, MonthIndex(s));
        DayInMonth(s);
      }
    }
    hide Seen;
    if r.Some? { SeenIsBefore(f, t0, r.value); }
  }

  /** Every month is selected, as the field `*` does. */
  predicate EveryMonth(f: Fields) {
    forall m :: 1 <= m <= 12 ==> Has(f.month, m)
  }

  lemma EveryMonthIsWhole(f: Fields, k: int, j: int)
    requires EveryMonth(f) && j < k
    ensures Whole(f, k, j)
  {
    hide MonthLength, Has;
    assert forall x :: Selected(f, x);
    assert Selected(f, j + 1);
    forall i | j <= i < k && NoneSelected(f, j, i) ensures i == j { }
  }

  /** With month `*` the result of `Prev` is always the greatest firing instant before t0. */
  lemma EveryMonthGivesPrev(e: CustomCronExpr, t0: int, r: Option<int>)
    requires EveryMonth(e.fields) && IsLastSeen(e, t0, r)
    ensures IsPrev(e, t0, r)
  {
    hide Whole, IsLastSeen, IsPrev, MonthIndex, EveryMonth, Selected;
    var k := MonthIndex(t0 - 1);
    forall j | j < k ensures Whole(e.fields, k, j) { EveryMonthIsWhole(e.fields, k, j); }
    WholeMonthsGivePrev(e, t0, r);
  }

  // ----- The search ends from every start

  function NextNumber(a: int): (b: int)
    ensures 1 <= b <= 12
  {
    a % 12 + 1
  }

  /** The greatest day number with which the search ever enters month number a: the least length,
  in a leap year, among a and the n months after it up to the next selected one. */
  function Longest(f: Fields, a: int, n: nat): (day: int)
    ensures 29 <= day <= DaysIn(a, true)
    decreases n
  {
    if n == 0 || Has(f.month, NextNumber(a)) then DaysIn(a, true)
    else Least(DaysIn(a, true), Longest(f, NextNumber(a), n - 1))
  }

  /** Some month has a day that the day rule can accept, and that is not passed over for ever. */
  ghost predicate MasksEnd(f: Fields) {
    && ClockPossible(f)
    && exists a :: 1 <= a <= 12 && Has(f.month, a) && EnteredInTime(f, a)
  }

  ghost predicate EnteredInTime(f: Fields, a: int) {
    || (WeekdayDecides(f) && Selects(f.dow, 0, 6))
    || (DayDecides(f) && Selects(f.dom, 1, Longest(f, a, 11)))
  }

  lemma NumberOfNext(j: int)
    ensures NextNumber(j % 12 + 1) == (j + 1) % 12 + 1
  {
    var q, r := j / 12, j % 12;
    MonthNumber(q, r);
    if r < 11 { MonthNumber(q, r + 1); } else { MonthNumber(q + 1, 0); }
  }

  lemma LengthAtMost(j: int)
    ensures MonthLength(j) <= DaysIn(j % 12 + 1, true)
  {
    hide LeapYear, DaysIn;
    OnlyFebruaryLeaps(j % 12 + 1, LeapYear(j / 12));
  }

  /** From a selected month on, no entry is later than Longest. */
  lemma {:induction false} EntryAtMost(f: Fields, k: int, j: int, n: nat)
    requires j < k && Selected(f, k)
    ensures Entry(f, k, j) <= Longest(f, j % 12 + 1, n)
    decreases n
  {
    hide MonthLength, DaysIn, Has, NextNumber, FirstDay;
    LengthAtMost(j);
    NumberOfNext(j);
    if n > 0 && !Selected(f, j + 1) { EntryAtMost(f, k, j + 1, n - 1); }
  }

  /** When a February on the way lies in a leap year, the entry is as late as Longest. */
  lemma {:induction false} EntryAtLeast(f: Fields, k: int, j: int, n: nat, w: int)
    requires j < w <= j + n + 1 <= k && Selected(f, w)
    requires forall i :: j <= i <= j + n ==> MonthLength(i) == DaysIn(i % 12 + 1, true)
    ensures Longest(f, j % 12 + 1, n) <= Entry(f, k, j)
    decreases n
  {
    hide MonthLength, DaysIn, Has, NextNumber, FirstDay;
    NumberOfNext(j);
    if n > 0 && !Selected(f, j + 1) { EntryAtLeast(f, k, j + 1, n - 1, w); }
  }

  /** Twelve months, the first with number a, whose February lies in the leap year l. */
  lemma LeapWindow(a: int, l: int) returns (j: int)
    requires 1 <= a <= 12 && LeapYear(l)
    ensures j % 12 + 1 == a && 12 * l - 12 <= j <= 12 * l + 1
    ensures forall i :: j <= i <= j + 11 ==> MonthLength(i) == DaysIn(i % 12 + 1, true)
  {
    hide LeapYear, DaysIn, MonthLength;
    var y := if a <= 2 then l else l - 1;
    j := 12 * y + a - 1;
    MonthNumber(y, a - 1);
    forall i | j <= i <= j + 11 ensures MonthLength(i) == DaysIn(i % 12 + 1, true) {
      var q, r := i / 12, i % 12;
      MonthNumber(q, r);
      MonthLengthAt(q, r);
      OnlyFebruaryLeaps(r + 1, LeapYear(q));
      assert i == 12 * q + r;
    }
  }

  /** Before every start there is a month that the search enters as late as ever. */
  lemma LateEntry(f: Fields, a: int, k: int) returns (j: int)
    requires 1 <= a <= 12 && Has(f.month, a)
    ensures j < k && j % 12 + 1 == a && MonthLength(j) == DaysIn(a, true) && Longest(f, a, 11) <= Entry(f, k, j)
  {
    hide MonthLength, DaysIn, Has, LeapYear, Entry, Longest;
    var y := k / 12;
    var l := LeapYearAhead(y - 10);
    j := LeapWindow(a, l);
    assert 12 * y <= k;
    NextYearSameNumber(j);
    EntryAtLeast(f, k, j, 11, j + 12);
  }

  lemma NextYearSameNumber(j: int)
    ensures (j + 12) % 12 == j % 12
  {
    MonthNumber(j / 12, j % 12);
    MonthNumber(j / 12 + 1, j % 12);
  }

  /** A selected day of month j that is not passed over. */
  lemma DayInTime(f: Fields, j: int, latest: int) returns (d: int)
    requires Has(f.month, j % 12 + 1) && 28 <= latest <= MonthLength(j)
    requires (WeekdayDecides(f) && Selects(f.dow, 0, 6)) || (DayDecides(f) && Selects(f.dom, 1, latest))
    ensures DaySelected(f, d) && MonthIndex(d * 86400) == j && Day(d * 86400) <= latest
  {
    hide MonthIndex, MonthLength, DaysIn, Has, Day, DaySelected, WeekdayDecides, DayDecides, MonthBegin;
    if WeekdayDecides(f) && Selects(f.dow, 0, 6) {
      var w :| 0 <= w <= 6 && Has(f.dow, w);
      d := WeekdayInMonth(f, j, w);
    } else {
      var day :| 1 <= day <= latest && Has(f.dom, day);
      d := DayNumberInMonth(f, j, day);
    }
  }

  lemma MasksEndSeesMatch(e: CustomCronExpr, t0: int)
    requires MasksEnd(e.fields)
    ensures SeesMatch(e, t0)
  {
    hide MonthIndex, MonthLength, DaysIn, Has, Day, Entry, Longest, ClockPossible, DaySelected, Matches;
    hide WeekdayDecides, DayDecides, MonthBegin, Selects;
    var f, k := e.fields, MonthIndex(t0 - 1);
    var a :| 1 <= a <= 12 && Has(f.month, a) && EnteredInTime(f, a);
    var j := LateEntry(f, a, k);
    var d := DayInTime(f, j, Longest(f, a, 11));
    var s := SelectedDayFires(f, d);
    SameDay(s, d);
    EarlierMonth(s, t0 - 1);
    assert Seen(f, t0, s);
  }

  lemma SameDay(s: int, d: int)
    requires d * 86400 <= s < (d + 1) * 86400
    ensures MonthIndex(s) == MonthIndex(d * 86400) && Day(s) == Day(d * 86400)
  {
    SplitDay(d, s - d * 86400);
    SplitDay(d, 0);
    SameDaySameFields(s, d * 86400);
  }

  /** What a match says about the masks, if its day is not too late in its month. */
  lemma MatchGivesMasks(f: Fields, s: int)
    requires Matches(f, s) && Day(s) <= Longest(f, Month(s), 11)
    ensures MasksEnd(f)
  {
    hide MonthIndex, MonthLength, DaysIn, Has, Day, Longest, Hour, Minute, Second, Weekday, Month;
    DayInMonth(s);
    ClockInRange(s);
    assert EnteredInTime(f, Month(s));
  }

  lemma NoMatchSeen(e: CustomCronExpr, k: int)
    requires !MasksEnd(e.fields) && (Selected(e.fields, k) || !Selects(e.fields.month, 1, 12))
    requires e.year == ANY_YEAR
    ensures !SeesMatch(e, MonthBegin(k) + 1)
  {
    var f, t0 := e.fields, MonthBegin(k) + 1;
    MonthBeginIsAligned(k);
    hide MonthIndex, MonthLength, DaysIn, Has, Day, Longest, Entry, Matches, MasksEnd, MonthBegin;
    forall s | Seen(f, t0, s) ensures !Matches(f, s) {
      if Matches(f, s) {
        MatchSelects(f, s);
        if MonthIndex(s) < k {
          EntryAtMost(f, k, MonthIndex(s), 11);
        } else {
          MonthSpan(s, k);
        }
        MatchGivesMasks(f, s);
      }
    }
  }

  lemma MatchSelects(f: Fields, s: int)
    requires Matches(f, s)
    ensures Selects(f.month, 1, 12)
  {
    hide MonthIndex, Has;
  }

  /** With year `*` the search ends from every start exactly when the masks say so. */
  lemma EndsFromAnywhereIff(e: CustomCronExpr)
    requires e.year == ANY_YEAR
    ensures (forall t0 :: Ends(e, t0)) <==> MasksEnd(e.fields)
  {
    hide MasksEnd, SeesMatch, Ends, Has;
    if MasksEnd(e.fields) {
      forall t0 ensures Ends(e, t0) {
        MasksEndSeesMatch(e, t0);
        EndsIff(e, t0);
      }
    } else {
      var k := SomeSelected(e.fields);
      NoMatchSeen(e, k);
      EndsIff(e, MonthBegin(k) + 1);
    }
  }

  lemma SomeSelected(f: Fields) returns (k: int)
    ensures Selected(f, k) || !Selects(f.month, 1, 12)
  {
    k := 0;
    if Selects(f.month, 1, 12) {
      var a :| 1 <= a <= 12 && Has(f.month, a);
      MonthNumber(0, a - 1);
      k := a - 1;
    }
  }

  // ----- Instances

  /** With one selected month the search enters it on day 29 at the latest: February lies
  between two of its occurrences, or is the month itself. */
  lemma LongestOfOnly(f: Fields, number: int)
    requires OnlyMonth(f, number)
    ensures Longest(f, number, 11) == 29
  {
    hide Longest, Has, NumberAfter, NextNumber;
    NumberModulo(number, 0);
    OnlyFromPosition(f, number, 0);
  }

  /** The month number x months after `number`. */
  function NumberAfter(number: int, x: int): (n: int)
    ensures 1 <= n <= 12
  {
    (number - 1 + x) % 12 + 1
  }

  lemma NumberModulo(number: int, x: int)
    requires 1 <= number <= 12
    ensures NumberAfter(number, 0) == number
    ensures NextNumber(NumberAfter(number, x)) == NumberAfter(number, x + 1)
    ensures 1 <= x <= 11 ==> NumberAfter(number, x) != number
  {
    NumberOfNext(number - 1 + x);
  }

  lemma {:induction false} OnlyFromPosition(f: Fields, number: int, x: nat)
    requires OnlyMonth(f, number) && x <= (2 - number) % 12
    ensures Longest(f, NumberAfter(number, x), 11 - x) == 29
    decreases 12 - x
  {
    hide Has, NumberAfter, NextNumber, DaysIn;
    FebruaryAt(number, x);
    NumberModulo(number, x);
    LengthsOfNumbers();
    if x < (2 - number) % 12 {
      NumberModulo(number, x + 1);
      assert !Has(f.month, NumberAfter(number, x + 1));
      OnlyFromPosition(f, number, x + 1);
    }
  }

  lemma FebruaryAt(number: int, x: int)
    requires 1 <= number <= 12
    ensures x == (2 - number) % 12 ==> NumberAfter(number, x) == 2
  {
  }

  lemma LengthsOfNumbers()
    ensures DaysIn(2, true) == 29 && forall a :: 29 <= DaysIn(a, true)
  {
  }

  /** Every instant of a selected month matches. */
  ghost predicate MonthAlone(f: Fields) {
    forall s :: MonthOk(f, s) ==> Matches(f, s)
  }

  /** From a January, an expression for all of October returns October 30 and not October 31. */
  lemma JanuaryMissesOctober(e: CustomCronExpr, y: int, t0: int, r: Option<int>)
    requires e.year == ANY_YEAR && OnlyMonth(e.fields, 10) && MonthAlone(e.fields)
    requires MonthIndex(t0 - 1) == 12 * (y + 1) && IsLastSeen(e, t0, r)
    ensures r == Some(Date(12 * y + 9, 30, 23, 59, 59)) && !IsPrev(e, t0, r)
  {
    hide MonthIndex, MonthLength, Day, Has, Matches, DaysIn, EndOf;
    var f, k, j := e.fields, 12 * (y + 1), 12 * y + 9;
    OctoberEntry(f, y);
    AutumnMonths();
    LengthOfMonth(y, 10);
    EndOfFields(j, 30);
    EndOfFields(j, 31);
    EarlierMonth(EndOf(j, 30), t0 - 1);
    EarlierMonth(EndOf(j, 31), t0 - 1);
    assert Has(f.month, 10);
    assert Matches(f, EndOf(j, 30)) && Matches(f, EndOf(j, 31));
    EndOfDays(j, 30, EndOf(j, 31));
    var u := r.value;
    if u > EndOf(j, 30) {
      LaterIsOutside(f, y, t0, u);
    }
    EndOfIsDate(j, 30);
  }

  lemma OctoberEntry(f: Fields, y: int)
    requires OnlyMonth(f, 10)
    ensures Entry(f, 12 * (y + 1), 12 * y + 9) == 30
  {
    hide Has, DaysIn;
    var k := 12 * (y + 1);
    LengthOfMonth(y, 10);
    LengthOfMonth(y, 11);
    LengthOfMonth(y, 12);
    LengthOfMonth(y + 1, 1);
    AutumnMonths();
    hide MonthLength;
    assert Entry(f, k, k) == 31;
    assert Entry(f, k, k - 1) == 31;
    assert Entry(f, k, k - 2) == 30;
  }

  /** What is seen after October 30 lies in no October. */
  lemma LaterIsOutside(f: Fields, y: int, t0: int, u: int)
    requires OnlyMonth(f, 10) && MonthIndex(t0 - 1) == 12 * (y + 1) && Seen(f, t0, u) && EndOf(12 * y + 9, 30) < u
    ensures !Matches(f, u)
  {
    hide MonthIndex, MonthLength, Day, Has, Matches, DaysIn, EndOf, Entry;
    OctoberEntry(f, y);
    AutumnMonths();
    LengthOfMonth(y, 10);
    EndOfFields(12 * y + 9, 30);
    EarlierMonth(EndOf(12 * y + 9, 30), u);
    var m := MonthIndex(u);
    if m == 12 * y + 9 {
      EndOfDays(m, 30, u);
      assert false;
    }
    var number := m - 12 * y + 1;
    if number <= 12 { MonthNumber(y, number - 1); } else { MonthNumber(y + 1, 0); }
    NoMatchOutside(f, u);
  }

  /** March 31 at midnight, in every year: `*,3,31,0,0,0`. */
  const EVERY_MARCH_31: CustomCronExpr :=
    CustomCronExpr(Fields(Run(0, 0), Run(0, 0), Run(0, 0), Run(31, 31), Run(3, 3), EVERY_WEEKDAY), ANY_YEAR)

  lemma MatchesOnMarch31(t: int)
    ensures var f := EVERY_MARCH_31.fields;
            && OnlyMonth(f, 3)
            && (Matches(f, t) <==> Month(t) == 3 && Day(t) == 31 && Hour(t) == 0 && Minute(t) == 0 && Second(t) == 0)
  {
    hide MonthIndex, Month, Day, Hour, Minute, Second, Weekday;
    DayInMonth(t);
    ClockInRange(t);
    assert Run(31, 31)[1] != EVERY_DAY[1];
  }

  /** The search for March 31 ends only if it starts on a March 31: from any other day it enters
  every March on day 30 at the latest, and goes back for ever. */
  lemma March31EndsIff(t0: int)
    ensures Ends(EVERY_MARCH_31, t0) <==> Month(t0 - 1) == 3 && Day(t0 - 1) == 31
  {
    hide Ends, Matches, MonthIndex, Day, Hour, Minute, Second, Entry, MonthLength, Has;
    var f, k := EVERY_MARCH_31.fields, MonthIndex(t0 - 1);
    EndsIff(EVERY_MARCH_31, t0);
    if Month(t0 - 1) == 3 && Day(t0 - 1) == 31 {
      var s := TimeOfDay((t0 - 1) / 86400, 0, 0, 0);
      SameDaySameFields(s, t0 - 1);
      MidnightIsEarlier(s, t0 - 1);
      MatchesOnMarch31(s);
      assert Seen(f, t0, s);
    } else {
      forall s | Seen(f, t0, s) ensures !Matches(f, s) {
        MatchesOnMarch31(s);
        if Matches(f, s) {
          if MonthIndex(s) == k {
            LaterDay(s, t0 - 1);
          } else {
            MarchEntry(f, k, MonthIndex(s));
          }
        }
      }
    }
  }

  lemma MidnightIsEarlier(s: int, t: int)
    requires s / 86400 == t / 86400 && Hour(s) == 0 && Minute(s) == 0 && Second(s) == 0
    ensures s <= t
  {
    ClockSplit(s);
    ClockSplit(t);
  }

  lemma LaterDay(s: int, t: int)
    requires MonthIndex(s) == MonthIndex(t) && s <= t
    ensures Day(s) <= Day(t)
  {
    hide MonthOf, MonthStart;
  }

  /** A search enters a March from later months on day 30 at the latest. */
  lemma MarchEntry(f: Fields, k: int, j: int)
    requires OnlyMonth(f, 3) && j < k && j % 12 + 1 == 3
    ensures Entry(f, k, j) <= 30
  {
    hide MonthLength, Entry, Has;
    var y := j / 12;
    LengthOfMonth(y, 3);
    LengthOfMonth(y, 4);
    MarchAndApril();
    EntryAtLeastIff(f, k, j, 31);
    assert j == 12 * y + 2;
    assert !Selected(f, j + 1);
    assert NoneSelected(f, j, j + 1);
  }
}
