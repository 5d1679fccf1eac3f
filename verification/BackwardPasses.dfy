/** The whole search of `CustomCronExpr.Prev`: pass after pass from `retry` on.  With a
restricted month it sees only part of the instants before its start; it returns the last match
that it sees. */
module BackwardPasses {
  import opened Bits
  import opened Calendar
  import opened Schedule
  import opened BackwardSearch
  import opened BackwardMonths
  import opened BackwardClock
  import opened CustomSchedule
  import opened Options

  // ----- The passes

  datatype Progress = Again(t: int, initFlag: bool) | Returned(r: Option<int>)

  /** From `retry` to the next `goto retry` or to a return. */
  function Pass(e: CustomCronExpr, t: int, initFlag: bool): Progress {
    if Year(t) != e.year && e.year != ANY_YEAR then Returned(None)
    else
      var (u, retry) := MonthLoopBack(e.fields, t, initFlag);
      var flag := initFlag || !MonthOk(e.fields, t);
      if retry then Again(u, flag)
      else
        var w := ClockLoopsBack(e.fields, u, flag);
        if w.retry then Again(w.t, w.initFlag) else Returned(Some(w.t))
  }

  /** The state after n passes, or what was returned before. */
  function After(e: CustomCronExpr, t0: int, n: nat): Progress {
    if n == 0 then Again(t0 - 1, false)
    else
      match After(e, t0, n - 1)
      case Again(t, initFlag) => Pass(e, t, initFlag)
      case Returned(r) => Returned(r)
  }

  /** The search that starts before t0 comes to an end. */
  ghost predicate Ends(e: CustomCronExpr, t0: int) {
    exists n: nat :: After(e, t0, n).Returned?
  }

  // ----- What the search sees

  /** The day number with which a search that starts in month k enters month m.  In the first
  month itself it is what the first round of the month loop makes of it. */
  function Entry(f: Fields, k: int, m: int): (day: int)
    requires m <= k
    ensures 1 <= day <= MonthLength(m)
    decreases k - m
  {
    if m == k then FirstDay(k)
    else if Selected(f, m + 1) then MonthLength(m)
    else Least(Entry(f, k, m + 1), MonthLength(m))
  }

  /** Days after the one with which their month is entered are passed over. */
  predicate Seen(f: Fields, t0: int, s: int) {
    var k := MonthIndex(t0 - 1);
    s < t0 && MonthIndex(s) <= k && (MonthIndex(s) < k ==> Day(s) <= Entry(f, k, MonthIndex(s)))
  }

  ghost predicate NoneSeen(f: Fields, t0: int, t: int) {
    forall s :: t < s < t0 && Seen(f, t0, s) ==> !Matches(f, s)
  }

  /** What `Prev` returns: the greatest firing instant before t0 that the search sees; none with
  a fixed year that is not the one of the second before t0 or in which it sees none. */
  ghost predicate IsLastSeen(e: CustomCronExpr, t0: int, r: Option<int>) {
    match r
    case Some(u) => YearOk(e, t0 - 1) && Seen(e.fields, t0, u) && Fires(e, u) && NoneSeen(e.fields, t0, u)
    case None => e.year != ANY_YEAR
                 && (Year(t0 - 1) != e.year || NoneSeen(e.fields, t0, MonthBegin(12 * e.year) - 1))
  }

  // ----- The state between passes

  /** The last instant of month m that the search sees. */
  function Top(f: Fields, t0: int, m: int): int
    requires m <= MonthIndex(t0 - 1)
  {
    var k := MonthIndex(t0 - 1);
    if m == k then t0 - 1 else EndOf(m, Entry(f, k, m))
  }

  /** At the end of a day to which the month loop has come: the day of entry if the month is
  selected, and otherwise a day number that leads to the right entry of the month before. */
  predicate Arrived(f: Fields, t0: int, t: int) {
    var m, k := MonthIndex(t), MonthIndex(t0 - 1);
    && m <= k && t == EndOf(m, Day(t))
    && (if Selected(f, m) then m < k && Day(t) == Entry(f, k, m)
        else Least(Day(t), MonthLength(m - 1)) == Entry(f, k, m - 1))
  }

  ghost predicate Searched(f: Fields, t0: int, t: int, initFlag: bool) {
    && MonthIndex(t) <= MonthIndex(t0 - 1) && NoneSeen(f, t0, t)
    && (if !initFlag then t == t0 - 1
        else if MonthOk(f, t) then SearchingBack(f, Top(f, t0, MonthIndex(t)), t, true)
        else Arrived(f, t0, t))
  }

  lemma EndOfDays(k: int, day: int, s: int)
    requires MonthIndex(s) == k
    ensures s <= EndOf(k, day) <==> Day(s) <= day
  {
    hide MonthOf, MonthStart;
    ClockSplit(s);
  }

  lemma EndOfIsUnitEnd(f: Fields, k: int, day: int)
    requires MonthOk(f, EndOf(k, day))
    ensures AtUnitEnd(f, EndOf(k, day))
  {
    hide MonthOf, MonthStart, MonthOk, MatchDay, HourOk, MinuteOk;
    var d := MonthStart(k) + day - 1;
    SplitDay(d, 86399);
    SplitHour(24 * d + 23, 3599);
    SplitMinute(1440 * d + 1439, 59);
  }

  lemma NoMatchOutside(f: Fields, s: int)
    requires !Selected(f, MonthIndex(s))
    ensures !Matches(f, s)
  {
    hide MonthIndex;
  }

  /** From one instant to an earlier one nothing is seen if what lies between is either outside
  the selected months or later in its month than the day of entry. */
  lemma NoneSeenOn(f: Fields, t0: int, t: int, u: int)
    requires NoneSeen(f, t0, t)
    requires forall s :: u < s <= t && s < t0 && Seen(f, t0, s) ==> !Matches(f, s)
    ensures NoneSeen(f, t0, u)
  {
    hide Seen, Matches;
  }

  lemma EarlierMonth(s: int, t: int)
    ensures MonthIndex(s) < MonthIndex(t) ==> s < t
    ensures s <= t ==> MonthIndex(s) <= MonthIndex(t)
  {
    hide MonthIndex;
    if s <= t { MonthIndexOrdered(s, t); } else { MonthIndexOrdered(t, s); }
  }

  /** A move of the month loop, inside its month or to the day of entry of the month before,
  passes over nothing that the search sees. */
  lemma BackFromMonth(f: Fields, t0: int, t: int, u: int)
    requires NoneSeen(f, t0, t) && !Selected(f, MonthIndex(t)) && MonthIndex(t) <= MonthIndex(t0 - 1)
    requires MonthIndex(u) == MonthIndex(t)
             || (MonthIndex(u) == MonthIndex(t) - 1
                  && u == EndOf(MonthIndex(u), Entry(f, MonthIndex(t0 - 1), MonthIndex(u))))
    ensures NoneSeen(f, t0, u)
  {
    hide MonthIndex, Day, EndOf, Matches, Entry, Selected, MonthLength;
    forall s | u < s <= t && s < t0 && Seen(f, t0, s) ensures !Matches(f, s) {
      EarlierMonth(u, s);
      EarlierMonth(s, t);
      if MonthIndex(s) == MonthIndex(t) {
        NoMatchOutside(f, s);
      } else {
        EndOfDays(MonthIndex(s), Entry(f, MonthIndex(t0 - 1), MonthIndex(s)), s);
        assert false;
      }
    }
    NoneSeenOn(f, t0, t, u);
  }

  lemma RoundArrives(f: Fields, t0: int, t: int)
    requires Arrived(f, t0, t) && !MonthOk(f, t) && NoneSeen(f, t0, t)
    ensures var u := StepMonthBack(t, true);
            Arrived(f, t0, u) && NoneSeen(f, t0, u) && u < t && MonthIndex(t) - 1 <= MonthIndex(u) <= MonthIndex(t)
  {
    hide MonthStart, MonthOf, MonthLength, MonthIndex, Day, EndOf, StepMonthBack, Has, Matches, FirstDay, NoneSeen;
    var m, k, day := MonthIndex(t), MonthIndex(t0 - 1), Day(t);
    var u := StepMonthBack(t, true);
    DayInMonth(t);
    NextRound(m, day);
    var shorter := MonthLength(m - 1);
    if day <= shorter {
      EndOfFields(m - 1, day);
      assert Entry(f, k, m - 1) == day;
      EarlierMonth(u, t);
    } else {
      EndOfFields(m, shorter);
      EndOfDays(m, shorter, t);
    }
    BackFromMonth(f, t0, t, u);
  }

  lemma FirstRoundArrives(f: Fields, t0: int)
    requires !MonthOk(f, t0 - 1)
    ensures var t := t0 - 1; var u := StepMonthBack(t, false);
            && Arrived(f, t0, u) && NoneSeen(f, t0, u) && MonthIndex(t) - 1 <= MonthIndex(u) <= MonthIndex(t)
            && (MonthIndex(u) == MonthIndex(t) ==> Month(u) != 12)
  {
    hide MonthStart, MonthOf, MonthLength, MonthIndex, Day, EndOf, StepMonthBack, Has, Matches, NoneSeen;
    var t := t0 - 1;
    var u, k := StepMonthBack(t, false), MonthIndex(t);
    FirstRound(t);
    NothingYet(f, t0);
    var n := MonthLength(k - 1);
    DecemberIsLong(k);
    if n <= MonthLength(k) {
      EndOfFields(k - 1, n);
      assert Entry(f, k, k - 1) == n;
    } else {
      Excess(k, n);
      EndOfFields(k, n - MonthLength(k));
      assert Entry(f, k, k) == FirstDay(k) == n - MonthLength(k);
      assert Least(n - MonthLength(k), n) == Entry(f, k, k - 1);
    }
    assert Arrived(f, t0, u);
    assert MonthIndex(u) == k ==> Month(u) != 12;
    BackFromMonth(f, t0, t, u);
  }

  lemma DecemberIsLong(k: int)
    ensures k % 12 == 11 ==> MonthLength(k) == 31
  {
    hide LeapYear;
  }

  lemma NothingYet(f: Fields, t0: int)
    ensures NoneSeen(f, t0, t0 - 1)
  {
  }

  /** The rounds of the month loop after the first. */
  lemma {:induction false} LoopArrives(f: Fields, t0: int, t: int)
    requires Arrived(f, t0, t) && !MonthOk(f, t) && NoneSeen(f, t0, t)
    ensures var (u, retry) := MonthLoopBack(f, t, true);
            && Arrived(f, t0, u) && NoneSeen(f, t0, u) && u < t
            && (Month(t) != 12 ==> MonthIndex(u) < MonthIndex(t))
            && (!retry ==> MonthOk(f, u) && Year(u) == Year(t))
    decreases Rank(t, true)
  {
    hide MonthStart, MonthOf, MonthLength, MonthIndex, Day, StepMonthBack, Arrived, NoneSeen, Rank, Has;
    RoundArrives(f, t0, t);
    RankDecreases(t, true);
    MonthNumbers(MonthIndex(t));
    var u := StepMonthBack(t, true);
    if Month(u) != 12 && !MonthOk(f, u) {
      LoopArrives(f, t0, u);
      EarlierMonth(MonthLoopBack(f, u, true).0, u);
    }
  }

  /** A selected month at whose day of entry the loop stands is searched from there. */
  lemma ArrivedIsSearched(f: Fields, t0: int, t: int)
    requires Arrived(f, t0, t) && NoneSeen(f, t0, t)
    ensures Searched(f, t0, t, true)
  {
    hide MonthStart, MonthOf, MonthLength, MonthIndex, Day, NoneSeen, Has, Entry, EndOf;
    if MonthOk(f, t) {
      EndOfIsUnitEnd(f, MonthIndex(t), Day(t));
    }
  }

  /** A run of the month loop from the state between passes. */
  lemma MonthPart(f: Fields, t0: int, t: int, initFlag: bool)
    requires Searched(f, t0, t, initFlag) && !MonthOk(f, t)
    ensures var (u, retry) := MonthLoopBack(f, t, initFlag);
            && Searched(f, t0, u, true) && u < t
            && (!retry ==> MonthOk(f, u) && Year(u) == Year(t))
  {
    hide MonthStart, MonthOf, MonthLength, MonthIndex, Day, StepMonthBack, Arrived, NoneSeen, Rank, Has;
    if initFlag {
      LoopArrives(f, t0, t);
    } else {
      FirstRoundArrives(f, t0);
      MonthNumbers(MonthIndex(t));
      var u := StepMonthBack(t, false);
      if Month(u) != 12 && !MonthOk(f, u) {
        LoopArrives(f, t0, u);
      }
      EarlierMonth(MonthLoopBack(f, t, false).0, t);
    }
    hide Searched;
    ArrivedIsSearched(f, t0, MonthLoopBack(f, t, initFlag).0);
  }

  /** An instant before t that is no earlier than the second before the month of t. */
  lemma MonthEdge(t: int, u: int)
    requires u < t && MonthBegin(MonthIndex(t)) <= u + 1
    ensures MonthIndex(u) == MonthIndex(t) || u == EndOf(MonthIndex(t) - 1, MonthLength(MonthIndex(t) - 1))
  {
    hide MonthIndex, MonthBegin, EndOf, MonthLength;
    var m := MonthIndex(t);
    MonthSpan(t, m);
    MonthSpan(u, m);
    LastSecond(m - 1, MonthLength(m - 1));
  }

  /** At the end of the month before a selected one the month loop has arrived. */
  lemma EdgeArrives(f: Fields, t0: int, m: int)
    requires Selected(f, m) && m <= MonthIndex(t0 - 1)
    ensures Arrived(f, t0, EndOf(m - 1, MonthLength(m - 1)))
  {
    hide MonthStart, MonthOf, MonthLength, MonthIndex, Day, EndOf, Has, FirstDay;
    EndOfFields(m - 1, MonthLength(m - 1));
    var k := MonthIndex(t0 - 1);
    assert Entry(f, k, m - 1) == MonthLength(m - 1);
    assert Entry(f, k, m - 2) == if Selected(f, m - 1) then MonthLength(m - 2)
                                 else Least(Entry(f, k, m - 1), MonthLength(m - 2));
  }

  lemma TopIsEarlier(f: Fields, t0: int, u: int)
    requires MonthIndex(u) <= MonthIndex(t0 - 1) && u <= Top(f, t0, MonthIndex(u))
    ensures Seen(f, t0, u)
  {
    hide MonthIndex, Day, EndOf, Entry;
    EarlierMonth(u, t0 - 1);
    if MonthIndex(u) < MonthIndex(t0 - 1) {
      EndOfDays(MonthIndex(u), Entry(f, MonthIndex(t0 - 1), MonthIndex(u)), u);
    }
  }

  /** The other loops, from a selected month on. */
  lemma ClockPart(f: Fields, t0: int, t: int, initFlag: bool)
    requires Searched(f, t0, t, initFlag) && MonthOk(f, t)
    ensures var w := ClockLoopsBack(f, t, initFlag);
            if w.retry then w.initFlag && Searched(f, t0, w.t, true) && w.t < t
            else Seen(f, t0, w.t) && Matches(f, w.t) && NoneSeen(f, t0, w.t) && w.t <= t
                 && MonthIndex(w.t) == MonthIndex(t)
  {
    hide MonthStart, MonthOf, MonthLength, MonthIndex, Day, EndOf, Has, ClockLoopsBack, Matches, Seen, AtUnitEnd;
    hide Arrived, MonthBegin;
    var m := MonthIndex(t);
    var from := Top(f, t0, m);
    hide Top;
    TopOfFirst(f, t0);
    ClockLoopsKeep(f, from, t, initFlag);
    var w := ClockLoopsBack(f, t, initFlag);
    NoneSeenOn(f, t0, t, w.t);
    if w.retry {
      MonthEdge(t, w.t);
      if MonthIndex(w.t) != m {
        EdgeArrives(f, t0, m);
        ArrivedIsSearched(f, t0, w.t);
      }
    } else {
      TopIsEarlier(f, t0, w.t);
    }
  }

  lemma TopOfFirst(f: Fields, t0: int)
    ensures Top(f, t0, MonthIndex(t0 - 1)) == t0 - 1
  {
  }

  lemma PassKeeps(e: CustomCronExpr, t0: int, t: int, initFlag: bool)
    requires Searched(e.fields, t0, t, initFlag)
    ensures match Pass(e, t, initFlag)
            case Again(u, flag) => flag && Searched(e.fields, t0, u, true) && u < t && YearOk(e, t)
            case Returned(Some(u)) => YearOk(e, t) && Seen(e.fields, t0, u) && Fires(e, u) && NoneSeen(e.fields, t0, u)
            case Returned(None) => e.year != ANY_YEAR && Year(t) != e.year
  {
    hide MonthIndex, Searched, Seen, Matches, NoneSeen, ClockLoopsBack, MonthLoopBack, MonthOk;
    var f := e.fields;
    if YearOk(e, t) {
      var (u, retry) := MonthLoopBack(f, t, initFlag);
      if MonthOk(f, t) {
        SelectedStays(f, t, initFlag);
        ClockPart(f, t0, t, initFlag);
      } else {
        MonthPart(f, t0, t, initFlag);
        if !retry { ClockPart(f, t0, u, true); }
      }
    }
  }

  // ----- Runs of passes

  lemma {:induction false} AfterKeeps(e: CustomCronExpr, t0: int, n: nat)
    ensures match After(e, t0, n)
            case Again(t, flag) => Searched(e.fields, t0, t, flag) && t <= t0 - 1 && (t == t0 - 1 || YearOk(e, t0 - 1))
            case Returned(r) => IsLastSeen(e, t0, r)
  {
    hide Pass, Searched, Seen, YearOk, Fires, NoneSeen;
    if n == 0 {
      StartIsSearched(e.fields, t0);
    } else {
      AfterKeeps(e, t0, n - 1);
      match After(e, t0, n - 1)
      case Returned(r) =>
      case Again(t, flag) =>
        PassKeeps(e, t0, t, flag);
        if Pass(e, t, flag) == Returned(None) { OutsideYear(e, t0, t, flag); }
    }
  }

  lemma StartIsSearched(f: Fields, t0: int)
    ensures Searched(f, t0, t0 - 1, false)
  {
    NothingYet(f, t0);
  }

  /** A search that has left the year has seen all that it sees of it. */
  lemma OutsideYear(e: CustomCronExpr, t0: int, t: int, initFlag: bool)
    requires e.year != ANY_YEAR && Year(t) != e.year && t <= t0 - 1 && (t == t0 - 1 || YearOk(e, t0 - 1))
    requires Searched(e.fields, t0, t, initFlag)
    ensures IsLastSeen(e, t0, None)
  {
    hide MonthIndex, Seen, Matches, MonthBegin, Year;
    if Year(t0 - 1) == e.year {
      YearContains(t0 - 1, e.year);
      YearContains(t, e.year);
      assert t <= MonthBegin(12 * e.year) - 1;
    }
  }

  // ----- When the search ends

  /** With a fixed year always; without one if the search sees a match. */
  ghost predicate SeesMatch(e: CustomCronExpr, t0: int) {
    e.year == ANY_YEAR ==> exists s :: Seen(e.fields, t0, s) && Matches(e.fields, s)
  }

  /** An instant before which no pass starts, unless it returns at once. */
  lemma SearchLimit(e: CustomCronExpr, t0: int) returns (limit: int)
    requires SeesMatch(e, t0)
    ensures forall t, flag :: Searched(e.fields, t0, t, flag) && YearOk(e, t) && t <= t0 - 1 ==> limit <= t
  {
    hide MonthIndex, Seen, Matches, MonthBegin;
    if e.year == ANY_YEAR {
      limit :| Seen(e.fields, t0, limit) && Matches(e.fields, limit);
      assert limit < t0 by { SeenIsBefore(e.fields, t0, limit); }
    } else {
      limit := MonthBegin(12 * e.year);
      forall t, flag | Searched(e.fields, t0, t, flag) && YearOk(e, t) ensures limit <= t {
        YearContains(t, e.year);
      }
    }
  }

  lemma SeenIsBefore(f: Fields, t0: int, s: int)
    requires Seen(f, t0, s)
    ensures s < t0
  {
    hide MonthIndex;
  }

  lemma {:induction false} Stops(e: CustomCronExpr, t0: int, limit: int, n: nat) returns (n': nat)
    requires forall t, flag :: Searched(e.fields, t0, t, flag) && YearOk(e, t) && t <= t0 - 1 ==> limit <= t
    ensures After(e, t0, n').Returned?
    decreases match After(e, t0, n) case Again(t, _) => (if t < limit then 1 else t - limit + 2) case Returned(_) => 0
  {
    hide Pass, Searched, YearOk;
    AfterKeeps(e, t0, n);
    match After(e, t0, n)
    case Returned(r) => n' := n;
    case Again(t, flag) =>
      PassKeeps(e, t0, t, flag);
      AfterKeeps(e, t0, n + 1);
      n' := Stops(e, t0, limit, n + 1);
  }

  /** The search comes to an end exactly when the year is fixed or it sees a match. */
  lemma EndsIff(e: CustomCronExpr, t0: int)
    ensures Ends(e, t0) <==> SeesMatch(e, t0)
  {
    hide After, Seen, Matches, Searched;
    if SeesMatch(e, t0) {
      var limit := SearchLimit(e, t0);
      var n := Stops(e, t0, limit, 0);
    }
    if Ends(e, t0) {
      var n: nat :| After(e, t0, n).Returned?;
      AfterKeeps(e, t0, n);
    }
  }

  // ----- When it finds what it should

  /** The greatest firing instant before t0, if there is one, is found exactly when its day is not
  later than the one with which the search enters its month. */
  lemma PrevFindsIff(e: CustomCronExpr, t0: int, p: Option<int>, r: Option<int>)
    requires IsPrev(e, t0, p) && IsLastSeen(e, t0, r)
    ensures r == p <==> p.None? || Seen(e.fields, t0, p.value)
  {
    hide MonthIndex, Seen, Matches, MonthBegin, Year;
    if p.Some? {
      var u := p.value;
      if Seen(e.fields, t0, u) {
        if e.year != ANY_YEAR { YearBound(e, t0, u); }
        if r.Some? { SeenIsBefore(e.fields, t0, r.value); }
      }
    } else if r.Some? {
      SeenIsBefore(e.fields, t0, r.value);
      YearBound(e, t0, r.value);
    }
  }

  /** A firing instant before t0, with a fixed year, lies in the part of the year before t0. */
  lemma YearBound(e: CustomCronExpr, t0: int, u: int)
    requires u < t0 && Fires(e, u) && e.year != ANY_YEAR
    ensures MonthBegin(12 * e.year) <= u
    ensures Year(t0 - 1) == e.year || MonthBegin(12 * (e.year + 1)) < t0
  {
    hide MonthIndex, Matches, MonthBegin, Year;
    YearContains(u, e.year);
    YearContains(t0 - 1, e.year);
  }
}
