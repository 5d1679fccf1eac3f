/** `CustomCronExpr.Next` and `Prev`: the searches with one fixed year, or with no bound at all. */
module CustomCronExpr {
  import opened Calendar
  import opened Schedule
  import opened Firing
  import opened ForwardSearch
  import opened BackwardMonths
  import opened BackwardClock
  import opened BackwardPasses
  import opened BackwardFinds
  import opened CustomSchedule
  import opened Options

  /** An instant after `from` that ends the forward search at the latest. */
  lemma ForwardLimit(e: CustomCronExpr, from: int) returns (limit: int)
    requires Searchable(e)
    ensures e.year != ANY_YEAR ==> limit == MonthBegin(12 * (e.year + 1))
    ensures e.year == ANY_YEAR ==> from < limit <= MonthBegin(12 * (Year(from) + 9)) && Matches(e.fields, limit - 1)
  {
    hide MonthBegin, Year, Matches, Satisfiable;
    if e.year == ANY_YEAR {
      limit := FiresWithinEightYears(e.fields, Year(from));
      limit := limit + 1;
      YearSpan(from, Year(from));
    } else {
      limit := MonthBegin(12 * (e.year + 1));
    }
  }

  method Next(e: CustomCronExpr, t0: int) returns (r: Option<int>)
    requires Searchable(e)
    ensures IsNext(e, t0, r)
    ensures e.year == ANY_YEAR ==> r.Some? && r.value < MonthBegin(12 * (Year(t0 + 1) + 9))
  {
    hide MonthBegin, MonthIndex, Year, MonthOk, MatchDay, HourOk, MinuteOk, SecondOk, Matches, AtUnitStart, Satisfiable;
    var f := e.fields;
    var t := t0 + 1;
    var initFlag := false;
    ghost var limit := ForwardLimit(e, t);
    label Retry:
    while true
      invariant Searching(f, t0 + 1, t, initFlag)
      invariant t == t0 + 1 || YearOk(e, t0 + 1)
      invariant e.year == ANY_YEAR ==> t < limit
      decreases limit - t
    {
      YearContains(t, e.year);
      YearContains(t0 + 1, e.year);
      if Year(t) != e.year && e.year != ANY_YEAR {
        return None;
      }
      var retry;
      t, initFlag, retry := SkipMonths(f, t0 + 1, t, initFlag);
      if retry { continue Retry; }
      t, initFlag, retry := SkipDays(f, t0 + 1, t, initFlag);
      if retry { continue Retry; }
      t, initFlag, retry := SkipHours(f, t0 + 1, t, initFlag);
      if retry { continue Retry; }
      t, initFlag, retry := SkipMinutes(f, t0 + 1, t, initFlag);
      if retry { continue Retry; }
      t, initFlag, retry := SkipSeconds(f, t0 + 1, t, initFlag);
      if retry { continue Retry; }
      return Some(t);
    }
  }

  method Prev(e: CustomCronExpr, t0: int) returns (r: Option<int>)
    requires SeesMatch(e, t0)
    ensures IsLastSeen(e, t0, r)
    ensures exists n: nat :: After(e, t0, n) == Returned(r)
  {
    hide MonthIndex, MonthLoopBack, DayLoopBack, HourLoopBack, MinuteLoopBack, SecondLoopBack, Year, MonthOk, After;
    hide Searched, Seen, Matches, NoneSeen;
    var f := e.fields;
    var t := t0 - 1;
    var initFlag := false;
    ghost var limit := SearchLimit(e, t0);
    ghost var n: nat := 0;
    FirstPass(e, t0);
    label Retry:
    while true
      invariant After(e, t0, n) == Again(t, initFlag)
      decreases t - limit
    {
      AfterKeeps(e, t0, n);
      PassKeeps(e, t0, t, initFlag);
      NextPass(e, t0, n);
      n := n + 1;
      AfterKeeps(e, t0, n);
      if Year(t) != e.year && e.year != ANY_YEAR {
        return None;
      }
      var retry;
      t, initFlag, retry := SkipMonthsBack(f, t, initFlag);
      if retry { continue Retry; }
      t, initFlag, retry := SkipDaysBack(f, t, initFlag);
      if retry { continue Retry; }
      t, initFlag, retry := SkipHoursBack(f, t, initFlag);
      if retry { continue Retry; }
      t, initFlag, retry := SkipMinutesBack(f, t, initFlag);
      if retry { continue Retry; }
      t, initFlag, retry := SkipSecondsBack(f, t, initFlag);
      if retry { continue Retry; }
      return Some(t);
    }
  }

  lemma FirstPass(e: CustomCronExpr, t0: int)
    ensures After(e, t0, 0) == Again(t0 - 1, false)
  {
  }

  lemma NextPass(e: CustomCronExpr, t0: int, n: nat)
    requires After(e, t0, n).Again?
    ensures After(e, t0, n + 1) == Pass(e, After(e, t0, n).t, After(e, t0, n).initFlag)
  {
    hide Pass;
  }

  // ----- Next and Prev undo each other, where the search backward sees the way

  /** The greatest firing instant before the next one after a firing instant t is t. */
  lemma GreatestBeforeNext(e: CustomCronExpr, t: int, r: Option<int>)
    requires Fires(e, t) && IsNext(e, t, r) && r.Some?
    ensures IsPrev(e, r.value, Some(t))
  {
    hide MonthBegin, Year, Matches;
    var u := r.value;
    if e.year != ANY_YEAR {
      YearContains(t, e.year);
      YearContains(u, e.year);
      YearContains(u - 1, e.year);
    }
  }

  lemma LeastAfterPrev(e: CustomCronExpr, t: int, p: Option<int>, n: Option<int>)
    requires Fires(e, t) && IsPrev(e, t, p) && p.Some? && IsNext(e, p.value, n)
    ensures n == Some(t)
  {
    hide MonthBegin, Year, Matches;
    var u := p.value;
    assert !Quiet(e.fields, u + 1, t + 1);
    if e.year != ANY_YEAR {
      YearContains(t, e.year);
      YearContains(u, e.year);
      YearContains(u + 1, e.year);
    }
  }

  /** From the instant after t the search backward returns to t exactly when it sees t. */
  lemma PrevUndoesNextIff(e: CustomCronExpr, t: int, r: Option<int>, p: Option<int>)
    requires Fires(e, t) && IsNext(e, t, r) && r.Some? && IsLastSeen(e, r.value, p)
    ensures p == Some(t) <==> Seen(e.fields, r.value, t)
  {
    hide IsNext, IsPrev, IsLastSeen, Seen, Fires;
    GreatestBeforeNext(e, t, r);
    PrevFindsIff(e, r.value, Some(t), p);
  }

  /** From what the search backward returns for t the search forward returns to t exactly when the
  former has seen the greatest firing instant p before t. */
  lemma NextUndoesPrevIff(e: CustomCronExpr, t: int, p: Option<int>, r: Option<int>, n: Option<int>)
    requires Fires(e, t) && IsPrev(e, t, p) && p.Some?
    requires IsLastSeen(e, t, r) && r.Some? && IsNext(e, r.value, n)
    ensures n == Some(t) <==> Seen(e.fields, t, p.value)
  {
    PrevFindsIff(e, t, p, r);
    hide Seen, Matches, YearOk;
    if Seen(e.fields, t, p.value) {
      LeastAfterPrev(e, t, p, n);
    }
  }

  /** Unless the masks lead the search backward astray, which month `*` never does, the two always
  undo each other. */
  lemma PrevUndoesNext(e: CustomCronExpr, t: int, r: Option<int>, p: Option<int>)
    requires !Astray(e) && Fires(e, t) && IsNext(e, t, r) && r.Some? && IsLastSeen(e, r.value, p)
    ensures p == Some(t)
  {
    hide Astray, IsNext, IsLastSeen;
    NotAstrayGivesPrev(e, r.value, p);
    GreatestBeforeNext(e, t, r);
    hide MonthBegin, Year, Matches;
    if p.None? { YearBound(e, r.value, t); }
  }

  lemma NextUndoesPrev(e: CustomCronExpr, t: int, r: Option<int>, n: Option<int>)
    requires !Astray(e) && Fires(e, t) && IsLastSeen(e, t, r) && r.Some? && IsNext(e, r.value, n)
    ensures n == Some(t)
  {
    hide Astray, IsNext, IsLastSeen, IsPrev;
    NotAstrayGivesPrev(e, t, r);
    LeastAfterPrev(e, t, r, n);
  }
}
