/** What a custom expression asks for, and what `Next` and `Prev` owe their callers. */
module CustomSchedule {
  import opened Calendar
  import opened Schedule
  import opened Firing
  import opened Options

  /** `math.MaxInt32` in the year field stands for `*`. */
  const ANY_YEAR := 2147483647

  datatype CustomCronExpr = CustomCronExpr(fields: Fields, year: int)

  predicate YearOk(e: CustomCronExpr, t: int) {
    e.year == ANY_YEAR || Year(t) == e.year
  }

  /** The expression fires at t. */
  predicate Fires(e: CustomCronExpr, t: int) {
    YearOk(e, t) && Matches(e.fields, t)
  }

  /** The least firing instant after t; none, the zero time, with a fixed year when the next
  second lies outside it or nothing in the rest of it fires. */
  ghost predicate IsNext(e: CustomCronExpr, t: int, r: Option<int>) {
    match r
    case Some(u) => YearOk(e, t + 1) && t < u && Fires(e, u) && Quiet(e.fields, t + 1, u)
    case None => e.year != ANY_YEAR
                 && (Year(t + 1) != e.year || Quiet(e.fields, t + 1, MonthBegin(12 * (e.year + 1))))
  }

  /** The greatest firing instant before t; none with a fixed year when the second before t lies
  outside it or nothing in the part of it before t fires. */
  ghost predicate IsPrev(e: CustomCronExpr, t: int, r: Option<int>) {
    match r
    case Some(u) => YearOk(e, t - 1) && u < t && Fires(e, u) && Quiet(e.fields, u + 1, t)
    case None => e.year != ANY_YEAR
                 && (Year(t - 1) != e.year || Quiet(e.fields, MonthBegin(12 * e.year), t))
  }

  /** The search can find something: the year is fixed, or the calendar can meet the fields. */
  ghost predicate Searchable(e: CustomCronExpr) {
    e.year == ANY_YEAR ==> Satisfiable(e.fields)
  }

  lemma {:induction false} LeastMatch(f: Fields, a: int, b: int) returns (u: int)
    requires a <= b && Matches(f, b)
    ensures a <= u <= b && Matches(f, u) && Quiet(f, a, u)
    decreases b - a
  {
    hide Matches;
    u := b;
    if !Quiet(f, a, b) {
      var s :| a <= s < b && Matches(f, s);
      u := LeastMatch(f, a, s);
    }
  }

  /** There is something for `Next` to return if and only if the year is fixed or the calendar can
  meet the fields: with year `*` and February 30, say, nothing is a result of the search, and the
  source puts no bound on it. */
  lemma HasNextIff(e: CustomCronExpr, t: int)
    ensures (exists r :: IsNext(e, t, r)) <==> Searchable(e)
  {
    hide Matches, MonthBegin, Year, Satisfiable;
    var f := e.fields;
    if e.year == ANY_YEAR {
      SatisfiableIffFires(f);
      if Satisfiable(f) {
        var s := FiresWithinEightYears(f, Year(t + 1));
        YearSpan(t + 1, Year(t + 1));
        var u := LeastMatch(f, t + 1, s);
        assert IsNext(e, t, Some(u));
      }
    } else {
      var end := MonthBegin(12 * (e.year + 1));
      YearContains(t + 1, e.year);
      if Year(t + 1) != e.year || Quiet(f, t + 1, end) {
        assert IsNext(e, t, None);
      } else {
        var s :| t + 1 <= s < end && Matches(f, s);
        var u := LeastMatch(f, t + 1, s);
        YearContains(u, e.year);
        assert IsNext(e, t, Some(u));
      }
    }
  }

  lemma YearContains(t: int, y: int)
    ensures Year(t) == y <==> MonthBegin(12 * y) <= t < MonthBegin(12 * (y + 1))
  {
    hide MonthBegin, Year;
    YearSpan(t, y);
    YearSpan(t, y - 1);
  }
}
