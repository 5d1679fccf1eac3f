/** `CronExpr.Next`: the search bounded by the end of the year after the one it starts in. */
module CronExpr {
  import opened Bits
  import opened Calendar
  import opened Schedule
  import opened Firing
  import opened ForwardSearch
  import opened Options

  /** What the search owes its caller: the first firing instant of [from, limit), where
  no value stands for the zero time. */
  ghost predicate FirstMatch(f: Fields, from: int, limit: int, r: Option<int>) {
    match r
    case Some(t) => from <= t < limit && Matches(f, t) && Quiet(f, from, t)
    case None => Quiet(f, from, limit)
  }

  /** The end of the year after that of the second following t. */
  function Horizon(t: int): int {
    MonthBegin(12 * (Year(t + 1) + 2))
  }

  method Next(f: Fields, t0: int) returns (r: Option<int>)
    ensures FirstMatch(f, t0 + 1, Horizon(t0), r)
  {
    hide MonthBegin, MonthIndex, Year, MonthOk, MatchDay, HourOk, MinuteOk, SecondOk, Matches, AtUnitStart;
    var t := t0 + 1;
    var year := Year(t);
    var initFlag := false;
    label Retry:
    while true
      invariant Searching(f, t0 + 1, t, initFlag)
      decreases Horizon(t0) - t
    {
      YearSpan(t, year + 1);
      if Year(t) > year + 1 {
        return None;
      }
      var retry;
      t, initFlag, retry := SkipMonths(f, t0 + 1, t, initFlag);
      if retry { continue Retry; }
      t, initFlag, retry := SkipDays(f, t0 + 1, t, initFlag);
      if retry { continue Retry; }
      t, initFlag, retry := SkipHours(f, t0 + 1, t, initFlag);
      if retry { continue Retry; }
      t, initFlag, retry := SkipMinutes(f, t0 + 1, t, initFlag);
      if retry { continue Retry; }
      t, initFlag, retry := SkipSeconds(f, t0 + 1, t, initFlag);
      if retry { continue Retry; }
      YearSpan(t, year + 1);
      return Some(t);
    }
  }

  /** `Next` fails exactly when the rest of the current day stays quiet and no later day
  before the horizon is selected. */
  lemma NextFailsExactly(f: Fields, t0: int, r: Option<int>)
    requires FirstMatch(f, t0 + 1, Horizon(t0), r) && ClockPossible(f)
    ensures var today := (t0 + 1) / 86400;
            r.None? <==>
              && Quiet(f, t0 + 1, (today + 1) * 86400)
              && forall d :: today < d && d * 86400 < Horizon(t0) ==> !DaySelected(f, d)
  {
    hide MonthStart, MonthLength, MonthOf, Matches, DaySelected;
    var today := (t0 + 1) / 86400;
    YearSpan(t0 + 1, Year(t0 + 1) + 1);
    var horizonDay := MonthStart(12 * (Year(t0 + 1) + 2));
    assert Horizon(t0) == horizonDay * 86400;
    assert (today + 1) * 86400 <= Horizon(t0);
    if r.None? {
      forall d | today < d && d * 86400 < Horizon(t0) ensures !DaySelected(f, d) {
        if DaySelected(f, d) {
          var t := SelectedDayFires(f, d);
        }
      }
    } else {
      var t := r.value;
      MatchIsDayAndClock(f, t);
      if t / 86400 == today {
        assert !Quiet(f, t0 + 1, (today + 1) * 86400);
      } else {
        assert today < t / 86400 && t / 86400 * 86400 < Horizon(t0);
      }
    }
  }

  /** A weekday that takes part in the choice, or a day of the month up to the 28th,
  guarantees an answer: it occurs in the year after the one the search starts in. */
  lemma NextGuaranteed(f: Fields, t0: int, r: Option<int>)
    requires FirstMatch(f, t0 + 1, Horizon(t0), r)
    requires ClockPossible(f) && Selects(f.month, 1, 12)
    requires (WeekdayDecides(f) && Selects(f.dow, 0, 6)) || (DayDecides(f) && Selects(f.dom, 1, 28))
    ensures r.Some?
  {
    var m :| 1 <= m <= 12 && Has(f.month, m);
    hide MonthStart, MonthLength, MonthOf, MonthBegin, Year, DaysIn, LeapYear;
    hide Matches, Has, WeekdayDecides, DayDecides, Selects, ClockPossible;
    var y := Year(t0 + 1);
    var t := FiresInYear(f, y + 1, m, 28);
    YearSpan(t0 + 1, y);
  }
}
