/** The proleptic Gregorian calendar behind `time.Time`, in UTC and in whole seconds.

An instant is the number of seconds since 0001-01-01T00:00:00Z, a Monday, which is
where Go's zero time lies.  Months are numbered absolutely: month `k` is month
`k % 12 + 1` of year `k / 12`, so that stepping over a year end needs no special case. */
module Calendar {

  /** January of year 1. */
  const EPOCH_MONTH := 12

  predicate LeapYear(y: int) {
    y % 4 == 0 && (y % 100 != 0 || y % 400 == 0)
  }

  /** Length of the month with number m, from 1 to 12. */
  function DaysIn(m: int, leap: bool): (n: int)
    ensures 28 <= n <= 31
  {
    if m == 2 then (if leap then 29 else 28)
    else if m == 4 || m == 6 || m == 9 || m == 11 then 30
    else 31
  }

  function MonthLength(k: int): (n: int)
    ensures 28 <= n <= 31
  {
    DaysIn(k % 12 + 1, LeapYear(k / 12))
  }

  /** Days from 0001-01-01 to the first day of month k. */
  function MonthStart(k: int): int
    decreases if k >= EPOCH_MONTH then k - EPOCH_MONTH else EPOCH_MONTH - k
  {
    if k == EPOCH_MONTH then 0
    else if k > EPOCH_MONTH then MonthStart(k - 1) + MonthLength(k - 1)
    else MonthStart(k + 1) - MonthLength(k)
  }

  /** Consecutive months are adjacent: the calendar has neither gaps nor overlaps. */
  lemma MonthsAdjacent(k: int)
    ensures MonthStart(k + 1) == MonthStart(k) + MonthLength(k)
  {
  }

  lemma {:induction false} MonthsOrdered(j: int, k: int)
    requires j < k
    ensures MonthStart(j) + 28 * (k - j) <= MonthStart(k)
    decreases k - j
  {
    MonthsAdjacent(k - 1);
    if j < k - 1 { MonthsOrdered(j, k - 1); }
  }

  lemma MonthLengthAt(y: int, i: int)
    requires 0 <= i < 12
    ensures MonthLength(12 * y + i) == DaysIn(i + 1, LeapYear(y))
  {
    assert (12 * y + i) / 12 == y && (12 * y + i) % 12 == i;
  }

  lemma HalfYearLength(y: int, i: int)
    requires i == 0 || i == 6
    ensures MonthStart(12 * y + i + 6) == MonthStart(12 * y + i)
              + DaysIn(i + 1, LeapYear(y)) + DaysIn(i + 2, LeapYear(y)) + DaysIn(i + 3, LeapYear(y))
              + DaysIn(i + 4, LeapYear(y)) + DaysIn(i + 5, LeapYear(y)) + DaysIn(i + 6, LeapYear(y))
  {
    hide DaysIn, LeapYear, MonthLength;
    var k := 12 * y + i;
    MonthLengthAt(y, i); MonthLengthAt(y, i + 1); MonthLengthAt(y, i + 2);
    MonthLengthAt(y, i + 3); MonthLengthAt(y, i + 4); MonthLengthAt(y, i + 5);
    MonthsAdjacent(k); MonthsAdjacent(k + 1); MonthsAdjacent(k + 2);
    MonthsAdjacent(k + 3); MonthsAdjacent(k + 4); MonthsAdjacent(k + 5);
  }

  lemma YearLength(y: int)
    ensures MonthStart(12 * (y + 1)) == MonthStart(12 * y) + (if LeapYear(y) then 366 else 365)
  {
    hide MonthStart, LeapYear;
    HalfYearLength(y, 0);
    HalfYearLength(y, 6);
    assert 12 * y + 6 + 6 == 12 * (y + 1);
  }

  function DaysBeforeYear(y: int): int {
    365 * (y - 1) + (y - 1) / 4 - (y - 1) / 100 + (y - 1) / 400
  }

  lemma QuarterStep(y: int)
    ensures y / 4 == (y - 1) / 4 + if y % 4 == 0 then 1 else 0
  {
  }

  lemma CenturyStep(y: int)
    ensures y / 100 == (y - 1) / 100 + if y % 100 == 0 then 1 else 0
  {
  }

  lemma FourCenturiesStep(y: int)
    ensures y / 400 == (y - 1) / 400 + if y % 400 == 0 then 1 else 0
  {
  }

  lemma CenturyIsFourth(y: int)
    ensures y % 100 == 0 ==> y % 4 == 0
  {
    if y % 100 == 0 {
      var q := y / 100;
      assert y == 4 * (25 * q);
    }
  }

  lemma FourCenturiesIsCentury(y: int)
    ensures y % 400 == 0 ==> y % 100 == 0
  {
    if y % 400 == 0 {
      var q := y / 400;
      assert y == 100 * (4 * q);
    }
  }

  lemma ClosedFormStep(y: int)
    ensures DaysBeforeYear(y + 1) == DaysBeforeYear(y) + (if LeapYear(y) then 366 else 365)
  {
    QuarterStep(y);
    CenturyStep(y);
    FourCenturiesStep(y);
    CenturyIsFourth(y);
    FourCenturiesIsCentury(y);
  }

  /** The summed month lengths agree with the usual closed form for the days before a year. */
  lemma {:induction false} YearsAgreeWithClosedForm(y: int)
    ensures MonthStart(12 * y) == DaysBeforeYear(y)
    decreases if y >= 1 then y - 1 else 1 - y
  {
    if y > 1 {
      YearsAgreeWithClosedForm(y - 1);
      YearLength(y - 1);
      ClosedFormStep(y - 1);
    } else if y < 1 {
      YearsAgreeWithClosedForm(y + 1);
      YearLength(y);
      ClosedFormStep(y);
    }
  }

  function SearchForward(d: int, k: int): (r: int)
    requires MonthStart(k) <= d
    ensures MonthStart(r) <= d < MonthStart(r + 1)
    decreases d - MonthStart(k)
  {
    MonthsAdjacent(k);
    if d < MonthStart(k + 1) then k else SearchForward(d, k + 1)
  }

  function SearchBackward(d: int, k: int): (r: int)
    requires d < MonthStart(k + 1)
    ensures MonthStart(r) <= d < MonthStart(r + 1)
    decreases MonthStart(k + 1) - d
  {
    MonthsAdjacent(k);
    if MonthStart(k) <= d then k else SearchBackward(d, k - 1)
  }

  /** The month that day d lies in. */
  function MonthOf(d: int): (k: int)
    ensures MonthStart(k) <= d < MonthStart(k + 1)
  {
    if d >= 0 then SearchForward(d, EPOCH_MONTH) else SearchBackward(d, EPOCH_MONTH - 1)
  }

  lemma MonthUnique(d: int, k: int)
    requires MonthStart(k) <= d < MonthStart(k + 1)
    ensures MonthOf(d) == k
  {
    var r := MonthOf(d);
    if r < k && r + 1 < k { MonthsOrdered(r + 1, k); }
    if k < r && k + 1 < r { MonthsOrdered(k + 1, r); }
  }

  // ----- The fields of an instant, as the accessors of time.Time give them

  function MonthIndex(t: int): int { MonthOf(t / 86400) }

  function Year(t: int): int { MonthIndex(t) / 12 }

  function Month(t: int): (m: int)
    ensures 1 <= m <= 12
  {
    MonthIndex(t) % 12 + 1
  }

  function Day(t: int): (d: int)
    ensures 1 <= d <= MonthLength(MonthIndex(t))
  {
    MonthsAdjacent(MonthIndex(t));
    t / 86400 - MonthStart(MonthIndex(t)) + 1
  }

  lemma DayInMonth(t: int)
    ensures 1 <= Day(t) <= MonthLength(MonthIndex(t))
  {
  }

  /** Sunday is 0; day 0 was a Monday. */
  function Weekday(t: int): (w: int)
    ensures 0 <= w < 7
  {
    (t / 86400 + 1) % 7
  }

  function Hour(t: int): (h: int)
    ensures 0 <= h < 24
  {
    t / 3600 % 24
  }

  function Minute(t: int): (m: int)
    ensures 0 <= m < 60
  {
    t / 60 % 60
  }

  function Second(t: int): (s: int)
    ensures 0 <= s < 60
  {
    t % 60
  }

  // ----- Building and moving instants

  /** `time.Date` with the month given by its index: days outside the month carry over. */
  function Date(k: int, day: int, hour: int, minute: int, second: int): int {
    (MonthStart(k) + day - 1) * 86400 + hour * 3600 + minute * 60 + second
  }

  /** `t.AddDate(0, n, 0)`: same day number n months on, carrying over when the month is shorter. */
  function AddMonths(t: int, n: int): int {
    Date(MonthIndex(t) + n, Day(t), Hour(t), Minute(t), Second(t))
  }

  /** `t.AddDate(0, 0, n)`. */
  function AddDays(t: int, n: int): int {
    Date(MonthIndex(t), Day(t) + n, Hour(t), Minute(t), Second(t))
  }

  function Truncate(t: int, unit: int): int
    requires unit > 0
  {
    t - t % unit
  }

  function MonthBegin(k: int): int { MonthStart(k) * 86400 }

  lemma SplitDay(d: int, r: int)
    requires 0 <= r < 86400
    ensures (d * 86400 + r) / 86400 == d && (d * 86400 + r) % 86400 == r
  {
  }

  lemma SplitHour(h: int, r: int)
    requires 0 <= r < 3600
    ensures (h * 3600 + r) / 3600 == h && (h * 3600 + r) % 3600 == r
  {
  }

  lemma SplitMinute(m: int, r: int)
    requires 0 <= r < 60
    ensures (m * 60 + r) / 60 == m && (m * 60 + r) % 60 == r
  {
  }

  /** The instant of day d at a given time of day. */
  lemma TimeOfDay(d: int, hour: int, minute: int, second: int) returns (t: int)
    requires 0 <= hour < 24 && 0 <= minute < 60 && 0 <= second < 60
    ensures t / 86400 == d && Hour(t) == hour && Minute(t) == minute && Second(t) == second
  {
    t := d * 86400 + hour * 3600 + minute * 60 + second;
    SplitDay(d, hour * 3600 + minute * 60 + second);
    SplitHour(24 * d + hour, minute * 60 + second);
    SplitMinute(60 * (24 * d + hour) + minute, second);
    SplitTwentyFour(d, hour);
    SplitSixty(24 * d + hour, minute);
  }

  lemma SplitTwentyFour(d: int, x: int)
    requires 0 <= x < 24
    ensures (24 * d + x) / 24 == d && (24 * d + x) % 24 == x
  {
  }

  lemma SplitSixty(h: int, x: int)
    requires 0 <= x < 60
    ensures (60 * h + x) / 60 == h && (60 * h + x) % 60 == x
  {
  }

  /** Midnight is also the start of an hour and of a minute. */
  lemma Midnight(d: int)
    ensures d * 86400 / 86400 == d && d * 86400 % 86400 == 0 && d * 86400 % 3600 == 0 && d * 86400 % 60 == 0
    ensures Hour(d * 86400) == 0 && Minute(d * 86400) == 0 && Second(d * 86400) == 0
  {
    SplitDay(d, 0);
    SplitHour(24 * d, 0);
    SplitMinute(1440 * d, 0);
    SplitTwentyFour(d, 0);
    SplitSixty(24 * d, 0);
  }

  lemma ClockSplit(t: int)
    ensures t == t / 86400 * 86400 + Hour(t) * 3600 + Minute(t) * 60 + Second(t)
    ensures t % 86400 == Hour(t) * 3600 + Minute(t) * 60 + Second(t)
    ensures t % 3600 == Minute(t) * 60 + Second(t)
    ensures t % 60 == Second(t)
  {
    var m := t / 60;
    var h, x := m / 60, m % 60;
    var d, y := h / 24, h % 24;
    assert t == m * 60 + t % 60 && m == h * 60 + x && h == d * 24 + y;
    SplitHour(h, x * 60 + t % 60);
    SplitDay(d, y * 3600 + x * 60 + t % 60);
  }

  /** An instant is rebuilt from its fields. */
  lemma DateOfFields(t: int)
    ensures Date(MonthIndex(t), Day(t), Hour(t), Minute(t), Second(t)) == t
  {
    ClockSplit(t);
  }

  /** Building an instant from in-range fields gives back those fields. */
  lemma FieldsOfDate(k: int, day: int, hour: int, minute: int, second: int)
    requires 1 <= day <= MonthLength(k) && 0 <= hour < 24 && 0 <= minute < 60 && 0 <= second < 60
    ensures var t := Date(k, day, hour, minute, second);
            && MonthIndex(t) == k && Day(t) == day
            && Hour(t) == hour && Minute(t) == minute && Second(t) == second
  {
    var t := Date(k, day, hour, minute, second);
    var d := MonthStart(k) + day - 1;
    assert t == d * 86400 + (hour * 3600 + minute * 60 + second);
    assert t / 86400 == d;
    MonthsAdjacent(k);
    MonthUnique(d, k);
    ClockSplit(t);
  }

  lemma MonthSpan(t: int, k: int)
    ensures MonthIndex(t) == k <==> MonthBegin(k) <= t < MonthBegin(k + 1)
  {
    if MonthBegin(k) <= t < MonthBegin(k + 1) { MonthUnique(t / 86400, k); }
  }

  lemma MonthIndexOrdered(s: int, t: int)
    requires s <= t
    ensures MonthIndex(s) <= MonthIndex(t)
  {
    var j, k := MonthIndex(s), MonthIndex(t);
    if k < j && k + 1 < j { MonthsOrdered(k + 1, j); }
  }

  lemma YearSpan(t: int, y: int)
    ensures Year(t) <= y <==> t < MonthBegin(12 * (y + 1))
  {
    var k, n := MonthIndex(t), 12 * (y + 1);
    if k + 1 < n { MonthsOrdered(k + 1, n); }
    if n < k { MonthsOrdered(n, k); }
  }
}
