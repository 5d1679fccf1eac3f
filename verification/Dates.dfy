/** Fixed points of the calendar: what the definitions come to for known dates and for the months
of a year. */
module Dates {
  import opened Calendar

  /** Days before the month with number i + 1 in a year that is not a leap year. */
  const DAYS_BEFORE: seq<int> := [0, 31, 59, 90, 120, 151, 181, 212, 243, 273, 304, 334]

  lemma MonthStartInYear(y: int, i: int)
    requires 0 <= i < 12
    ensures MonthStart(12 * y + i) == DaysBeforeYear(y) + DAYS_BEFORE[i] + if i >= 2 && LeapYear(y) then 1 else 0
  {
    YearsAgreeWithClosedForm(y);
    hide MonthStart, DaysBeforeYear, LeapYear, MonthLength;
    StartsFollow(y, i);
  }

  lemma {:induction false} StartsFollow(y: int, i: int)
    requires 0 <= i < 12
    ensures MonthStart(12 * y + i) == MonthStart(12 * y) + DAYS_BEFORE[i] + if i >= 2 && LeapYear(y) then 1 else 0
    decreases i
  {
    hide MonthStart, LeapYear, MonthLength;
    if i > 0 {
      StartsFollow(y, i - 1);
      MonthsAdjacent(12 * y + i - 1);
      MonthLengthAt(y, i - 1);
    }
  }

  /** A date and a time of day, as a number of seconds. */
  lemma SecondsOfDate(y: int, i: int, day: int, hour: int, minute: int, second: int)
    requires 0 <= i < 12
    ensures Date(12 * y + i, day, hour, minute, second) ==
            (DaysBeforeYear(y) + DAYS_BEFORE[i] + (if i >= 2 && LeapYear(y) then 1 else 0) + day - 1) * 86400
            + hour * 3600 + minute * 60 + second
  {
    hide MonthStart, DaysBeforeYear, LeapYear;
    MonthStartInYear(y, i);
  }

  lemma KnownYears()
    ensures DaysBeforeYear(1970) == 719162 && DaysBeforeYear(2023) == 738520 && DaysBeforeYear(2024) == 738885
    ensures LeapYear(2024) && !LeapYear(2023) && !LeapYear(1970)
  {
  }

  /** 1970-01-01, the origin of Unix time, was a Thursday. */
  lemma UnixEpoch()
    ensures Date(12 * 1970, 1, 0, 0, 0) == 62_135_596_800
    ensures Weekday(62_135_596_800) == 4
  {
    KnownYears();
    hide Date, DaysBeforeYear, LeapYear;
    SecondsOfDate(1970, 0, 1, 0, 0, 0);
    assert 12 * 1970 + 0 == 12 * 1970;
  }

  /** 2024-02-29 23:59:59 was a Thursday too. */
  lemma LeapDay2024()
    ensures Date(12 * 2024 + 1, 29, 23, 59, 59) == 63_844_847_999
    ensures Weekday(63_844_847_999) == 4 && Day(63_844_847_999) == 29 && Month(63_844_847_999) == 2
  {
    KnownYears();
    hide Date, DaysBeforeYear, LeapYear, MonthLength, MonthIndex, Day;
    SecondsOfDate(2024, 1, 29, 23, 59, 59);
    MonthLengthAt(2024, 1);
    FieldsOfDate(12 * 2024 + 1, 29, 23, 59, 59);
  }

  /** Each day has the weekday after that of the day before. */
  lemma WeekdaysFollow(t: int)
    ensures Weekday(t + 86400) == if Weekday(t) == 6 then 0 else Weekday(t) + 1
    ensures t / 86400 == (t + 1) / 86400 ==> Weekday(t + 1) == Weekday(t)
  {
    assert (t + 86400) / 86400 == t / 86400 + 1;
  }
}
