/** What the words of a custom expression say about it: whether it fires, whether the search
forward ends, and whether the search backward is right. */
module CustomCronTexts {
  import opened Options
  import opened Results
  import opened Text
  import opened Bits
  import opened Calendar
  import opened Schedule
  import opened Firing
  import opened BackwardMonths
  import opened BackwardEnds
  import opened BackwardFinds
  import opened CustomSchedule
  import opened CustomCronParser
  import opened October

  /** The masks of an expression are those of stars and numbers in range. */
  ghost predicate OfStars(e: CustomCronExpr, month: Option<int>, dom: Option<int>, dow: Option<int>) {
    && StarOrOne(e.fields.month, 1, 12, month) && StarOrOne(e.fields.dom, 1, 31, dom)
    && StarOrOne(e.fields.dow, 0, 6, dow) && ClockPossible(e.fields)
  }

  lemma WordsGiveStars(w: seq<string>)
    requires WordsInRange(w) && ParseCustomWords(w).Ok?
    ensures OfStars(ParseCustomWords(w).value, NumberOf(w[1]), NumberOf(w[2]), NumberOf(w[6]))
    ensures NumberOf(w[6]).None? <==> w[6] == "*"
  {
    WordsGiveMasks(w);
    WeekdayGiven(w);
    hide ParseCustomWords, ParseInt, StarOrOne, NumberOf;
    var f := ParseCustomWords(w).value.fields;
    RunSelects(f.hour, 0, 23, NumberOf(w[3]));
    RunSelects(f.min, 0, 59, NumberOf(w[4]));
    RunSelects(f.sec, 0, 59, NumberOf(w[5]));
  }

  /** The day of a lone number, with every weekday. */
  predicate DayAlone(dom: Option<int>, dow: Option<int>) { dow.None? && dom.Some? }

  /** Which days the day rule can accept. */
  lemma DayOfStars(e: CustomCronExpr, month: Option<int>, dom: Option<int>, dow: Option<int>, lo: int, hi: int)
    requires OfStars(e, month, dom, dow) && 1 <= lo <= hi <= 31
    ensures (WeekdayDecides(e.fields) && Selects(e.fields.dow, 0, 6))
            || (DayDecides(e.fields) && Selects(e.fields.dom, lo, hi))
            <==> !(DayAlone(dom, dow) && !(lo <= dom.value <= hi))
  {
    var f := e.fields;
    RunSelects(f.dow, 0, 6, dow);
    RunSelects(f.dom, 1, 31, dom);
    FullMasks(f, dom, dow);
    hide Selects, StarOrOne, ClockPossible;
  }

  // ----- Whether it fires

  /** The month is a number, and in the years of the expression it never has the day. */
  predicate NoSuchDay(e: CustomCronExpr, month: Option<int>, dom: Option<int>, dow: Option<int>) {
    DayAlone(dom, dow) && month.Some? && dom.value > DaysIn(month.value, LeapPossible(e))
  }

  lemma StarsFireIff(e: CustomCronExpr, month: Option<int>, dom: Option<int>, dow: Option<int>)
    requires OfStars(e, month, dom, dow)
    ensures (exists t :: Fires(e, t)) <==> !NoSuchDay(e, month, dom, dow)
  {
    hide Fires, DaysIn, LeapYear, NoSuchDay;
    if !NoSuchDay(e, month, dom, dow) {
      var t := SomeFires(e, month, dom, dow);
    }
    if NoSuchDay(e, month, dom, dow) {
      forall t ensures !Fires(e, t) { NoneFires(e, month, dom, dow, t); }
    }
  }

  lemma SomeFires(e: CustomCronExpr, month: Option<int>, dom: Option<int>, dow: Option<int>) returns (t: int)
    requires OfStars(e, month, dom, dow) && !NoSuchDay(e, month, dom, dow)
    ensures Fires(e, t)
  {
    var m := if month.Some? then month.value else 1;
    MonthOfStars(e, month);
    hide DaysIn, LeapYear, StarOrOne, Has, ClockPossible, Matches, MonthBegin, Year, Selects;
    hide WeekdayDecides, DayDecides;
    var y := e.year;
    if e.year == ANY_YEAR { y := LeapYearAhead(0); }
    DayOfStars(e, month, dom, dow, 1, DaysIn(m, LeapYear(y)));
    assert month.None? ==> DaysIn(m, LeapYear(y)) == 31 by { JanuaryLength(LeapYear(y)); }
    assert dom.Some? ==> 1 <= dom.value <= 31 by { InBounds(e.fields.dom, 1, 31, dom); }
    t := FiresInYear(e.fields, y, m, DaysIn(m, LeapYear(y)));
    YearContains(t, y);
  }

  lemma JanuaryLength(leap: bool)
    ensures DaysIn(1, leap) == 31
  {
  }

  lemma InBounds(m: Mask, min: int, max: int, n: Option<int>)
    requires StarOrOne(m, min, max, n)
    ensures n.Some? ==> min <= n.value <= max
  {
  }

  lemma MonthOfStars(e: CustomCronExpr, month: Option<int>)
    requires StarOrOne(e.fields.month, 1, 12, month)
    ensures month.Some? ==> 1 <= month.value <= 12 && OnlyMonth(e.fields, month.value)
    ensures month.None? ==> EveryMonth(e.fields)
  {
  }

  lemma NoneFires(e: CustomCronExpr, month: Option<int>, dom: Option<int>, dow: Option<int>, t: int)
    requires OfStars(e, month, dom, dow) && NoSuchDay(e, month, dom, dow)
    ensures !Fires(e, t)
  {
    hide DaysIn, LeapYear, ClockPossible, MonthIndex, Day, Matches, MonthLength;
    var f := e.fields;
    if Matches(f, t) && YearOk(e, t) {
      MatchFields(f, t);
      FullMasks(f, dom, dow);
      LengthsThatCount(e, MonthIndex(t));
    }
  }

  /** Words in range give an expression that fires unless the weekday is `*`, the month and the day
  are numbers, and the month does not have that day in the years of the expression. */
  lemma InRangeFiresIff(w: seq<string>)
    requires WordsInRange(w) && ParseCustomWords(w).Ok?
    ensures var e := ParseCustomWords(w).value;
            (exists t :: Fires(e, t)) <==>
              !(w[6] == "*" && NumberOf(w[1]).Some? && NumberOf(w[2]).Some?
                && NumberOf(w[2]).value > DaysIn(NumberOf(w[1]).value, e.year == ANY_YEAR || LeapYear(e.year)))
  {
    WordsGiveStars(w);
    hide ParseCustomWords, NumberOf, Fires, OfStars, DaysIn, LeapYear;
    StarsFireIff(ParseCustomWords(w).value, NumberOf(w[1]), NumberOf(w[2]), NumberOf(w[6]));
  }

  /** With year `*` there is something for the search forward to return under the same condition. */
  lemma InRangeHasNextIff(w: seq<string>, t: int)
    requires WordsInRange(w) && ParseCustomWords(w).Ok? && w[0] == "*"
    ensures (exists r :: IsNext(ParseCustomWords(w).value, t, r)) <==>
              !(w[6] == "*" && NumberOf(w[1]).Some? && NumberOf(w[2]).Some?
                && NumberOf(w[2]).value > DaysIn(NumberOf(w[1]).value, true))
  {
    WordsGiveMasks(w);
    InRangeSatisfiable(w);
    hide ParseCustomWords, NumberOf, IsNext, Satisfiable, DaysIn, StarOrOne, InRange;
    HasNextIff(ParseCustomWords(w).value, t);
  }

  // ----- Whether the search backward is right

  /** From a month to November, or to April of the next year: both are one day shorter than the
  month before them. */
  function MonthsToDrop(number: int): int { if number <= 10 then 11 - number else 16 - number }

  lemma DropsByOne(number: int, leap: bool)
    requires 1 <= number <= 12
    ensures 1 <= MonthsToDrop(number) <= 11 && Drop(number, MonthsToDrop(number), leap) == 1
    ensures number <= 10 ==> number + MonthsToDrop(number) <= 12
  {
  }

  lemma NoDropAtYearEnd(number: int, x: int, leap: bool)
    requires 11 <= number <= 12 && 1 <= x && number + x <= 12
    ensures Drop(number, x, leap) <= 0
  {
  }

  /** A lone month leads the search astray, unless it is one of the last two of a fixed year, or
  only its first day can be asked for, or a day that it does not have. */
  lemma AstrayOfStars(e: CustomCronExpr, month: Option<int>, dom: Option<int>, dow: Option<int>)
    requires OfStars(e, month, dom, dow)
    ensures Astray(e) <==>
              && month.Some? && (e.year == ANY_YEAR || month.value <= 10)
              && !(DayAlone(dom, dow) && (dom.value == 1 || dom.value > DaysIn(month.value, LeapPossible(e))))
  {
    MonthOfStars(e, month);
    if month.None? {
      EveryMonthIsNotAstray(e);
    } else {
      var leap, m := LeapPossible(e), month.value;
      hide OfStars, DaysIn, LeapYear, EveryMonth;
      LateDayOfStars(e, month, dom, dow, leap);
      if (e.year == ANY_YEAR || m <= 10) && LateDay(e.fields, m, 1, leap) {
        OnlyMonthIsAstray(e, m);
      }
      if Astray(e) {
        var a, x :| AstrayAt(e, a, x);
        AstrayIsLate(e, m, a, x);
      }
    }
  }

  lemma LateDayOfStars(e: CustomCronExpr, month: Option<int>, dom: Option<int>, dow: Option<int>, leap: bool)
    requires OfStars(e, month, dom, dow) && month.Some?
    ensures LateDay(e.fields, month.value, 1, leap) <==>
              !(DayAlone(dom, dow) && (dom.value == 1 || dom.value > DaysIn(month.value, leap)))
  {
    assert dom.Some? ==> 1 <= dom.value by { InBounds(e.fields.dom, 1, 31, dom); }
    hide OfStars, DaysIn, Selects;
    DayOfStars(e, month, dom, dow, 2, DaysIn(month.value, leap));
  }

  lemma OnlyMonthIsAstray(e: CustomCronExpr, m: int)
    requires OnlyMonth(e.fields, m) && (e.year == ANY_YEAR || m <= 10) && ClockPossible(e.fields)
    requires LateDay(e.fields, m, 1, LeapPossible(e))
    ensures Astray(e)
  {
    hide ClockPossible, LateDay, Drop, LeapPossible, NumberAfter, Has;
    var x := MonthsToDrop(m);
    DropsByOne(m, LeapPossible(e));
    forall i | 1 <= i <= x ensures !Has(e.fields.month, NumberAfter(m, i)) { NumberModulo(m, i); }
    assert AstrayAt(e, m, x);
  }

  lemma AstrayIsLate(e: CustomCronExpr, m: int, a: int, x: int)
    requires OnlyMonth(e.fields, m) && AstrayAt(e, a, x)
    ensures (e.year == ANY_YEAR || m <= 10) && LateDay(e.fields, m, 1, LeapPossible(e))
  {
    hide Drop, LeapPossible, NumberAfter, Has, DaysIn, WeekdayDecides, DayDecides;
    assert a == m;
    if e.year != ANY_YEAR && m > 10 { NoDropAtYearEnd(m, x, LeapPossible(e)); }
  }

  /** Words in range with year `*` give an expression whose search backward is right from every
  start if and only if the month is `*`, or the day is 1 and the weekday `*`. */
  lemma InRangeFindsIff(w: seq<string>)
    requires WordsInRange(w) && ParseCustomWords(w).Ok? && w[0] == "*"
    ensures (forall t0 :: Finds(ParseCustomWords(w).value, t0)) <==>
              w[1] == "*" || (w[6] == "*" && NumberOf(w[2]) == Some(1))
  {
    WordsGiveStars(w);
    WordsGiveMasks(w);
    InRangeSatisfiable(w);
    assert w[1] == "*" <==> NumberOf(w[1]).None?;
    hide ParseCustomWords, NumberOf, Finds, OfStars, DaysIn, Astray, Satisfiable, InRange, StarOrOne;
    var e := ParseCustomWords(w).value;
    FindsFromAnywhereIff(e);
    AstrayOfStars(e, NumberOf(w[1]), NumberOf(w[2]), NumberOf(w[6]));
  }

  /** With a fixed year also if the month is November or December, or does not have the day. */
  lemma InRangeFindsInYearIff(w: seq<string>)
    requires WordsInRange(w) && ParseCustomWords(w).Ok? && ParseCustomWords(w).value.year != ANY_YEAR
    ensures var e, month, dom := ParseCustomWords(w).value, NumberOf(w[1]), NumberOf(w[2]);
            (forall t0 :: Finds(e, t0)) <==>
              || w[1] == "*" || month.value > 10
              || (w[6] == "*" && dom.Some? && (dom.value == 1 || dom.value > DaysIn(month.value, LeapYear(e.year))))
  {
    WordsGiveStars(w);
    assert w[1] == "*" <==> NumberOf(w[1]).None?;
    hide ParseCustomWords, NumberOf, Finds, OfStars, DaysIn, Astray, Satisfiable, InRange, StarOrOne, LeapYear;
    var e := ParseCustomWords(w).value;
    FindsFromAnywhereIff(e);
    AstrayOfStars(e, NumberOf(w[1]), NumberOf(w[2]), NumberOf(w[6]));
  }

  // ----- All of October

  const OCTOBER_WORDS := ["*", "10", "*", "*", "*", "*"]

  lemma OctoberWords()
    ensures FieldsFunc("*,10,*,*,*,*", ',') == OCTOBER_WORDS
  {
    var w := OCTOBER_WORDS;
    hide FieldsFunc;
    assert Join(w[5..], ',') == "*";
    assert Join(w[4..], ',') == "*,*" by { assert w[4..][1..] == w[5..]; }
    assert Join(w[3..], ',') == "*,*,*" by { assert w[3..][1..] == w[4..]; }
    assert Join(w[2..], ',') == "*,*,*,*" by { assert w[2..][1..] == w[3..]; }
    assert Join(w[1..], ',') == "10,*,*,*,*" by { assert w[1..][1..] == w[2..]; }
    assert Join(w, ',') == "*,10,*,*,*,*";
    FieldsOfJoin(w, ',');
  }

  lemma OctoberMasksParsed()
    ensures ParseCustomWords(OCTOBER_WORDS) == Ok(EVERY_OCTOBER)
  {
    TenNumeral();
    hide ParseInt;
    CustomFieldBits("10", 1, 12); CustomFieldBits("*", 1, 31);
    CustomFieldBits("*", 0, 23); CustomFieldBits("*", 0, 59); CustomFieldBits("*", 0, 6);
    hide ParseCustomCronField;
    assert OCTOBER_WORDS + ["*"] == ["*", "10", "*", "*", "*", "*", "*"];
  }

  lemma TenNumeral()
    ensures ParseInt("10") == Some(10)
  {
    ParseOfFormat(10);
    assert FormatInt(10) == "10";
  }

  /** The text `*,10,*,*,*,*` asks for all of October, and its search backward from anywhere in
  January returns the end of October 30, not of October 31. */
  lemma OctoberTextGives30(y: int, t0: int)
    requires MonthIndex(t0 - 1) == 12 * (y + 1)
    ensures NewCustomCronExpr("*,10,*,*,*,*") == Ok(EVERY_OCTOBER)
    ensures var r := Some(Date(12 * y + 9, 30, 23, 59, 59));
            Returns(EVERY_OCTOBER, t0, r) && !IsPrev(EVERY_OCTOBER, t0, r)
  {
    JanuaryGivesOctober30(y, t0);
    hide Returns, IsPrev, Date, MonthIndex;
    OctoberWords();
    OctoberMasksParsed();
  }
}
