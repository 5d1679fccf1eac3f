/** From the words of a custom expression to what it means: which texts are accepted, which word
gives which mask, and the year. */
module CustomCronYears {
  import opened Integers
  import opened Options
  import opened Results
  import opened Text
  import opened Bits
  import opened Calendar
  import opened Schedule
  import opened BackwardMonths
  import opened CronParser
  import opened CustomSchedule
  import opened CustomCronParser

  // ----- Acceptance

  /** A star or a number that fits an int64. */
  predicate StarOrNumber(word: string) { word == "*" || ParseInt(word).Some? }

  lemma FieldAcceptedIff(word: string, min: int, max: int)
    requires 0 <= min <= max < 64
    ensures ParseCustomCronField(word, min, max).Ok? <==> StarOrNumber(word)
    ensures ParseCustomCronField(word, min, max).Err? ==> ParseCustomCronField(word, min, max).error == InvalidNumber
  {
    hide ParseInt;
  }

  /** A missing seventh word is a star. */
  lemma SixWords(w: seq<string>)
    requires |w| == 6
    ensures ParseCustomWords(w) == ParseCustomWords(w + ["*"])
  {
    hide ParseCustomCronField;
  }

  ghost predicate AllStarsOrNumbers(w: seq<string>) { forall i :: 0 <= i < |w| ==> StarOrNumber(w[i]) }

  lemma EachOfSeven(w: seq<string>)
    requires |w| == 7
    ensures AllStarsOrNumbers(w) <==>
            && StarOrNumber(w[0]) && StarOrNumber(w[1]) && StarOrNumber(w[2]) && StarOrNumber(w[3])
            && StarOrNumber(w[4]) && StarOrNumber(w[5]) && StarOrNumber(w[6])
  {
    hide StarOrNumber;
  }

  lemma SevenAcceptedIff(w: seq<string>)
    requires |w| == 7
    ensures ParseCustomWords(w).Ok? <==> AllStarsOrNumbers(w)
    ensures ParseCustomWords(w).Err? ==> ParseCustomWords(w).error == InvalidNumber
  {
    FieldAcceptedIff(w[1], 1, 12); FieldAcceptedIff(w[2], 1, 31); FieldAcceptedIff(w[3], 0, 23);
    FieldAcceptedIff(w[4], 0, 59); FieldAcceptedIff(w[5], 0, 59); FieldAcceptedIff(w[6], 0, 6);
    assert StarOrNumber(w[0]) <==> w[0] == "*" || ParseInt(w[0]).Some?;
    EachOfSeven(w);
    hide ParseCustomCronField, ParseInt, StarOrNumber, AllStarsOrNumbers;
  }

  /** Six or seven words are accepted exactly when each is a star or a number; any other number of
  words is refused. */
  lemma CustomAcceptedIff(w: seq<string>)
    ensures ParseCustomWords(w).Ok? <==> 6 <= |w| <= 7 && forall i :: 0 <= i < |w| ==> StarOrNumber(w[i])
    ensures ParseCustomWords(w).Err? ==>
              ParseCustomWords(w).error == if 6 <= |w| <= 7 then InvalidNumber else WrongFieldCount
  {
    if |w| == 7 {
      SevenAcceptedIff(w);
      hide ParseCustomWords;
    } else if |w| == 6 {
      SixWords(w);
      SevenAcceptedIff(w + ["*"]);
      hide ParseCustomWords;
      StarAppended(w);
    }
  }

  lemma StarAppended(w: seq<string>)
    ensures AllStarsOrNumbers(w + ["*"]) <==> AllStarsOrNumbers(w)
  {
    assert StarOrNumber("*");
    hide StarOrNumber;
    assert forall i :: 0 <= i < |w| ==> (w + ["*"])[i] == w[i];
  }

  // ----- The masks and the year

  /** The mask of a word: the whole range for a star, else the bit of its number. */
  function WordMask(word: string, min: int, max: int): Mask
    requires StarOrNumber(word)
  {
    if word == "*" then Run(min, max) else Run(ParseInt(word).value, ParseInt(word).value)
  }

  lemma FieldMask(word: string, min: int, max: int)
    requires 0 <= min <= max < 64 && StarOrNumber(word)
    ensures ParseCustomCronField(word, min, max) == Ok(WordMask(word, min, max))
  {
    CustomFieldBits(word, min, max);
  }

  /** The words are year, month, day, hour, minute, second and weekday. */
  lemma CustomMasks(w: seq<string>)
    requires |w| == 7 && forall i :: 0 <= i < |w| ==> StarOrNumber(w[i])
    ensures ParseCustomWords(w).Ok?
    ensures var f := ParseCustomWords(w).value.fields;
            && f.month == WordMask(w[1], 1, 12) && f.dom == WordMask(w[2], 1, 31) && f.hour == WordMask(w[3], 0, 23)
            && f.min == WordMask(w[4], 0, 59) && f.sec == WordMask(w[5], 0, 59) && f.dow == WordMask(w[6], 0, 6)
    ensures ParseCustomWords(w).value.year == if w[0] == "*" then 2147483647 else ParseInt(w[0]).value
  {
    assert StarOrNumber(w[0]);
    FieldMask(w[1], 1, 12); FieldMask(w[2], 1, 31); FieldMask(w[3], 0, 23);
    FieldMask(w[4], 0, 59); FieldMask(w[5], 0, 59); FieldMask(w[6], 0, 6);
    hide ParseCustomCronField, ParseInt, WordMask;
  }

  /** With a number for the year the expression fires in that year only; with a star, or with the
  number that stands for one, it fires in every year in which the fields match. */
  lemma CustomYear(w: seq<string>, t: int)
    requires |w| == 7 && forall i :: 0 <= i < |w| ==> StarOrNumber(w[i])
    ensures ParseCustomWords(w).Ok?
    ensures var e := ParseCustomWords(w).value;
            Fires(e, t) <==>
              Matches(e.fields, t)
              && (w[0] == "*" || ParseInt(w[0]) == Some(2147483647) || ParseInt(w[0]) == Some(Year(t)))
  {
    CustomMasks(w);
    assert StarOrNumber(w[0]);
    hide ParseCustomWords, ParseInt, Matches, Year;
  }

  // ----- One date

  /** A year, a month, a day and a time, with any weekday. */
  function OneDate(year: int, month: int, dom: int, hour: int, min: int, sec: int): CustomCronExpr {
    var fields := Fields(Run(sec, sec), Run(min, min), Run(hour, hour), Run(dom, dom), Run(month, month), Run(0, 6));
    CustomCronExpr(fields, year)
  }

  /** A date that exists fires exactly once. */
  lemma OneDateFiresOnce(year: int, month: int, dom: int, hour: int, min: int, sec: int, t: int)
    requires 1 <= month <= 12 && 1 <= dom <= MonthLength(12 * year + month - 1) && year != ANY_YEAR
    requires 0 <= hour <= 23 && 0 <= min <= 59 && 0 <= sec <= 59
    ensures Fires(OneDate(year, month, dom, hour, min, sec), t) <==>
            t == Date(12 * year + month - 1, dom, hour, min, sec)
  {
    var e, k := OneDate(year, month, dom, hour, min, sec), 12 * year + month - 1;
    var u := Date(k, dom, hour, min, sec);
    LoneDay(dom);
    MonthNumber(year, month - 1);
    FieldsOfDate(k, dom, hour, min, sec);
    DateOfFields(t);
    hide Date, MonthIndex, Day, Hour, Minute, Second, Weekday, MonthLength;
    if Fires(e, t) {
      assert Month(t) == month && Day(t) == dom && Hour(t) == hour && Minute(t) == min && Second(t) == sec;
      assert MonthIndex(t) == k;
    }
  }

  lemma LoneDay(dom: int)
    requires 1 <= dom <= 31
    ensures Run(dom, dom) != EVERY_DAY && Run(0, 6) == EVERY_WEEKDAY && Has(Run(dom, dom), dom)
  {
    var other := if dom == 1 then 2 else 1;
    assert Run(dom, dom)[other] != EVERY_DAY[other];
  }

  /** From any earlier instant of its year, the last second before it included, the date is what
  `Next` gives. */
  lemma NextIsOneDate(year: int, month: int, dom: int, hour: int, min: int, sec: int, t: int, r: Option<int>)
    requires 1 <= month <= 12 && 1 <= dom <= MonthLength(12 * year + month - 1) && year != ANY_YEAR
    requires 0 <= hour <= 23 && 0 <= min <= 59 && 0 <= sec <= 59
    requires Year(t + 1) == year && t < Date(12 * year + month - 1, dom, hour, min, sec)
    requires IsNext(OneDate(year, month, dom, hour, min, sec), t, r)
    ensures r == Some(Date(12 * year + month - 1, dom, hour, min, sec))
  {
    var e, u := OneDate(year, month, dom, hour, min, sec), Date(12 * year + month - 1, dom, hour, min, sec);
    OneDateFiresOnce(year, month, dom, hour, min, sec, u);
    if r.Some? { OneDateFiresOnce(year, month, dom, hour, min, sec, r.value); }
    hide Date, OneDate, Matches, Year, MonthLength, MonthBegin;
    YearContains(u, year);
    assert e.year == year by { YearOfOneDate(year, month, dom, hour, min, sec); }
  }

  lemma YearOfOneDate(year: int, month: int, dom: int, hour: int, min: int, sec: int)
    ensures OneDate(year, month, dom, hour, min, sec).year == year
  {
  }

  /** The words of a date give that date. */
  lemma WordsOfOneDate(year: int, month: nat, dom: nat, hour: nat, min: nat, sec: nat)
    requires MIN_INT64 <= year <= MAX_INT64 && month <= 63 && dom <= 63 && hour <= 63 && min <= 63 && sec <= 63
    ensures ParseCustomWords([FormatInt(year), FormatInt(month), FormatInt(dom),
                              FormatInt(hour), FormatInt(min), FormatInt(sec)])
            == Ok(OneDate(year, month, dom, hour, min, sec))
  {
    NumberMask(year, 0, 0); NumberMask(month, 1, 12); NumberMask(dom, 1, 31);
    NumberMask(hour, 0, 23); NumberMask(min, 0, 59); NumberMask(sec, 0, 59);
    hide FormatInt, ParseInt, Run, ParseCustomWords, WordMask, StarOrNumber;
    SixMasks(FormatInt(year), FormatInt(month), FormatInt(dom), FormatInt(hour), FormatInt(min), FormatInt(sec));
  }

  lemma SixMasks(year: string, month: string, dom: string, hour: string, min: string, sec: string)
    requires StarOrNumber(year) && year != "*" && StarOrNumber(month) && StarOrNumber(dom)
    requires StarOrNumber(hour) && StarOrNumber(min) && StarOrNumber(sec)
    ensures ParseInt(year).Some?
    ensures ParseCustomWords([year, month, dom, hour, min, sec]) ==
            Ok(CustomCronExpr(Fields(WordMask(sec, 0, 59), WordMask(min, 0, 59), WordMask(hour, 0, 23),
                                     WordMask(dom, 1, 31), WordMask(month, 1, 12), Run(0, 6)), ParseInt(year).value))
  {
    var w := [year, month, dom, hour, min, sec];
    var w7 := [year, month, dom, hour, min, sec, "*"];
    assert w + ["*"] == w7;
    SixWords(w);
    assert StarOrNumber("*") && WordMask("*", 0, 6) == Run(0, 6);
    hide ParseInt, Run, ParseCustomWords, WordMask, StarOrNumber;
    CustomMasks(w7);
  }

  lemma NumberMask(n: int, min: int, max: int)
    requires MIN_INT64 <= n <= MAX_INT64
    ensures FormatInt(n) != "*" && ParseInt(FormatInt(n)) == Some(n) && StarOrNumber(FormatInt(n))
    ensures WordMask(FormatInt(n), min, max) == Run(n, n)
  {
    NumberIsNoStar(n);
    hide FormatInt, ParseInt, Run;
  }

  lemma NumberIsNoStar(n: int)
    requires MIN_INT64 <= n <= MAX_INT64
    ensures FormatInt(n) != "*" && ParseInt(FormatInt(n)) == Some(n)
  {
    ParseOfFormat(n);
  }

  /** The text `2023,8,20,22,22,22` asks for that second, and from the start of 2023 `Next` gives it. */
  lemma August2023(e: CustomCronExpr, r: Option<int>)
    requires NewCustomCronExpr("2023,8,20,22,22,22") == Ok(e)
    requires IsNext(e, Date(12 * 2023, 1, 0, 0, 0) - 1, r) || IsNext(e, Date(12 * 2023, 1, 0, 0, 0), r)
    ensures r == Some(Date(12 * 2023 + 7, 20, 22, 22, 22))
  {
    hide NewCustomCronExpr, IsNext, Date, Year, MonthLength, OneDate;
    AugustText();
    AugustDates();
    if IsNext(e, Date(12 * 2023, 1, 0, 0, 0), r) {
      NextIsOneDate(2023, 8, 20, 22, 22, 22, Date(12 * 2023, 1, 0, 0, 0), r);
    } else {
      NextIsOneDate(2023, 8, 20, 22, 22, 22, Date(12 * 2023, 1, 0, 0, 0) - 1, r);
    }
  }

  lemma AugustDates()
    ensures var t := Date(12 * 2023, 1, 0, 0, 0);
            && t < Date(12 * 2023 + 7, 20, 22, 22, 22) && Year(t) == 2023 && Year(t + 1) == 2023
            && MonthLength(12 * 2023 + 7) == 31
  {
    hide Date, MonthIndex, Day, Hour, Minute, Second, MonthLength, MonthStart;
    MonthLengthAt(2023, 7);
    assert DaysIn(8, LeapYear(2023)) == 31;
    FieldsOfDate(12 * 2023, 1, 0, 0, 0);
    FieldsOfDate(12 * 2023, 1, 0, 0, 1);
    FieldsOfDate(12 * 2023 + 7, 20, 22, 22, 22);
    OneSecondLater();
    var t, u := Date(12 * 2023, 1, 0, 0, 0), Date(12 * 2023 + 7, 20, 22, 22, 22);
    if u <= t { MonthIndexOrdered(u, t); }
  }

  lemma OneSecondLater()
    ensures Date(12 * 2023, 1, 0, 0, 0) + 1 == Date(12 * 2023, 1, 0, 0, 1)
  {
  }

  const AUGUST_WORDS := ["2023", "8", "20", "22", "22", "22"]

  lemma AugustTime()
    ensures Join(AUGUST_WORDS[3..], ',') == "22,22,22"
  {
    var w := AUGUST_WORDS;
    hide Join;
    JoinNext(w, 3); JoinNext(w, 4); JoinNext(w, 5);
  }

  lemma AugustDate()
    ensures Join(AUGUST_WORDS, ',') == "2023,8,20,22,22,22"
  {
    var w := AUGUST_WORDS;
    hide Join;
    AugustTime();
    JoinNext(w, 0); JoinNext(w, 1); JoinNext(w, 2);
    assert w[0..] == w;
  }

  lemma JoinNext(w: seq<string>, k: nat)
    requires k < |w|
    ensures Join(w[k..], ',') == if k == |w| - 1 then w[k] else w[k] + "," + Join(w[k + 1..], ',')
  {
    assert w[k..][1..] == w[k + 1..];
  }

  lemma AugustWords()
    ensures FieldsFunc("2023,8,20,22,22,22", ',') == AUGUST_WORDS
  {
    hide FieldsFunc, Join;
    AugustDate();
    FieldsOfJoin(AUGUST_WORDS, ',');
  }

  lemma AugustNumerals()
    ensures FormatInt(2023) == "2023" && FormatInt(8) == "8" && FormatInt(20) == "20" && FormatInt(22) == "22"
  {
    hide FormatNat;
    OneDigit(2); OneDigit(8);
    AppendDigit(2, 0); AppendDigit(2, 2); AppendDigit(20, 2); AppendDigit(202, 3);
  }

  lemma AugustText()
    ensures NewCustomCronExpr("2023,8,20,22,22,22") == Ok(OneDate(2023, 8, 20, 22, 22, 22))
  {
    hide FormatInt, ParseCustomWords, OneDate, FieldsFunc;
    AugustWords();
    AugustNumerals();
    WordsOfOneDate(2023, 8, 20, 22, 22, 22);
  }
}
