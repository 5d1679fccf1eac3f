/** Which texts the parser of cron expressions accepts, what they mean, and one of them from its
text to its first instant. */
module CronTexts {
  import opened Options
  import opened Results
  import opened Text
  import opened Bits
  import opened Calendar
  import opened Dates
  import opened Schedule
  import opened CronExpr
  import opened CronParser
  import opened FiringTimes

  // ----- The texts of a part

  /** The text of a range without its step: a star, a number, or two numbers with a hyphen. */
  ghost predicate RangeText(text: string, stepped: bool, min: int, max: int, start: int, end: int) {
    || (text == "*" && start == min && end == max)
    || ('-' !in text && text != "*" && ParseInt(text) == Some(start) && end == if stepped then max else start)
    || exists a: string, b: string ::
         text == a + "-" + b && '-' !in a && '-' !in b && a != "*"
         && ParseInt(a) == Some(start) && ParseInt(b) == Some(end)
  }

  /** A range with or without a step. */
  ghost predicate PartText(text: string, min: int, max: int, p: Part) {
    || ('/' !in text && RangeText(text, false, min, max, p.start, p.end) && p.incr == 1)
    || exists range: string, step: string ::
         text == range + "/" + step && '/' !in range && '/' !in step
         && RangeText(range, true, min, max, p.start, p.end) && ParseInt(step) == Some(p.incr)
  }

  lemma {:induction false} JoinOfSplit(s: string, sep: char)
    ensures Join(Split(s, sep), sep) == s
    decreases s
  {
    if s != [] {
      var rest := Split(s[1..], sep);
      JoinOfSplit(s[1..], sep);
      assert s == [s[0]] + s[1..];
      if s[0] == sep {
        assert ([[]] + rest)[1..] == rest;
        assert [] + [sep] + s[1..] == s;
      } else {
        var parts := [[s[0]] + rest[0]] + rest[1..];
        if |rest| > 1 {
          assert parts[1..] == rest[1..];
          assert [s[0]] + (rest[0] + [sep] + Join(rest[1..], sep)) == [s[0]] + rest[0] + [sep] + Join(rest[1..], sep);
        }
      }
    }
  }

  lemma PiecesOfSplit(s: string, sep: char)
    ensures forall w :: w in Split(s, sep) ==> sep !in w
  {
    hide Split;
    forall w | w in Split(s, sep) ensures sep !in w {
      var k :| 0 <= k < |Split(s, sep)| && Split(s, sep)[k] == w;
      SplitPieces(s, sep, k);
    }
  }

  lemma SplitIntoOne(s: string, sep: char)
    ensures |Split(s, sep)| == 1 <==> sep !in s
    ensures sep !in s ==> Split(s, sep) == [s]
  {
    JoinOfSplit(s, sep);
    PiecesOfSplit(s, sep);
    if sep !in s { SplitWord(s, sep); }
    hide Split;
    if |Split(s, sep)| == 1 { assert Split(s, sep)[0] == s; }
  }

  lemma SplitIntoTwo(s: string, sep: char)
    ensures |Split(s, sep)| == 2 ==>
              var x, y := Split(s, sep)[0], Split(s, sep)[1]; s == x + [sep] + y && sep !in x && sep !in y
  {
    JoinOfSplit(s, sep);
    PiecesOfSplit(s, sep);
    hide Split;
    if |Split(s, sep)| == 2 { assert Join(Split(s, sep)[1..], sep) == Split(s, sep)[1]; }
  }

  lemma TwoJoined(x: string, sep: char, y: string)
    requires sep !in x && sep !in y
    ensures Split(x + [sep] + y, sep) == [x, y]
  {
    SplitPrefix(x, sep, y);
    SplitWord(y, sep);
  }

  /** The bounds of a range are read from its text and from no other. */
  lemma RangeIsRead(text: string, stepped: bool, min: int, max: int, start: int, end: int)
    ensures RangeText(text, stepped, min, max, start, end) <==>
            |Split(text, '-')| <= 2 && ParseBounds(Split(text, '-'), stepped, min, max) == Ok((start, end))
  {
    SplitIntoOne(text, '-');
    SplitIntoTwo(text, '-');
    SplitIntoOne("*", '-');
    hide Split, ParseInt;
    if exists a: string, b: string ::
      text == a + "-" + b && '-' !in a && '-' !in b && a != "*"
      && ParseInt(a) == Some(start) && ParseInt(b) == Some(end)
    {
      var a: string, b: string :|
        text == a + "-" + b && '-' !in a && '-' !in b && a != "*"
        && ParseInt(a) == Some(start) && ParseInt(b) == Some(end);
      TwoJoined(a, '-', b);
    }
  }

  lemma PartWithoutStep(text: string, min: int, max: int, p: Part)
    requires '/' !in text
    ensures ParsePart(text, min, max) == Ok(p) <==>
            RangeText(text, false, min, max, p.start, p.end) && min <= p.start <= p.end <= max && p.incr == 1
  {
    SplitIntoOne(text, '/');
    RangeIsRead(text, false, min, max, p.start, p.end);
    hide Split, ParseInt, RangeText, ParseBounds;
    var range := Split(text, '-');
    assert Split(text, '/') == [text];
    assert |range| > 2 ==> ParsePart(text, min, max).Err?;
    if |range| <= 2 {
      var b := ParseBounds(range, false, min, max);
      assert b.Err? ==> ParsePart(text, min, max).Err?;
      if b.Ok? {
        var (start, end) := b.value;
        assert ParsePart(text, min, max).Ok? <==> min <= start <= end <= max;
        assert ParsePart(text, min, max).Ok? ==> ParsePart(text, min, max) == Ok(Part(start, end, 1));
        assert RangeText(text, false, min, max, p.start, p.end) <==> start == p.start && end == p.end;
      }
    }
  }

  lemma PartWithStep(range: string, step: string, min: int, max: int, p: Part)
    requires '/' !in range && '/' !in step
    ensures ParsePart(range + "/" + step, min, max) == Ok(p) <==>
            && RangeText(range, true, min, max, p.start, p.end) && ParseInt(step) == Some(p.incr)
            && min <= p.start <= p.end <= max && p.incr >= 1
  {
    TwoJoined(range, '/', step);
    RangeIsRead(range, true, min, max, p.start, p.end);
    hide Split, ParseInt, RangeText, ParseBounds;
  }

  lemma PartFromText(text: string, min: int, max: int, p: Part)
    requires PartText(text, min, max, p) && min <= p.start <= p.end <= max && p.incr >= 1
    ensures ParsePart(text, min, max) == Ok(p)
  {
    hide ParsePart, RangeText, ParseInt;
    if '/' !in text {
      PartWithoutStep(text, min, max, p);
      TextWithoutStep(text, min, max, p);
    } else {
      var range: string, step: string :|
        text == range + "/" + step && '/' !in range && '/' !in step
        && RangeText(range, true, min, max, p.start, p.end) && ParseInt(step) == Some(p.incr);
      PartWithStep(range, step, min, max, p);
    }
  }

  lemma TextOfPart(text: string, min: int, max: int, p: Part)
    requires ParsePart(text, min, max) == Ok(p)
    ensures PartText(text, min, max, p) && min <= p.start <= p.end <= max && p.incr >= 1
  {
    SplitIntoOne(text, '/');
    SplitIntoTwo(text, '/');
    var pieces := Split(text, '/');
    TooManyPieces(text, min, max);
    hide Split, ParsePart, RangeText, ParseInt;
    if '/' !in text {
      PartWithoutStep(text, min, max, p);
      TextWithoutStep(text, min, max, p);
    } else {
      PartWithStep(pieces[0], pieces[1], min, max, p);
      SteppedText(text, pieces[0], pieces[1], min, max, p);
    }
  }

  /** A part is accepted exactly when its text has one of the six forms, with numbers that lie in
  the bounds of the field and in their order, and a positive step. */
  lemma PartAcceptedIff(text: string, min: int, max: int, p: Part)
    ensures ParsePart(text, min, max) == Ok(p) <==>
            PartText(text, min, max, p) && min <= p.start <= p.end <= max && p.incr >= 1
  {
    if ParsePart(text, min, max) == Ok(p) { TextOfPart(text, min, max, p); }
    if PartText(text, min, max, p) && min <= p.start <= p.end <= max && p.incr >= 1 {
      PartFromText(text, min, max, p);
    }
  }

  lemma SteppedText(text: string, range: string, step: string, min: int, max: int, p: Part)
    requires text == range + "/" + step && '/' !in range && '/' !in step
    requires RangeText(range, true, min, max, p.start, p.end) && ParseInt(step) == Some(p.incr)
    ensures PartText(text, min, max, p)
  {
    hide RangeText, ParseInt;
  }

  lemma TextWithoutStep(text: string, min: int, max: int, p: Part)
    requires '/' !in text
    ensures PartText(text, min, max, p) <==> RangeText(text, false, min, max, p.start, p.end) && p.incr == 1
  {
    hide RangeText, ParseInt;
    forall range: string, step: string ensures '/' in range + "/" + step { SlashInside(range, step); }
  }

  lemma SlashInside(range: string, step: string)
    ensures '/' in range + "/" + step
  {
    assert (range + "/" + step)[|range|] == '/';
  }

  lemma TooManyPieces(text: string, min: int, max: int)
    ensures |Split(text, '/')| > 2 ==> ParsePart(text, min, max).Err?
  {
  }

  /** The errors of a part, in the order in which they are found. */
  lemma PartErrors(text: string, min: int, max: int)
    ensures var pieces := Split(text, '/');
            var ends := Split(pieces[0], '-');
            var stepped := |pieces| == 2;
            var r := ParsePart(text, min, max);
            && (|pieces| > 2 ==> r == Err(TooManySlashes))
            && (|pieces| <= 2 && |ends| > 2 ==> r == Err(TooManyHyphens))
            && (|pieces| <= 2 && |ends| <= 2 ==>
                  && ((forall start, end :: !RangeText(pieces[0], stepped, min, max, start, end)) ==>
                        r == Err(InvalidRange))
                  && (forall start, end :: RangeText(pieces[0], stepped, min, max, start, end) ==>
                        && (start > end ==> r == Err(InvalidRange))
                        && (start <= end && (start < min || end > max) ==> r == Err(OutOfRange))
                        && (min <= start <= end <= max && r.Err? ==> stepped && r == Err(InvalidIncrement))))
  {
    var pieces := Split(text, '/');
    var ends := Split(pieces[0], '-');
    var stepped := |pieces| == 2;
    forall start, end
      ensures RangeText(pieces[0], stepped, min, max, start, end) <==>
              |ends| <= 2 && ParseBounds(ends, stepped, min, max) == Ok((start, end))
    {
      RangeIsRead(pieces[0], stepped, min, max, start, end);
    }
    hide Split, RangeText, ParseInt;
    if |ends| <= 2 && ParseBounds(ends, stepped, min, max).Ok? {
      var b := ParseBounds(ends, stepped, min, max).value;
      assert RangeText(pieces[0], stepped, min, max, b.0, b.1);
    } else if |pieces| <= 2 && |ends| <= 2 {
      BoundsError(ends, stepped, min, max);
    }
  }

  lemma BoundsError(range: seq<string>, stepped: bool, min: int, max: int)
    requires range != []
    ensures ParseBounds(range, stepped, min, max).Err? ==> ParseBounds(range, stepped, min, max).error == InvalidRange
  {
  }

  // ----- The text of a field

  lemma PartsSetTogether(words: seq<string>, parts: seq<Part>, min: int, max: int, b: int)
    requires |parts| == |words|
    requires forall k :: 0 <= k < |words| ==> ParsePart(words[k], min, max) == Ok(parts[k])
    ensures PartsSet(words, |words|, min, max, b) <==> exists k :: 0 <= k < |parts| && PartSets(parts[k], b)
  {
    hide ParsePart, PartSets;
    if k :| 0 <= k < |parts| && PartSets(parts[k], b) { assert ParsePart(words[k], min, max).Ok?; }
  }

  /** A field is what its parts mean together: the parts stand between commas. */
  lemma FieldOfParts(words: seq<string>, parts: seq<Part>, min: int, max: int, m: Mask)
    requires words != [] && |parts| == |words|
    requires forall k :: 0 <= k < |words| ==> ',' !in words[k] && ParsePart(words[k], min, max) == Ok(parts[k])
    ensures FieldMeans(Join(words, ','), min, max, m) <==>
            forall b :: 0 <= b < 64 ==> (m[b] <==> exists k :: 0 <= k < |parts| && PartSets(parts[k], b))
  {
    hide ParsePart, Split, Join, PartSets, PartsSet;
    SplitOfJoin(words, ',');
    assert AllParse(words, |words|, min, max);
    forall b ensures PartsSet(words, |words|, min, max, b) <==> exists k :: 0 <= k < |parts| && PartSets(parts[k], b) {
      PartsSetTogether(words, parts, min, max, b);
    }
    hide AllParse;
  }

  /** A field that is a number selects that number alone. */
  lemma NumberField(n: nat, min: int, max: int, m: Mask)
    requires 0 <= min <= n <= max <= 63 && FieldMeans(FormatInt(n), min, max, m)
    ensures m == Run(n, n)
  {
    hide ParsePart, FormatNat, Split, Join;
    var p := Part(n, n, 1);
    NumeralHasNo(n, ',');
    ParseOfPrintedPart(Single(n), None, min, max);
    OneWord(FormatInt(n), p, min, max, m);
    forall b | 0 <= b < 64 ensures m[b] <==> b == n { }
  }

  /** A field that is a star selects the whole range. */
  lemma StarField(min: int, max: int, m: Mask)
    requires 0 <= min <= max <= 63 && FieldMeans("*", min, max, m)
    ensures m == Run(min, max)
  {
    hide ParsePart, Split, Join;
    ParseOfPrintedPart(Star, None, min, max);
    OneWord("*", Part(min, max, 1), min, max, m);
    forall b | 0 <= b < 64 ensures m[b] <==> min <= b <= max { }
  }

  lemma OneWord(word: string, p: Part, min: int, max: int, m: Mask)
    requires ',' !in word && ParsePart(word, min, max) == Ok(p) && FieldMeans(word, min, max, m)
    ensures forall b :: 0 <= b < 64 ==> (m[b] <==> PartSets(p, b))
  {
    hide ParsePart, PartSets;
    assert Join([word], ',') == word;
    FieldOfParts([word], [p], min, max, m);
    assert [p][0] == p;
  }

  // ----- Texts with numbers

  /** Six words that are numbers select, in this order, a second, a minute, an hour, a day, a month
  and a weekday. */
  lemma SixNumbers(sec: nat, min: nat, hour: nat, dom: nat, month: nat, dow: nat, f: Fields)
    requires sec <= 59 && min <= 59 && hour <= 23 && 1 <= dom <= 31 && 1 <= month <= 12 && dow <= 6
    requires Accepts([FormatInt(sec), FormatInt(min), FormatInt(hour),
                      FormatInt(dom), FormatInt(month), FormatInt(dow)], f)
    ensures f == Fields(Run(sec, sec), Run(min, min), Run(hour, hour), Run(dom, dom), Run(month, month), Run(dow, dow))
  {
    hide FieldMeans, FormatNat, Run;
    NumberField(sec, 0, 59, f.sec);
    NumberField(min, 0, 59, f.min);
    NumberField(hour, 0, 23, f.hour);
    NumberField(dom, 1, 31, f.dom);
    NumberField(month, 1, 12, f.month);
    NumberField(dow, 0, 6, f.dow);
  }

  const SIX_NUMBERS := ["5", "4", "3", "20", "10", "6"]

  const GAPS := [" ", " ", "\t", "  ", "\n", " ", ""]

  lemma LastThreeWords()
    ensures Spaced(GAPS[3..], SIX_NUMBERS[3..]) == "  20\n10 6"
  {
    hide Spaced;
    assert Spaced(GAPS[6..], SIX_NUMBERS[6..]) == "" by { NoMoreWords(GAPS, SIX_NUMBERS); }
    NextWord(GAPS, SIX_NUMBERS, 5);
    NextWord(GAPS, SIX_NUMBERS, 4);
    NextWord(GAPS, SIX_NUMBERS, 3);
  }

  lemma SixNumbersText()
    ensures Spaced(GAPS, SIX_NUMBERS) == " 5 4\t3  20\n10 6"
  {
    hide Spaced;
    LastThreeWords();
    NextWord(GAPS, SIX_NUMBERS, 2);
    NextWord(GAPS, SIX_NUMBERS, 1);
    NextWord(GAPS, SIX_NUMBERS, 0);
    assert GAPS[0..] == GAPS && SIX_NUMBERS[0..] == SIX_NUMBERS;
  }

  lemma SixNumbersWords()
    ensures Words(" 5 4\t3  20\n10 6") == SIX_NUMBERS
  {
    hide Words, Spaced;
    SixNumbersText();
    WordsOfSpaced(GAPS, SIX_NUMBERS);
  }

  lemma NoMoreWords(gaps: seq<string>, words: seq<string>)
    requires |gaps| == |words| + 1
    ensures Spaced(gaps[|words|..], words[|words|..]) == gaps[|words|]
  {
  }

  lemma NextWord(gaps: seq<string>, words: seq<string>, k: nat)
    requires k < |words| && |gaps| == |words| + 1
    ensures Spaced(gaps[k..], words[k..]) == gaps[k] + words[k] + Spaced(gaps[k + 1..], words[k + 1..])
  {
    assert gaps[k..][1..] == gaps[k + 1..] && words[k..][1..] == words[k + 1..];
  }

  lemma SixNumerals()
    ensures FormatInt(5) == "5" && FormatInt(4) == "4" && FormatInt(3) == "3"
    ensures FormatInt(20) == "20" && FormatInt(10) == "10" && FormatInt(6) == "6"
  {
    hide FormatNat;
    OneDigit(5); OneDigit(4); OneDigit(3); OneDigit(6); OneDigit(2); OneDigit(1);
    AppendDigit(2, 0); AppendDigit(1, 0);
  }

  /** On October 20 and on the Saturdays of October, at 03:04:05. */
  const OCTOBER_SATURDAYS := Fields(Run(5, 5), Run(4, 4), Run(3, 3), Run(20, 20), Run(10, 10), Run(6, 6))

  const NEW_YEAR := 63_839_664_000
  const SATURDAY := 63_863_694_245

  lemma NewYearFields()
    ensures Date(12 * 2024, 1, 0, 0, 0) == NEW_YEAR && MonthIndex(NEW_YEAR) == 12 * 2024
  {
    hide Date, MonthIndex, Day, Hour, Minute, Second, MonthLength;
    NewYear2024();
    FieldsOfDate(12 * 2024, 1, 0, 0, 0);
  }

  lemma October2024()
    ensures MonthStart(12 * 2024 + 9) == 739159 && MonthLength(12 * 2024 + 9) == 31
  {
    hide MonthStart, DaysBeforeYear, LeapYear, MonthLength;
    KnownYears();
    MonthStartInYear(2024, 9);
    MonthLengthAt(2024, 9);
    assert DaysIn(10, LeapYear(2024)) == 31;
  }

  lemma SaturdayFields()
    ensures Date(12 * 2024 + 9, 5, 3, 4, 5) == SATURDAY && Weekday(SATURDAY) == 6
    ensures MonthIndex(SATURDAY) == 12 * 2024 + 9 && Day(SATURDAY) == 5
    ensures Hour(SATURDAY) == 3 && Minute(SATURDAY) == 4 && Second(SATURDAY) == 5
  {
    hide MonthIndex, Day, Hour, Minute, Second, MonthLength, MonthStart;
    October2024();
    FieldsOfDate(12 * 2024 + 9, 5, 3, 4, 5);
  }

  lemma SaturdayBits()
    ensures var f := OCTOBER_SATURDAYS;
            && Has(f.sec, 5) && Has(f.min, 4) && Has(f.hour, 3) && Has(f.month, 10) && Has(f.dow, 6)
            && f.dom != EVERY_DAY && f.dow != EVERY_WEEKDAY
  {
    assert OCTOBER_SATURDAYS.dom[1] != EVERY_DAY[1] && OCTOBER_SATURDAYS.dow[0] != EVERY_WEEKDAY[0];
  }

  lemma SaturdayMatches()
    ensures Matches(OCTOBER_SATURDAYS, SATURDAY) && Year(SATURDAY) == 2024
  {
    hide MonthIndex, Day, Hour, Minute, Second, Weekday, Has;
    SaturdayFields();
    SaturdayBits();
  }

  /** The bits of a match, as numbers. */
  lemma SaturdayNumbers(s: int)
    requires Matches(OCTOBER_SATURDAYS, s)
    ensures Month(s) == 10 && Hour(s) == 3 && Minute(s) == 4 && Second(s) == 5 && (Day(s) == 20 || Weekday(s) == 6)
  {
    FieldsAreSelected(OCTOBER_SATURDAYS, s);
    SaturdayBits();
    hide MonthIndex, Day, Hour, Minute, Second, Weekday, Month, Matches;
  }

  /** In October 2024 the days 1 to 4 are no Saturdays. */
  lemma FirstDaysOfOctober(s: int)
    requires MonthIndex(s) == 12 * 2024 + 9 && s < SATURDAY
    ensures 1 <= Day(s) <= 5 && (Day(s) < 5 ==> Weekday(s) != 6)
  {
    October2024();
    hide MonthIndex, MonthLength, MonthStart;
  }

  lemma NothingBeforeSaturday(s: int)
    requires NEW_YEAR <= s < SATURDAY
    ensures !Matches(OCTOBER_SATURDAYS, s)
  {
    hide MonthIndex, Day, Hour, Minute, Second, Weekday, Matches, Date;
    NewYearFields();
    SaturdayFields();
    MonthIndexOrdered(NEW_YEAR, s);
    MonthIndexOrdered(s, SATURDAY);
    if Matches(OCTOBER_SATURDAYS, s) {
      SaturdayNumbers(s);
      FirstDaysOfOctober(s);
      DateOfFields(s);
      DateOfFields(SATURDAY);
    }
  }

  lemma OctoberSaturday(r: Option<int>)
    requires FirstMatch(OCTOBER_SATURDAYS, NEW_YEAR, Horizon(NEW_YEAR - 1), r)
    ensures r == Some(SATURDAY)
  {
    hide Matches, MonthIndex, MonthBegin, Year;
    SaturdayMatches();
    forall s | NEW_YEAR <= s < SATURDAY ensures !Matches(OCTOBER_SATURDAYS, s) { NothingBeforeSaturday(s); }
    NewYearYear();
    YearSpan(SATURDAY, 2025);
  }

  lemma NewYearYear()
    ensures Year(NEW_YEAR) == 2024
  {
    hide MonthIndex;
    NewYearFields();
  }

  /** This text, asked at the start of 2024, gives 03:04:05 on Saturday, 2024-10-05. */
  lemma SixNumbersFire(f: Fields, r: Option<int>)
    requires Accepts(Words(" 5 4\t3  20\n10 6"), f)
    requires var t := Date(12 * 2024, 1, 0, 0, 0) - 1; FirstMatch(f, t + 1, Horizon(t), r)
    ensures r == Some(Date(12 * 2024 + 9, 5, 3, 4, 5))
  {
    hide Words, FormatNat, FirstMatch, Horizon, Date, Accepts, MonthIndex, Day, Hour, Minute, Second, Weekday;
    SixNumbersWords();
    SixNumerals();
    SixNumbers(5, 4, 3, 20, 10, 6, f);
    NewYearFields();
    SaturdayFields();
    OctoberSaturday(r);
  }
}
