/** From the text of a custom expression to its masks: `parseCustomCronField` and
`NewCustomCronExpr`. */
module CustomCronParser {
  import opened Options
  import opened Results
  import opened Text
  import opened Bits
  import opened Calendar
  import opened Schedule
  import opened Firing
  import opened BackwardMonths
  import opened BackwardPasses
  import opened BackwardEnds
  import opened CronParser
  import opened CustomSchedule

  /** `parseCustomCronField`: a star or one number, which is not checked against the bounds. */
  function ParseCustomCronField(field: string, min: int, max: int): Parsed<Mask>
    requires 0 <= min <= max < 64
  {
    if field == "*" then Ok(RangeMask(min, max))
    else
      var n :- Number(field, InvalidNumber);
      Ok(RangeMask(n, n))
  }

  /** The mask of a number is that number's bit, or empty when there is no such bit. */
  lemma CustomFieldBits(field: string, min: int, max: int)
    requires 0 <= min <= max < 64
    ensures var r := ParseCustomCronField(field, min, max);
            if field == "*" then r == Ok(Run(min, max))
            else if ParseInt(field).Some? then r == Ok(Run(ParseInt(field).value, ParseInt(field).value))
            else r.Err?
  {
    hide ParseInt;
    RangeMaskIsRun(min, max);
    if field != "*" && ParseInt(field).Some? { RangeMaskIsRun(ParseInt(field).value, ParseInt(field).value); }
  }

  /** The words year, month, day, hour, minute, second and, if given, weekday. */
  function ParseCustomWords(words: seq<string>): Parsed<CustomCronExpr> {
    if |words| != 6 && |words| != 7 then Err(WrongFieldCount)
    else
      var w := if |words| == 6 then words + ["*"] else words;
      var year :- if w[0] == "*" then Ok(ANY_YEAR) else Number(w[0], InvalidNumber);
      var month :- ParseCustomCronField(w[1], 1, 12);
      var dom :- ParseCustomCronField(w[2], 1, 31);
      var hour :- ParseCustomCronField(w[3], 0, 23);
      var min :- ParseCustomCronField(w[4], 0, 59);
      var sec :- ParseCustomCronField(w[5], 0, 59);
      var dow :- ParseCustomCronField(w[6], 0, 6);
      Ok(CustomCronExpr(Fields(sec, min, hour, dom, month, dow), year))
  }

  function NewCustomCronExpr(expr: string): Parsed<CustomCronExpr> {
    ParseCustomWords(FieldsFunc(expr, ','))
  }

  predicate InRange(field: string, min: int, max: int) {
    field == "*" || (ParseInt(field).Some? && min <= ParseInt(field).value <= max)
  }

  /** A mask that a custom field in range can give. */
  ghost predicate StarOrOne(m: Mask, min: int, max: int, n: Option<int>) {
    match n case None => m == Run(min, max) case Some(v) => min <= v <= max && m == Run(v, v)
  }

  /** The number of a field, none for the star. */
  function NumberOf(field: string): Option<int> {
    if field == "*" then None else ParseInt(field)
  }

  /** The words with the weekday filled in, and all but the year inside their bounds. */
  predicate WordsInRange(w: seq<string>) {
    && |w| == 7
    && InRange(w[1], 1, 12) && InRange(w[2], 1, 31) && InRange(w[3], 0, 23)
    && InRange(w[4], 0, 59) && InRange(w[5], 0, 59) && InRange(w[6], 0, 6)
  }

  lemma RunSelects(m: Mask, min: int, max: int, n: Option<int>)
    requires 0 <= min <= max < 64 && StarOrOne(m, min, max, n)
    ensures Selects(m, min, max)
    ensures forall lo, hi :: min <= lo <= hi <= max ==>
              (Selects(m, lo, hi) <==> n.None? || lo <= n.value <= hi)
  {
    var v := if n.None? then min else n.value;
    assert Has(m, v);
    forall lo, hi | min <= lo <= hi <= max ensures Selects(m, lo, hi) <==> n.None? || lo <= n.value <= hi {
      if n.None? { assert Has(m, lo); }
      else if lo <= n.value <= hi { assert Has(m, n.value); }
    }
  }

  lemma WordGivesMask(field: string, min: int, max: int)
    requires 0 <= min <= max < 64 && InRange(field, min, max)
    ensures ParseCustomCronField(field, min, max).Ok?
    ensures StarOrOne(ParseCustomCronField(field, min, max).value, min, max, NumberOf(field))
  {
    CustomFieldBits(field, min, max);
  }

  /** In-range words give an expression that can fire unless the weekday is `*` and the month
  and the day are numbers such that the month never has that day. */
  lemma InRangeSatisfiable(w: seq<string>)
    requires WordsInRange(w) && ParseCustomWords(w).Ok?
    ensures var f := ParseCustomWords(w).value.fields;
            Satisfiable(f) <==>
              !(w[6] == "*" && NumberOf(w[1]).Some? && NumberOf(w[2]).Some?
                && NumberOf(w[2]).value > DaysIn(NumberOf(w[1]).value, true))
  {
    WordsGiveMasks(w);
    WeekdayGiven(w);
    hide ParseCustomWords, ParseInt, StarOrOne;
    var f := ParseCustomWords(w).value.fields;
    MasksSatisfiable(f, NumberOf(w[1]), NumberOf(w[2]), NumberOf(w[3]), NumberOf(w[4]), NumberOf(w[5]), NumberOf(w[6]));
  }

  lemma MasksSatisfiable(f: Fields, month: Option<int>, dom: Option<int>, hour: Option<int>,
                         min: Option<int>, sec: Option<int>, dow: Option<int>)
    requires StarOrOne(f.month, 1, 12, month) && StarOrOne(f.dom, 1, 31, dom) && StarOrOne(f.hour, 0, 23, hour)
    requires StarOrOne(f.min, 0, 59, min) && StarOrOne(f.sec, 0, 59, sec) && StarOrOne(f.dow, 0, 6, dow)
    ensures Satisfiable(f) <==>
              !(dow.None? && month.Some? && dom.Some? && dom.value > DaysIn(month.value, true))
  {
    RunSelects(f.hour, 0, 23, hour); RunSelects(f.min, 0, 59, min); RunSelects(f.sec, 0, 59, sec);
    RunSelects(f.dow, 0, 6, dow); RunSelects(f.dom, 1, 31, dom); RunSelects(f.month, 1, 12, month);
    FullMasks(f, dom, dow);
    var m := if month.Some? then month.value else 1;
    assert Has(f.month, m);
    if month.None? { assert DaysIn(1, true) == 31; }
    hide Selects;
    if DayPossible(f, m) {
      assert Satisfiable(f);
    } else {
      assert month.Some?;
      assert forall k :: 1 <= k <= 12 && Has(f.month, k) ==> k == m;
    }
  }

  // ----- The search backward, from the text

  /** The fields of words in range as masks of stars and numbers. */
  lemma MasksEndOfStars(f: Fields, month: Option<int>, dom: Option<int>, hour: Option<int>,
                        min: Option<int>, sec: Option<int>, dow: Option<int>)
    requires StarOrOne(f.month, 1, 12, month) && StarOrOne(f.dom, 1, 31, dom) && StarOrOne(f.hour, 0, 23, hour)
    requires StarOrOne(f.min, 0, 59, min) && StarOrOne(f.sec, 0, 59, sec) && StarOrOne(f.dow, 0, 6, dow)
    ensures MasksEnd(f) <==> !(dow.None? && month.Some? && dom.Some? && dom.value > 29)
  {
    RunSelects(f.hour, 0, 23, hour); RunSelects(f.min, 0, 59, min); RunSelects(f.sec, 0, 59, sec);
    RunSelects(f.dow, 0, 6, dow); RunSelects(f.dom, 1, 31, dom);
    FullMasks(f, dom, dow);
    hide StarOrOne, Selects;
    if month.Some? {
      OneMonth(f, month.value);
      LongestOfOnly(f, month.value);
      hide Longest, Has;
      assert EnteredInTime(f, month.value) <==> !(dow.None? && dom.Some? && dom.value > 29);
    } else {
      AllMonths(f);
      assert Longest(f, 1, 11) == 31;
      assert EnteredInTime(f, 1);
    }
  }

  lemma FullMasks(f: Fields, dom: Option<int>, dow: Option<int>)
    requires StarOrOne(f.dom, 1, 31, dom) && StarOrOne(f.dow, 0, 6, dow)
    ensures (dom.None? <==> f.dom == EVERY_DAY) && (dow.None? <==> f.dow == EVERY_WEEKDAY)
  {
    assert dom.Some? ==> f.dom[1] != f.dom[2] || !f.dom[1];
    assert dow.Some? ==> f.dow[0] != f.dow[1] || !f.dow[0];
  }

  lemma OneMonth(f: Fields, n: int)
    requires StarOrOne(f.month, 1, 12, Some(n))
    ensures OnlyMonth(f, n)
  {
  }

  lemma AllMonths(f: Fields)
    requires StarOrOne(f.month, 1, 12, None)
    ensures EveryMonth(f) && Has(f.month, 1) && Has(f.month, 2) && DaysIn(1, true) == 31
  {
  }

  lemma WordsGiveMasks(w: seq<string>)
    requires WordsInRange(w) && ParseCustomWords(w).Ok?
    ensures var f := ParseCustomWords(w).value.fields;
            && StarOrOne(f.month, 1, 12, NumberOf(w[1])) && StarOrOne(f.dom, 1, 31, NumberOf(w[2]))
            && StarOrOne(f.hour, 0, 23, NumberOf(w[3])) && StarOrOne(f.min, 0, 59, NumberOf(w[4]))
            && StarOrOne(f.sec, 0, 59, NumberOf(w[5])) && StarOrOne(f.dow, 0, 6, NumberOf(w[6]))
    ensures w[0] == "*" ==> ParseCustomWords(w).value.year == ANY_YEAR
  {
    WordGivesMask(w[1], 1, 12); WordGivesMask(w[2], 1, 31); WordGivesMask(w[3], 0, 23);
    WordGivesMask(w[4], 0, 59); WordGivesMask(w[5], 0, 59); WordGivesMask(w[6], 0, 6);
    hide ParseCustomCronField, ParseInt, StarOrOne, InRange;
  }

  /** Words in range with year `*` give an expression whose search backward ends from every start,
  unless the weekday is `*`, the month a number, and the day 30 or 31: the search enters a lone
  month on day 29 at the latest. */
  lemma InRangeEndsIff(w: seq<string>)
    requires WordsInRange(w) && ParseCustomWords(w).Ok? && w[0] == "*"
    ensures (forall t0 :: Ends(ParseCustomWords(w).value, t0)) <==>
              !(w[6] == "*" && NumberOf(w[1]).Some? && NumberOf(w[2]).Some? && NumberOf(w[2]).value > 29)
  {
    WordsGiveMasks(w);
    hide ParseCustomWords, ParseInt, StarOrOne, Ends, MasksEnd;
    var e := ParseCustomWords(w).value;
    MasksEndOfStars(e.fields, NumberOf(w[1]), NumberOf(w[2]), NumberOf(w[3]), NumberOf(w[4]), NumberOf(w[5]),
                    NumberOf(w[6]));
    WeekdayGiven(w);
    EndsFromAnywhereIff(e);
  }

  lemma WeekdayGiven(w: seq<string>)
    requires WordsInRange(w)
    ensures NumberOf(w[6]).None? <==> w[6] == "*"
  {
    hide ParseInt;
  }

  /** The text `*,3,31,0,0,0` asks for every March 31, and its search backward ends only if it
  starts on a March 31. */
  lemma March31TextEndsIff(t0: int)
    ensures NewCustomCronExpr("*,3,31,0,0,0") == Ok(EVERY_MARCH_31)
    ensures Ends(EVERY_MARCH_31, t0) <==> Month(t0 - 1) == 3 && Day(t0 - 1) == 31
  {
    March31EndsIff(t0);
    hide Ends, Month, Day;
    March31Words();
    March31Masks();
  }

  const MARCH_31_WORDS := ["*", "3", "31", "0", "0", "0"]

  lemma March31Words()
    ensures FieldsFunc("*,3,31,0,0,0", ',') == MARCH_31_WORDS
  {
    var w := MARCH_31_WORDS;
    hide FieldsFunc;
    assert Join(w[5..], ',') == "0";
    assert Join(w[4..], ',') == "0,0" by { assert w[4..][1..] == w[5..]; }
    assert Join(w[3..], ',') == "0,0,0" by { assert w[3..][1..] == w[4..]; }
    assert Join(w[2..], ',') == "31,0,0,0" by { assert w[2..][1..] == w[3..]; }
    assert Join(w[1..], ',') == "3,31,0,0,0" by { assert w[1..][1..] == w[2..]; }
    assert Join(w, ',') == "*,3,31,0,0,0";
    FieldsOfJoin(w, ',');
  }

  lemma March31Masks()
    ensures ParseCustomWords(MARCH_31_WORDS) == Ok(EVERY_MARCH_31)
  {
    ShortNumerals();
    hide ParseInt;
    CustomFieldBits("3", 1, 12); CustomFieldBits("31", 1, 31);
    CustomFieldBits("0", 0, 23); CustomFieldBits("0", 0, 59); CustomFieldBits("*", 0, 6);
    hide ParseCustomCronField;
    assert MARCH_31_WORDS + ["*"] == ["*", "3", "31", "0", "0", "0", "*"];
  }

  lemma ShortNumerals()
    ensures ParseInt("0") == Some(0) && ParseInt("3") == Some(3) && ParseInt("31") == Some(31)
  {
    ParseOfFormat(0); ParseOfFormat(3); ParseOfFormat(31);
    assert FormatInt(31) == "31";
  }
}
