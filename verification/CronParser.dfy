/** From the text of an expression to its masks: `parseCronField` with `NewCronExpr`. */
module CronParser {
  import opened Integers
  import opened Options
  import opened Results
  import opened Text
  import opened Bits
  import opened Schedule
  import opened Firing
  import opened CronExpr

  datatype ParseError =
    | TooManySlashes | TooManyHyphens | InvalidRange | OutOfRange | InvalidIncrement
    | WrongFieldCount | InvalidNumber

  type Parsed<T> = Result<T, ParseError>

  // ----- The masks of a range

  /** `uint(i)` as a shift count. */
  function Unsigned(i: int): nat
    requires MIN_INT64 <= i <= MAX_INT64
  {
    if i < 0 then i + 0x1_0000_0000_0000_0000 else i
  }

  /** `^(math.MaxUint64 << uint(end+1)) & (math.MaxUint64 << uint(start))`. */
  function RangeMask(start: int, end: int): Mask
    requires MIN_INT64 <= start <= MAX_INT64 && MIN_INT64 <= end <= MAX_INT64
  {
    And(Not(ShiftLeft(ALL_ONES, Unsigned(WrappingAdd(end, 1)))), ShiftLeft(ALL_ONES, Unsigned(start)))
  }

  /** The shift formula sets exactly the bits from start to end. */
  lemma RangeMaskIsRun(start: int, end: int)
    requires MIN_INT64 <= start <= end <= MAX_INT64
    requires start == end || 0 <= start
    ensures RangeMask(start, end) == Run(start, end)
  {
    forall b | 0 <= b < 64 ensures RangeMask(start, end)[b] <==> start <= b <= end {
    }
  }

  /** b is start or one of the values reached from it in steps of incr, up to end. */
  ghost predicate Denotes(start: int, end: int, incr: int, b: int) {
    exists n: nat :: b == start + n * incr && b <= end
  }

  /** The distance of a step from 2^63. */
  function Gap(incr: int): int { MAX_INT64 + 1 - incr }

  /** The bits that the stepping loop visits.  A step so long that the first addition
  overflows comes back below start, twice its distance from 2^63 lower each time. */
  ghost predicate Visited(start: int, end: int, incr: int, b: int) {
    if start + incr <= MAX_INT64 then Denotes(start, end, incr, b)
    else exists n: nat :: b == start - n * (2 * Gap(incr)) && 0 <= b
  }

  /** b is one of the first n values of the progression. */
  ghost predicate Walked(start: int, step: int, n: nat, b: int) {
    exists k: nat :: k < n && b == start + k * step
  }

  lemma WalkedOneMore(start: int, step: int, n: nat, b: int)
    ensures Walked(start, step, n + 1, b) <==> Walked(start, step, n, b) || b == start + n * step
    ensures start + (n + 1) * step == start + n * step + step
  {
    if Walked(start, step, n + 1, b) {
      var k: nat :| k < n + 1 && b == start + k * step;
    }
  }

  lemma StepsAdd(n: nat, m: int)
    ensures (n + 1) * m == n * m + m
  {
  }

  lemma NegatedSteps(k: nat, m: int)
    ensures k * (-m) == -(k * m)
  {
  }

  lemma WalkIsComplete(start: int, end: int, incr: int, n: nat, b: int)
    requires incr >= 1 && start + n * incr <= end < start + n * incr + incr
    ensures Walked(start, incr, n + 1, b) <==> Denotes(start, end, incr, b)
  {
    if Walked(start, incr, n + 1, b) {
      var k: nat :| k < n + 1 && b == start + k * incr;
      ProductOrdered(k, n, incr);
    }
    if Denotes(start, end, incr, b) {
      var k: nat :| b == start + k * incr && b <= end;
      StepsAdd(n, incr);
      if k >= n + 1 { ProductOrdered(n + 1, k, incr); }
    }
  }

  lemma WalkBackIsComplete(start: int, gap: nat, n: nat, b: int)
    requires start - n * (2 * gap) < gap && b >= 0
    ensures Walked(start, -(2 * gap), n + 1, b) <==> exists k: nat :: b == start - k * (2 * gap) && 0 <= b
  {
    if Walked(start, -(2 * gap), n + 1, b) {
      var k: nat :| k < n + 1 && b == start + k * (-(2 * gap));
      NegatedSteps(k, 2 * gap);
      assert b == start - k * (2 * gap);
    }
    if k: nat :| b == start - k * (2 * gap) {
      StepsAdd(n, 2 * gap);
      if k >= n + 1 { ProductOrdered(n + 1, k, 2 * gap); }
      NegatedSteps(k, 2 * gap);
      assert b == start + k * (-(2 * gap));
    }
  }

  /** The value number n of a progression. */
  function Position(start: int, step: int, n: nat): int { start + n * step }

  /** How far one round of the stepping loop moves, wrap-around included. */
  function Stride(start: int, incr: int): int {
    if start + incr > MAX_INT64 then -(2 * Gap(incr)) else incr
  }

  lemma PositionMoves(start: int, step: int, n: nat)
    ensures Position(start, step, 0) == start
    ensures Position(start, step, n + 1) == Position(start, step, n) + step
  {
    StepsAdd(n, step);
  }

  /** field is base with the first n values of the progression added as bits. */
  ghost predicate AddsWalked(base: Mask, field: Mask, start: int, step: int, n: nat) {
    forall b :: 0 <= b < 64 ==> (field[b] <==> base[b] || Walked(start, step, n, b))
  }

  ghost predicate AddsVisited(base: Mask, field: Mask, start: int, end: int, incr: int) {
    forall b :: 0 <= b < 64 ==> (field[b] <==> base[b] || Visited(start, end, incr, b))
  }

  lemma AddOne(base: Mask, field: Mask, start: int, step: int, n: nat)
    requires AddsWalked(base, field, start, step, n)
    requires MIN_INT64 <= Position(start, step, n) <= MAX_INT64
    ensures AddsWalked(base, Or(field, ShiftLeft(ONE, Unsigned(Position(start, step, n)))), start, step, n + 1)
  {
    var u := Unsigned(Position(start, step, n));
    forall b | 0 <= b < 64
      ensures Or(field, ShiftLeft(ONE, u))[b] <==> base[b] || Walked(start, step, n + 1, b)
    {
      WalkedOneMore(start, step, n, b);
    }
  }

  lemma AddNone(field: Mask, i: int)
    requires MIN_INT64 <= i < 0
    ensures Or(field, ShiftLeft(ONE, Unsigned(i))) == field
  {
  }

  lemma NothingWalked(field: Mask, start: int, step: int)
    ensures AddsWalked(field, field, start, step, 0)
  {
  }

  /** The round after which i exceeds end completes the visited bits. */
  lemma WalkDone(base: Mask, field: Mask, start: int, end: int, incr: int, n: nat)
    requires 0 <= start <= end < 64 && 1 <= incr <= MAX_INT64
    requires AddsWalked(base, field, start, Stride(start, incr), n + 1)
    requires var x := Position(start, Stride(start, incr), n);
             x <= end && WrappingAdd(x, incr) > end && (start + incr <= MAX_INT64 ==> start <= x)
    ensures AddsVisited(base, field, start, end, incr)
  {
    if start + incr > MAX_INT64 { NegatedSteps(n, 2 * Gap(incr)); }
    forall b | 0 <= b < 64 ensures field[b] <==> base[b] || Visited(start, end, incr, b) {
      if start + incr > MAX_INT64 {
        WalkBackIsComplete(start, Gap(incr), n, b);
      } else {
        WalkIsComplete(start, end, incr, n, b);
      }
    }
  }

  /** `for i := start; i <= end; i += incr { cronField |= 1 << uint(i) }`. */
  method SetSteps(field0: Mask, start: int, end: int, incr: int) returns (field: Mask)
    requires 0 <= start <= end < 64 && 1 <= incr <= MAX_INT64
    ensures AddsVisited(field0, field, start, end, incr)
  {
    hide AddsWalked, AddsVisited, ShiftLeft, Or, Position;
    field := field0;
    var i := start;
    ghost var overflow := start + incr > MAX_INT64;
    ghost var gap, step := Gap(incr), Stride(start, incr);
    ghost var n: nat, x := 0, start;
    NothingWalked(field0, start, step);
    PositionMoves(start, step, 0);
    while i <= end
      invariant MIN_INT64 <= i <= MAX_INT64
      invariant i <= end ==> x == Position(start, step, n) && -gap <= x <= end
      invariant i <= end ==> i == x || (overflow && i == x - incr)
      invariant i <= end && !overflow ==> start <= x && (start < x ==> incr < 64)
      invariant i <= end ==> AddsWalked(field0, field, start, step, n)
      invariant i > end ==> AddsVisited(field0, field, start, end, incr)
      decreases if i > end then 0 else if overflow then 2 * (x + gap) + (if i == x then 1 else 2) else end - x + 1
    {
      if i == x {
        AddOne(field0, field, start, step, n);
      } else {
        AddNone(field, i);
      }
      field := Or(field, ShiftLeft(ONE, Unsigned(i)));
      if i == x {
        if WrappingAdd(i, incr) > end { WalkDone(field0, field, start, end, incr, n); }
        PositionMoves(start, step, n);
        x, n := x + step, n + 1;
      }
      i := WrappingAdd(i, incr);
    }
  }

  /** The loop sets exactly the denoted bits if and only if the step keeps its distance from
  2^63: otherwise the bit at `start - 2 * Gap(incr)` is set although it lies before start. */
  lemma StepsAreDenotedExactly(start: int, end: int, incr: int)
    requires 0 <= start <= end < 64 && 1 <= incr <= MAX_INT64
    ensures (forall b :: 0 <= b < 64 ==> (Visited(start, end, incr, b) <==> Denotes(start, end, incr, b)))
            <==> start < 2 * Gap(incr)
  {
    var gap := Gap(incr);
    if start + incr > MAX_INT64 {
      assert start == start - 0 * (2 * gap);
      assert start == start + 0 * incr;
      forall b | 0 <= b < 64 ensures Denotes(start, end, incr, b) <==> b == start {
        if n: nat :| b == start + n * incr && b <= end {
          if n >= 1 { ProductOrdered(1, n, incr); }
        }
      }
      if start < 2 * gap {
        forall b | 0 <= b < 64 ensures Visited(start, end, incr, b) <==> b == start {
          if n: nat :| b == start - n * (2 * gap) {
            if n >= 1 { ProductOrdered(1, n, 2 * gap); }
          }
        }
      } else {
        var b := start - 1 * (2 * gap);
        assert Visited(start, end, incr, b) && b != start;
      }
    }
  }

  // ----- One comma-separated part of a field

  datatype Part = Part(start: int, end: int, incr: int)

  function Number(s: string, error: ParseError): Parsed<int> {
    match ParseInt(s)
    case Some(n) => Ok(n)
    case None => Err(error)
  }

  /** The bounds that a part gives, before they are checked. */
  function ParseBounds(range: seq<string>, stepped: bool, min: int, max: int): Parsed<(int, int)>
    requires range != []
  {
    if range[0] == "*" then (if |range| != 1 then Err(InvalidRange) else Ok((min, max)))
    else
      var start :- Number(range[0], InvalidRange);
      if |range| == 1 then Ok((start, if stepped then max else start))
      else
        var end :- Number(range[1], InvalidRange);
        Ok((start, end))
  }

  function ParsePart(text: string, min: int, max: int): (r: Parsed<Part>)
    ensures r.Ok? ==> min <= r.value.start <= r.value.end <= max && 1 <= r.value.incr <= MAX_INT64
  {
    var rangeAndIncr := Split(text, '/');
    if |rangeAndIncr| > 2 then Err(TooManySlashes)
    else
      var range := Split(rangeAndIncr[0], '-');
      if |range| > 2 then Err(TooManyHyphens)
      else
        var (start, end) :- ParseBounds(range, |rangeAndIncr| == 2, min, max);
        if start > end then Err(InvalidRange)
        else if start < min || end > max then Err(OutOfRange)
        else if |rangeAndIncr| == 1 then Ok(Part(start, end, 1))
        else
          var incr :- Number(rangeAndIncr[1], InvalidIncrement);
          if incr <= 0 then Err(InvalidIncrement) else Ok(Part(start, end, incr))
  }

  /** How a part is written: `*`, `a`, `a-b`, each with an optional `/step`. */
  datatype PartSyntax = Star | Single(a: int) | Span(a: int, b: int)

  function PrintPart(p: PartSyntax, step: Option<int>): string {
    var range := match p
                 case Star => "*"
                 case Single(a) => FormatInt(a)
                 case Span(a, b) => FormatInt(a) + "-" + FormatInt(b);
    match step
    case None => range
    case Some(n) => range + "/" + FormatInt(n)
  }

  /** What the syntax means: a single number with a step runs to the end of the field. */
  function PartMeaning(p: PartSyntax, step: Option<int>, min: int, max: int): Part {
    var incr := match step case None => 1 case Some(n) => n;
    match p
    case Star => Part(min, max, incr)
    case Single(a) => Part(a, if step.None? then a else max, incr)
    case Span(a, b) => Part(a, b, incr)
  }

  predicate InField(p: Part, min: int, max: int) {
    min <= p.start <= p.end <= max && 1 <= p.incr <= MAX_INT64
  }

  lemma NumeralHasNo(n: nat, c: char)
    requires !IsDigit(c)
    ensures c !in FormatNat(n) && FormatNat(n) != "*"
  {
  }

  predicate Writable(p: PartSyntax) {
    match p
    case Star => true
    case Single(a) => 0 <= a <= MAX_INT64
    case Span(a, b) => 0 <= a <= MAX_INT64 && 0 <= b <= MAX_INT64
  }

  lemma SplitRange(p: PartSyntax)
    requires Writable(p)
    ensures '/' !in PrintPart(p, None)
    ensures Split(PrintPart(p, None), '-') ==
            match p
            case Star => ["*"]
            case Single(a) => [FormatInt(a)]
            case Span(a, b) => [FormatInt(a), FormatInt(b)]
  {
    match p
    case Star => SplitWord("*", '-');
    case Single(a) =>
      NumeralHasNo(a, '-'); NumeralHasNo(a, '/');
      SplitWord(FormatInt(a), '-');
    case Span(a, b) =>
      NumeralHasNo(a, '-'); NumeralHasNo(a, '/');
      NumeralHasNo(b, '-'); NumeralHasNo(b, '/');
      SplitWord(FormatInt(b), '-');
      SplitPrefix(FormatInt(a), '-', FormatInt(b));
  }

  lemma SplitStep(range: string, step: Option<int>)
    requires '/' !in range && (step.Some? ==> 0 <= step.value)
    ensures Split(match step case None => range case Some(n) => range + "/" + FormatInt(n), '/') ==
            match step case None => [range] case Some(n) => [range, FormatInt(n)]
  {
    match step
    case None => SplitWord(range, '/');
    case Some(n) =>
      NumeralHasNo(n, '/');
      SplitWord(FormatInt(n), '/');
      SplitPrefix(range, '/', FormatInt(n));
  }

  lemma BoundsOfPrinted(p: PartSyntax, step: Option<int>, min: int, max: int)
    requires Writable(p)
    ensures var m := PartMeaning(p, step, min, max);
            ParseBounds(Split(PrintPart(p, None), '-'), step.Some?, min, max) == Ok((m.start, m.end))
  {
    hide Split, ParseInt;
    SplitRange(p);
    match p
    case Star =>
    case Single(a) => NumeralHasNo(a, '*'); ParseOfFormat(a);
    case Span(a, b) => NumeralHasNo(a, '*'); ParseOfFormat(a); ParseOfFormat(b);
  }

  /** Every form of a part, with bounds inside the field, is read back with its meaning. */
  lemma ParseOfPrintedPart(p: PartSyntax, step: Option<int>, min: int, max: int)
    requires 0 <= min <= max <= 63 && InField(PartMeaning(p, step, min, max), min, max)
    ensures ParsePart(PrintPart(p, step), min, max) == Ok(PartMeaning(p, step, min, max))
  {
    assert Writable(p);
    SplitRange(p);
    hide Split, ParseInt, FormatInt, ParseBounds;
    var range := PrintPart(p, None);
    SplitStep(range, step);
    if step.Some? { ParseOfFormat(step.value); }
    BoundsOfPrinted(p, step, min, max);
    hide PartMeaning;
    assert |Split(range, '-')| <= 2;
    assert Split(PrintPart(p, step), '/')[0] == range;
  }

  // ----- A field

  /** The bits that a part contributes. */
  ghost predicate PartSets(p: Part, b: int) {
    if p.incr == 1 then p.start <= b <= p.end else Visited(p.start, p.end, p.incr, b)
  }

  /** The bits of the first n parts. */
  ghost predicate PartsSet(parts: seq<string>, n: nat, min: int, max: int, b: int)
    requires n <= |parts|
  {
    exists k :: 0 <= k < n && ParsePart(parts[k], min, max).Ok? && PartSets(ParsePart(parts[k], min, max).value, b)
  }

  ghost predicate AllParse(parts: seq<string>, n: nat, min: int, max: int)
    requires n <= |parts|
  {
    forall k :: 0 <= k < n ==> ParsePart(parts[k], min, max).Ok?
  }

  /** Part k is the first one that is malformed, with error e. */
  ghost predicate FailsAt(parts: seq<string>, k: nat, min: int, max: int, e: ParseError) {
    k < |parts| && AllParse(parts, k, min, max) && ParsePart(parts[k], min, max) == Err(e)
  }

  ghost predicate MaskOfParts(parts: seq<string>, n: nat, min: int, max: int, m: Mask)
    requires n <= |parts|
  {
    AllParse(parts, n, min, max) && forall b :: 0 <= b < 64 ==> (m[b] <==> PartsSet(parts, n, min, max, b))
  }

  /** The mask is the meaning of the text of a field. */
  ghost predicate FieldMeans(field: string, min: int, max: int, m: Mask) {
    var parts := Split(field, ',');
    MaskOfParts(parts, |parts|, min, max, m)
  }

  lemma OneMorePart(parts: seq<string>, n: nat, min: int, max: int, before: Mask, after: Mask)
    requires n < |parts| && MaskOfParts(parts, n, min, max, before)
    requires ParsePart(parts[n], min, max).Ok?
    requires forall b :: 0 <= b < 64 ==>
               (after[b] <==> before[b] || PartSets(ParsePart(parts[n], min, max).value, b))
    ensures MaskOfParts(parts, n + 1, min, max, after)
  {
    hide ParsePart, PartSets;
    forall b | 0 <= b < 64 ensures after[b] <==> PartsSet(parts, n + 1, min, max, b) {
      if PartsSet(parts, n + 1, min, max, b) {
        var k :| 0 <= k < n + 1 && ParsePart(parts[k], min, max).Ok?
                 && PartSets(ParsePart(parts[k], min, max).value, b);
        if k < n { assert PartsSet(parts, n, min, max, b); }
      }
    }
  }

  method ParseCronField(field: string, min: int, max: int) returns (r: Parsed<Mask>)
    requires 0 <= min <= max < 64
    ensures r.Ok? ==> FieldMeans(field, min, max, r.value)
    ensures r.Err? ==> exists k: nat :: FailsAt(Split(field, ','), k, min, max, r.error)
  {
    hide ParsePart, Visited, AddsVisited, RangeMask, Or, Run;
    var parts := Split(field, ',');
    var cronField: Mask := ZERO;
    ZeroIsEmpty();
    for n := 0 to |parts|
      invariant MaskOfParts(parts, n, min, max, cronField)
    {
      var part := ParsePart(parts[n], min, max);
      if part.Err? {
        assert FailsAt(parts, n, min, max, part.error);
        return Err(part.error);
      }
      var Part(start, end, incr) := part.value;
      ghost var before := cronField;
      if incr == 1 {
        cronField := Or(cronField, RangeMask(start, end));
        RangeMaskIsRun(start, end);
        OrRun(before, start, end);
      } else {
        cronField := SetSteps(cronField, start, end, incr);
        UnfoldVisited(before, cronField, start, end, incr);
      }
      OneMorePart(parts, n, min, max, before, cronField);
    }
    return Ok(cronField);
  }

  lemma ZeroIsEmpty()
    ensures forall b :: 0 <= b < 64 ==> !ZERO[b]
  {
  }

  lemma OrRun(m: Mask, start: int, end: int)
    ensures forall b :: 0 <= b < 64 ==> (Or(m, Run(start, end))[b] <==> m[b] || start <= b <= end)
  {
  }

  lemma UnfoldVisited(base: Mask, m: Mask, start: int, end: int, incr: int)
    requires AddsVisited(base, m, start, end, incr)
    ensures forall b :: 0 <= b < 64 ==> (m[b] <==> base[b] || Visited(start, end, incr, b))
  {
  }

  /** Every accepted field selects something between its bounds. */
  lemma AcceptedFieldSelects(field: string, min: int, max: int, m: Mask)
    requires 0 <= min <= max < 64 && FieldMeans(field, min, max, m)
    ensures Selects(m, min, max)
  {
    var parts := Split(field, ',');
    assert ParsePart(parts[0], min, max).Ok?;
    var part := ParsePart(parts[0], min, max).value;
    hide ParsePart;
    var b := part.start;
    assert b == part.start + 0 * part.incr && b == part.start - 0 * (2 * Gap(part.incr));
    assert PartSets(part, b);
    assert PartsSet(parts, |parts|, min, max, b);
    assert m[b] && Has(m, b);
  }

  /** The step of a part stays far enough from 2^63 for its loop not to come back below start. */
  predicate StepSafe(p: Part) {
    p.start < 2 * Gap(p.incr)
  }

  lemma SafePartSetsDenoted(p: Part, min: int, max: int, b: int)
    requires 0 <= min <= max < 64 && InField(p, min, max) && StepSafe(p) && 0 <= b < 64
    ensures PartSets(p, b) <==> Denotes(p.start, p.end, p.incr, b)
  {
    if p.incr == 1 {
      if p.start <= b <= p.end { assert b == p.start + (b - p.start) * 1; }
    } else {
      StepsAreDenotedExactly(p.start, p.end, p.incr);
    }
  }

  /** What part k of a field means. */
  function PartAt(field: string, min: int, max: int, k: nat): (p: Part)
    requires k < |Split(field, ',')| && ParsePart(Split(field, ',')[k], min, max).Ok?
    ensures InField(p, min, max)
  {
    ParsePart(Split(field, ',')[k], min, max).value
  }

  /** A bit of an accepted field comes from one of its parts. */
  lemma BitFromPart(field: string, min: int, max: int, m: Mask, b: int) returns (k: nat)
    requires FieldMeans(field, min, max, m) && 0 <= b < 64 && m[b]
    ensures k < |Split(field, ',')| && ParsePart(Split(field, ',')[k], min, max).Ok?
    ensures PartSets(PartAt(field, min, max, k), b)
  {
    hide ParsePart, Split, PartSets;
    var parts := Split(field, ',');
    assert PartsSet(parts, |parts|, min, max, b);
    k :| 0 <= k < |parts| && ParsePart(parts[k], min, max).Ok? && PartSets(ParsePart(parts[k], min, max).value, b);
  }

  lemma PartGivesBit(field: string, min: int, max: int, m: Mask, b: int, k: nat)
    requires FieldMeans(field, min, max, m) && 0 <= b < 64 && k < |Split(field, ',')|
    requires ParsePart(Split(field, ',')[k], min, max).Ok? && PartSets(PartAt(field, min, max, k), b)
    ensures m[b]
  {
    hide ParsePart, Split, PartSets;
    var parts := Split(field, ',');
    assert PartsSet(parts, |parts|, min, max, b);
  }

  /** Every part of the field has a step that is safe. */
  ghost predicate StepsSafe(field: string, min: int, max: int) {
    forall k: nat :: k < |Split(field, ',')| && ParsePart(Split(field, ',')[k], min, max).Ok? ==>
      StepSafe(PartAt(field, min, max, k))
  }

  ghost predicate PartDenotes(field: string, min: int, max: int, k: nat, b: int) {
    && k < |Split(field, ',')| && ParsePart(Split(field, ',')[k], min, max).Ok?
    && var p := PartAt(field, min, max, k); Denotes(p.start, p.end, p.incr, b)
  }

  /** The bits of a field whose steps are safe are those that some part denotes. */
  lemma FieldSetsDenoted(field: string, min: int, max: int, m: Mask, b: int)
    requires 0 <= min <= max < 64 && FieldMeans(field, min, max, m) && 0 <= b < 64
    requires StepsSafe(field, min, max)
    ensures m[b] <==> exists k: nat :: PartDenotes(field, min, max, k, b)
  {
    hide ParsePart, Split, PartSets, Denotes, StepSafe, FieldMeans, PartAt;
    if m[b] {
      var k := BitFromPart(field, min, max, m, b);
      SafePartSetsDenoted(PartAt(field, min, max, k), min, max, b);
      assert PartDenotes(field, min, max, k, b);
    }
    if exists k: nat :: PartDenotes(field, min, max, k, b) {
      var k: nat :| PartDenotes(field, min, max, k, b);
      SafePartSetsDenoted(PartAt(field, min, max, k), min, max, b);
      PartGivesBit(field, min, max, m, b, k);
    }
  }

  // ----- Bits outside the bounds

  /** The step does not overflow, or comes back in strides that stay at min or above. */
  predicate StaysInBounds(p: Part, min: int)
    requires p.incr <= MAX_INT64
  {
    p.incr == 1 || p.start + p.incr <= MAX_INT64 || min <= p.start % (2 * Gap(p.incr))
  }

  lemma DenotedInBounds(start: int, end: int, incr: int, b: int)
    requires incr >= 1 && Denotes(start, end, incr, b)
    ensures start <= b <= end
  {
    var n: nat :| b == start + n * incr && b <= end;
    ProductOrdered(0, n, incr);
  }

  lemma StridesAbove(start: int, stride: int, n: nat)
    requires start >= 0 && stride >= 1 && 0 <= start - n * stride
    ensures start % stride <= start - n * stride <= start
  {
    var q, r := start / stride, start % stride;
    assert start == q * stride + r;
    ProductOrdered(0, n, stride);
    if n > q {
      ProductOrdered(q + 1, n, stride);
      StepsAdd(q, stride);
    } else {
      ProductOrdered(n, q, stride);
    }
  }

  lemma LowestStride(start: int, stride: int) returns (n: nat)
    requires start >= 0 && stride >= 1
    ensures start % stride == start - n * stride && 0 <= start % stride <= start
  {
    n := start / stride;
    assert start == n * stride + start % stride;
    ProductOrdered(0, n, stride);
  }

  /** A part sets no bit outside the bounds of its field if and only if its step stays in them. */
  lemma PartInBoundsIff(p: Part, min: int, max: int)
    requires 0 <= min <= max < 64 && InField(p, min, max)
    ensures (forall b :: 0 <= b < 64 && PartSets(p, b) ==> min <= b <= max) <==> StaysInBounds(p, min)
  {
    if p.incr != 1 {
      var stride := 2 * Gap(p.incr);
      if p.start + p.incr <= MAX_INT64 {
        forall b | PartSets(p, b) ensures min <= b <= max { DenotedInBounds(p.start, p.end, p.incr, b); }
      } else {
        var n := LowestStride(p.start, stride);
        var lowest := p.start % stride;
        assert PartSets(p, lowest);
        forall b | PartSets(p, b) ensures lowest <= b <= max {
          var i: nat :| b == p.start - i * stride && 0 <= b;
          StridesAbove(p.start, stride, i);
        }
      }
    }
  }

  /** Every part of the field stays inside the bounds. */
  ghost predicate PartsStayInBounds(field: string, min: int, max: int) {
    forall k: nat :: k < |Split(field, ',')| && ParsePart(Split(field, ',')[k], min, max).Ok? ==>
      StaysInBounds(PartAt(field, min, max, k), min)
  }

  /** The mask of an accepted field lies inside the bounds if and only if all its parts do. */
  lemma AcceptedFieldInBoundsIff(field: string, min: int, max: int, m: Mask)
    requires 0 <= min <= max < 64 && FieldMeans(field, min, max, m)
    ensures (forall b :: 0 <= b < 64 && m[b] ==> min <= b <= max) <==> PartsStayInBounds(field, min, max)
  {
    hide ParsePart, Split, PartSets, StaysInBounds, FieldMeans, PartAt;
    if PartsStayInBounds(field, min, max) {
      forall b | 0 <= b < 64 && m[b] ensures min <= b <= max {
        var k := BitFromPart(field, min, max, m, b);
        PartInBoundsIff(PartAt(field, min, max, k), min, max);
      }
    } else {
      var k: nat :| k < |Split(field, ',')| && ParsePart(Split(field, ',')[k], min, max).Ok?
                    && !StaysInBounds(PartAt(field, min, max, k), min);
      PartInBoundsIff(PartAt(field, min, max, k), min, max);
      var b :| 0 <= b < 64 && PartSets(PartAt(field, min, max, k), b) && !(min <= b <= max);
      PartGivesBit(field, min, max, m, b, k);
    }
  }

  lemma SafeStepsStay(field: string, min: int, max: int)
    requires 0 <= min <= max < 64 && StepsSafe(field, min, max)
    ensures PartsStayInBounds(field, min, max)
  {
    hide ParsePart, Split;
    forall k: nat | k < |Split(field, ',')| && ParsePart(Split(field, ',')[k], min, max).Ok?
      ensures StaysInBounds(PartAt(field, min, max, k), min)
    {
      SmallModulo(PartAt(field, min, max, k).start, 2 * Gap(PartAt(field, min, max, k).incr));
    }
  }

  lemma SmallModulo(a: int, m: int)
    requires 0 <= a < m
    ensures a % m == a
  {
  }

  /** In a field for the day of the month the part `2/9223372036854775807` is accepted and sets
  bit 0, which no day has. */
  lemma LongStepLeavesBounds(m: Mask)
    requires FieldMeans("2/9223372036854775807", 1, 31, m)
    ensures m[0] && m[2]
    ensures ParsePart("2/9223372036854775807", 1, 31) == Ok(Part(2, 31, MAX_INT64))
  {
    var text := "2/9223372036854775807";
    LongStepText();
    hide ParsePart, FieldMeans, Split;
    SplitWord(text, ',');
    var p := Part(2, 31, MAX_INT64);
    assert PartAt(text, 1, 31, 0) == p;
    assert 2 == 2 - 0 * (2 * Gap(MAX_INT64)) && 0 == 2 - 1 * (2 * Gap(MAX_INT64));
    assert PartSets(p, 0) && PartSets(p, 2);
    PartGivesBit(text, 1, 31, m, 0, 0);
    PartGivesBit(text, 1, 31, m, 2, 0);
  }

  lemma LongStepText()
    ensures ParsePart("2/9223372036854775807", 1, 31) == Ok(Part(2, 31, MAX_INT64))
  {
    hide ParsePart, FormatNat;
    ParseOfPrintedPart(Single(2), Some(MAX_INT64), 1, 31);
    GreatestNumeral();
    OneDigit(2);
    assert FormatInt(2) + "/" + FormatInt(MAX_INT64) == "2/9223372036854775807";
  }

  lemma GreatestNumeral()
    ensures FormatInt(MAX_INT64) == "9223372036854775807"
  {
    hide FormatNat;
    OneDigit(9);
    AppendDigit(9, 2); AppendDigit(92, 2);
    assert FormatNat(922) == "922";
    AppendDigit(922, 3); AppendDigit(9223, 3);
    assert FormatNat(92233) == "92233";
    AppendDigit(92233, 7); AppendDigit(922337, 2);
    assert FormatNat(9223372) == "9223372";
    AppendDigit(9223372, 0); AppendDigit(92233720, 3);
    assert FormatNat(922337203) == "922337203";
    AppendDigit(922337203, 6); AppendDigit(9223372036, 8);
    assert FormatNat(92233720368) == "92233720368";
    AppendDigit(92233720368, 5); AppendDigit(922337203685, 4);
    assert FormatNat(9223372036854) == "9223372036854";
    AppendDigit(9223372036854, 7); AppendDigit(92233720368547, 7);
    assert FormatNat(922337203685477) == "922337203685477";
    AppendDigit(922337203685477, 5); AppendDigit(9223372036854775, 8);
    assert FormatNat(92233720368547758) == "92233720368547758";
    AppendDigit(92233720368547758, 0); AppendDigit(922337203685477580, 7);
    assert FormatNat(9223372036854775807) == "9223372036854775807";
  }

  // ----- Whole expressions

  /** The six masks are the meanings of the six words. */
  ghost predicate Accepts(words: seq<string>, f: Fields) {
    && |words| == 6
    && FieldMeans(words[0], 0, 59, f.sec) && FieldMeans(words[1], 0, 59, f.min) && FieldMeans(words[2], 0, 23, f.hour)
    && FieldMeans(words[3], 1, 31, f.dom) && FieldMeans(words[4], 1, 12, f.month) && FieldMeans(words[5], 0, 6, f.dow)
  }

  ghost predicate FieldFails(field: string, min: int, max: int, e: ParseError) {
    exists k: nat :: FailsAt(Split(field, ','), k, min, max, e)
  }

  ghost predicate FieldParses(field: string, min: int, max: int) {
    AllParse(Split(field, ','), |Split(field, ',')|, min, max)
  }

  ghost predicate AllFieldsParse(words: seq<string>) {
    && |words| == 6
    && FieldParses(words[0], 0, 59) && FieldParses(words[1], 0, 59) && FieldParses(words[2], 0, 23)
    && FieldParses(words[3], 1, 31) && FieldParses(words[4], 1, 12) && FieldParses(words[5], 0, 6)
  }

  /** The first of the six words that is malformed is so with error e. */
  ghost predicate FirstFieldFails(words: seq<string>, e: ParseError)
    requires |words| == 6
  {
    var sec, min, hour := FieldParses(words[0], 0, 59), FieldParses(words[1], 0, 59), FieldParses(words[2], 0, 23);
    var dom, month := FieldParses(words[3], 1, 31), FieldParses(words[4], 1, 12);
    || FieldFails(words[0], 0, 59, e)
    || (sec && FieldFails(words[1], 0, 59, e))
    || (sec && min && FieldFails(words[2], 0, 23, e))
    || (sec && min && hour && FieldFails(words[3], 1, 31, e))
    || (sec && min && hour && dom && FieldFails(words[4], 1, 12, e))
    || (sec && min && hour && dom && month && FieldFails(words[5], 0, 6, e))
  }

  lemma MeaningParses(field: string, min: int, max: int, m: Mask)
    requires FieldMeans(field, min, max, m)
    ensures FieldParses(field, min, max)
  {
  }

  lemma FailureIsNoParse(field: string, min: int, max: int, e: ParseError)
    requires FieldFails(field, min, max, e)
    ensures !FieldParses(field, min, max)
    ensures forall e' :: FieldFails(field, min, max, e') ==> e' == e
  {
    hide ParsePart, Split;
    var parts := Split(field, ',');
    var k: nat :| FailsAt(parts, k, min, max, e);
    forall e' | FieldFails(field, min, max, e') ensures e' == e {
      var k': nat :| FailsAt(parts, k', min, max, e');
      assert k' == k;
    }
  }

  /** An expression with a malformed word has one first error, and no meaning. */
  lemma FailureIsExact(words: seq<string>, e: ParseError)
    requires |words| == 6 && FirstFieldFails(words, e)
    ensures !AllFieldsParse(words) && forall f :: !Accepts(words, f)
    ensures forall e' :: FirstFieldFails(words, e') ==> e' == e
  {
    hide FieldFails, FieldParses, FieldMeans;
    forall i, min, max, e' | 0 <= i < 6 && FieldFails(words[i], min, max, e')
      ensures !FieldParses(words[i], min, max)
      ensures forall e'' :: FieldFails(words[i], min, max, e'') ==> e'' == e'
    {
      FailureIsNoParse(words[i], min, max, e');
    }
    forall i, min, max, m | 0 <= i < 6 && FieldMeans(words[i], min, max, m) ensures FieldParses(words[i], min, max) {
      MeaningParses(words[i], min, max, m);
    }
  }

  /** The word "0" selects 0 alone. */
  lemma ZeroWord(m: Mask)
    requires FieldMeans("0", 0, 59, m)
    ensures m == Run(0, 0)
  {
    SplitWord("0", ',');
    assert ParsePart("0", 0, 59) == Ok(Part(0, 0, 1)) by { ZeroPart(); }
    hide ParsePart;
    forall b | 0 <= b < 64 ensures m[b] <==> b == 0 {
      assert m[b] <==> PartsSet(["0"], 1, 0, 59, b);
      assert PartSets(ParsePart(["0"][0], 0, 59).value, b) <==> b == 0;
    }
  }

  lemma ZeroPart()
    ensures ParsePart("0", 0, 59) == Ok(Part(0, 0, 1))
  {
    hide ParsePart;
    ParseOfPrintedPart(Single(0), None, 0, 59);
    OneDigit(0);
  }

  method NewCronExpr(expr: string) returns (r: Parsed<Fields>)
    ensures |Words(expr)| != 5 && |Words(expr)| != 6 ==> r == Err(WrongFieldCount)
    ensures r.Ok? && |Words(expr)| == 6 ==>
              var words := Words(expr);
              && FieldMeans(words[0], 0, 59, r.value.sec) && FieldMeans(words[1], 0, 59, r.value.min)
              && FieldMeans(words[2], 0, 23, r.value.hour) && FieldMeans(words[3], 1, 31, r.value.dom)
              && FieldMeans(words[4], 1, 12, r.value.month) && FieldMeans(words[5], 0, 6, r.value.dow)
    ensures r.Ok? && |Words(expr)| == 5 ==>
              var words := Words(expr);
              && r.value.sec == Run(0, 0) && FieldMeans(words[0], 0, 59, r.value.min)
              && FieldMeans(words[1], 0, 23, r.value.hour) && FieldMeans(words[2], 1, 31, r.value.dom)
              && FieldMeans(words[3], 1, 12, r.value.month) && FieldMeans(words[4], 0, 6, r.value.dow)
    ensures |Words(expr)| == 6 && r.Err? ==> FirstFieldFails(Words(expr), r.error)
    ensures |Words(expr)| == 5 && r.Err? ==> FirstFieldFails(["0"] + Words(expr), r.error)
  {
    hide FieldMeans, Words, FailsAt, AllParse;
    var fields := Words(expr);
    if |fields| != 5 && |fields| != 6 {
      return Err(WrongFieldCount);
    }
    if |fields| == 5 {
      fields := ["0"] + fields;
    }
    var sec := ParseCronField(fields[0], 0, 59);
    if sec.Err? { return Err(sec.error); }
    MeaningParses(fields[0], 0, 59, sec.value);
    var min := ParseCronField(fields[1], 0, 59);
    if min.Err? { return Err(min.error); }
    MeaningParses(fields[1], 0, 59, min.value);
    var hour := ParseCronField(fields[2], 0, 23);
    if hour.Err? { return Err(hour.error); }
    MeaningParses(fields[2], 0, 23, hour.value);
    var dom := ParseCronField(fields[3], 1, 31);
    if dom.Err? { return Err(dom.error); }
    MeaningParses(fields[3], 1, 31, dom.value);
    var month := ParseCronField(fields[4], 1, 12);
    if month.Err? { return Err(month.error); }
    MeaningParses(fields[4], 1, 12, month.value);
    var dow := ParseCronField(fields[5], 0, 6);
    if dow.Err? { return Err(dow.error); }
    if |Words(expr)| == 5 { ZeroWord(sec.value); }
    return Ok(Fields(sec.value, min.value, hour.value, dom.value, month.value, dow.value));
  }

  /** With an accepted expression `Next` fails only if the weekday is unrestricted, no day up
  to the 28th is selected, and no later day before the horizon is. */
  lemma AcceptedNextFails(words: seq<string>, f: Fields, t0: int, r: Option<int>)
    requires Accepts(words, f) && FirstMatch(f, t0 + 1, Horizon(t0), r)
    ensures r.None? ==>
              && f.dow == EVERY_WEEKDAY && f.dom != EVERY_DAY
              && !Selects(f.dom, 1, 28)
              && forall d :: (t0 + 1) / 86400 < d && d * 86400 < Horizon(t0) ==> !DaySelected(f, d)
  {
    hide FieldMeans, Horizon, FirstMatch, Selects, DaySelected;
    AcceptedFieldSelects(words[0], 0, 59, f.sec);
    AcceptedFieldSelects(words[1], 0, 59, f.min);
    AcceptedFieldSelects(words[2], 0, 23, f.hour);
    AcceptedFieldSelects(words[4], 1, 12, f.month);
    AcceptedFieldSelects(words[5], 0, 6, f.dow);
    NextFailsExactly(f, t0, r);
    if (WeekdayDecides(f) && Selects(f.dow, 0, 6)) || (DayDecides(f) && Selects(f.dom, 1, 28)) {
      NextGuaranteed(f, t0, r);
    }
  }
}
