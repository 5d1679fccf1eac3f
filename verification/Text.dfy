/** The string functions that the parsers rely on: `strconv.Atoi`, `strconv.FormatInt`,
`strings.Split` and `strings.FieldsFunc`, the last two for a one-character separator. */
module Text {
  import opened Integers
  import opened Options

  predicate IsDigit(c: char) { '0' <= c <= '9' }

  predicate IsNumeral(s: string) {
    s != [] && forall i :: 0 <= i < |s| ==> IsDigit(s[i])
  }

  function NumeralValue(s: string): (v: int)
    requires forall i :: 0 <= i < |s| ==> IsDigit(s[i])
    ensures v >= 0
  {
    if s == [] then 0
    else
      assert IsDigit(s[|s| - 1]);
      10 * NumeralValue(s[..|s| - 1]) + (s[|s| - 1] as int - '0' as int)
  }

  /** Base 10 with an optional sign; no value when malformed or outside int64. */
  function ParseInt(s: string): (r: Option<int>)
    ensures r.Some? ==> MIN_INT64 <= r.value <= MAX_INT64
  {
    var signed := s != [] && (s[0] == '+' || s[0] == '-');
    var digits := if signed then s[1..] else s;
    if !IsNumeral(digits) then None
    else
      var v := if signed && s[0] == '-' then -NumeralValue(digits) else NumeralValue(digits);
      if MIN_INT64 <= v <= MAX_INT64 then Some(v) else None
  }

  function FormatNat(n: nat): (s: string)
    ensures IsNumeral(s)
  {
    var digit := [(n % 10 + '0' as int) as char];
    if n < 10 then digit else FormatNat(n / 10) + digit
  }

  function FormatInt(n: int): string {
    if n < 0 then "-" + FormatNat(-n) else FormatNat(n)
  }

  lemma {:induction false} NumeralOfNat(n: nat)
    ensures NumeralValue(FormatNat(n)) == n
  {
    var s := FormatNat(n);
    if n >= 10 {
      NumeralOfNat(n / 10);
      assert s[..|s| - 1] == FormatNat(n / 10);
    }
  }

  /** Printing and reading back gives the number. */
  lemma ParseOfFormat(n: int)
    requires MIN_INT64 <= n <= MAX_INT64
    ensures ParseInt(FormatInt(n)) == Some(n)
  {
    if n < 0 {
      NumeralOfNat(-n);
      assert FormatInt(n)[1..] == FormatNat(-n);
    } else {
      NumeralOfNat(n);
      assert IsDigit(FormatNat(n)[0]);
    }
  }

  lemma OneDigit(d: nat)
    requires d < 10
    ensures FormatNat(d) == [(d + '0' as int) as char]
  {
  }

  lemma AppendDigit(n: nat, d: nat)
    requires n > 0 && d < 10
    ensures FormatNat(10 * n + d) == FormatNat(n) + [(d + '0' as int) as char]
  {
    assert (10 * n + d) / 10 == n && (10 * n + d) % 10 == d;
  }

  /** The numbers that are read: digits behind an optional sign, if the number fits an int64. */
  lemma NumberRead(s: string, n: int)
    ensures ParseInt(s) == Some(n) <==>
            && -0x8000_0000_0000_0000 <= n < 0x8000_0000_0000_0000
            && ((IsNumeral(s) && n == NumeralValue(s))
                || (s != [] && s[0] == '+' && IsNumeral(s[1..]) && n == NumeralValue(s[1..]))
                || (s != [] && s[0] == '-' && IsNumeral(s[1..]) && n == -NumeralValue(s[1..])))
  {
    if s != [] && IsNumeral(s) { assert IsDigit(s[0]); }
  }

  /** The pieces between separators, empty ones included: always at least one. */
  function Split(s: string, sep: char): (parts: seq<string>)
    ensures parts != []
  {
    if s == [] then [[]]
    else
      var rest := Split(s[1..], sep);
      if s[0] == sep then [[]] + rest else [[s[0]] + rest[0]] + rest[1..]
  }

  function Join(parts: seq<string>, sep: char): string
    requires parts != []
  {
    if |parts| == 1 then parts[0] else parts[0] + [sep] + Join(parts[1..], sep)
  }

  lemma {:induction false} SplitWord(w: string, sep: char)
    requires sep !in w
    ensures Split(w, sep) == [w]
  {
    if w != [] {
      SplitWord(w[1..], sep);
      assert w == [w[0]] + w[1..];
    }
  }

  lemma {:induction false} SplitPrefix(w: string, sep: char, t: string)
    requires sep !in w
    ensures Split(w + [sep] + t, sep) == [w] + Split(t, sep)
  {
    var s := w + [sep] + t;
    if w == [] {
      assert s[1..] == t;
    } else {
      SplitPrefix(w[1..], sep, t);
      assert s[1..] == w[1..] + [sep] + t;
      assert w == [w[0]] + w[1..];
    }
  }

  /** Splitting undoes joining. */
  lemma {:induction false} SplitOfJoin(parts: seq<string>, sep: char)
    requires parts != [] && forall i :: 0 <= i < |parts| ==> sep !in parts[i]
    ensures Split(Join(parts, sep), sep) == parts
  {
    if |parts| == 1 {
      SplitWord(parts[0], sep);
    } else {
      SplitOfJoin(parts[1..], sep);
      SplitPrefix(parts[0], sep, Join(parts[1..], sep));
    }
  }

  /** The maximal non-empty pieces without separators. */
  function NonEmpty(parts: seq<string>): seq<string> {
    if parts == [] then []
    else (if parts[0] == [] then [] else [parts[0]]) + NonEmpty(parts[1..])
  }

  function FieldsFunc(s: string, sep: char): seq<string> {
    NonEmpty(Split(s, sep))
  }

  lemma {:induction false} NonEmptyKeeps(parts: seq<string>)
    requires forall i :: 0 <= i < |parts| ==> parts[i] != []
    ensures NonEmpty(parts) == parts
  {
    if parts != [] {
      NonEmptyKeeps(parts[1..]);
      assert parts == [parts[0]] + parts[1..];
    }
  }

  /** Words that are joined by separators are found again. */
  lemma FieldsOfJoin(words: seq<string>, sep: char)
    requires words != [] && forall i :: 0 <= i < |words| ==> words[i] != [] && sep !in words[i]
    ensures FieldsFunc(Join(words, sep), sep) == words
  {
    hide NonEmpty;
    SplitOfJoin(words, sep);
    NonEmptyKeeps(words);
  }

  // ----- strings.Fields

  /** `unicode.IsSpace`. */
  predicate IsSpace(c: char) {
    var n := c as int;
    || 9 <= n <= 13 || n == 0x20 || n == 0x85 || n == 0xa0 || n == 0x1680 || 0x2000 <= n <= 0x200a
    || n == 0x2028 || n == 0x2029 || n == 0x202f || n == 0x205f || n == 0x3000
  }

  function Blanked(s: string): (b: string)
    ensures |b| == |s| && forall i :: 0 <= i < |s| ==> b[i] == if IsSpace(s[i]) then ' ' else s[i]
  {
    if s == [] then [] else [if IsSpace(s[0]) then ' ' else s[0]] + Blanked(s[1..])
  }

  /** The maximal pieces without white space. */
  function Words(s: string): seq<string> { FieldsFunc(Blanked(s), ' ') }

  lemma {:induction false} SplitPieces(s: string, sep: char, k: nat)
    requires k < |Split(s, sep)|
    ensures forall c :: c in Split(s, sep)[k] ==> c in s && c != sep
    decreases s
  {
    if s != [] {
      var rest := Split(s[1..], sep);
      if s[0] == sep {
        if k > 0 { SplitPieces(s[1..], sep, k - 1); }
      } else {
        SplitPieces(s[1..], sep, k);
      }
    }
  }

  lemma {:induction false} NonEmptyPieces(parts: seq<string>, w: string)
    requires w in NonEmpty(parts)
    ensures w != [] && w in parts
  {
    if parts[0] == [] || w != parts[0] { NonEmptyPieces(parts[1..], w); }
  }

  /** A word is not empty and has no white space. */
  lemma WordsAreWords(s: string, w: string)
    requires w in Words(s)
    ensures w != [] && forall c :: c in w ==> !IsSpace(c)
  {
    hide NonEmpty, Split, IsSpace;
    var parts := Split(Blanked(s), ' ');
    NonEmptyPieces(parts, w);
    var k :| 0 <= k < |parts| && parts[k] == w;
    SplitPieces(Blanked(s), ' ', k);
    forall c | c in w ensures !IsSpace(c) {
      var i :| 0 <= i < |Blanked(s)| && Blanked(s)[i] == c;
    }
  }

  /** A text: white space around and between words. */
  function Spaced(gaps: seq<string>, words: seq<string>): string
    requires |gaps| == |words| + 1
  {
    if words == [] then gaps[0] else gaps[0] + words[0] + Spaced(gaps[1..], words[1..])
  }

  predicate IsWhite(s: string) { forall c :: c in s ==> IsSpace(c) }

  predicate IsWord(s: string) { s != [] && forall c :: c in s ==> !IsSpace(c) }

  lemma BlankedConcat(s: string, t: string)
    ensures Blanked(s + t) == Blanked(s) + Blanked(t)
  {
    hide IsSpace, Blanked;
    var b := Blanked(s) + Blanked(t);
    forall i | 0 <= i < |s + t| ensures Blanked(s + t)[i] == b[i] {
      if i < |s| { assert (s + t)[i] == s[i]; } else { assert (s + t)[i] == t[i - |s|]; }
    }
  }

  lemma {:induction false} WhiteSkipped(gap: string, s: string)
    requires IsWhite(gap)
    ensures Words(gap + s) == Words(s)
  {
    hide IsSpace;
    if gap == [] {
      assert gap + s == s;
    } else {
      WhiteSkipped(gap[1..], s);
      assert gap + s == [gap[0]] + (gap[1..] + s);
      BlankedConcat([gap[0]], gap[1..] + s);
      assert Blanked(gap + s)[0] == ' ' && Blanked(gap + s)[1..] == Blanked(gap[1..] + s);
    }
  }

  lemma WordKept(w: string)
    requires IsWord(w)
    ensures Blanked(w) == w && ' ' !in w
  {
    assert IsSpace(' ');
    hide IsSpace;
  }

  /** A word in front of white space, or at the end. */
  lemma WordFound(w: string, s: string)
    requires IsWord(w) && (s == [] || IsSpace(s[0]))
    ensures Words(w + s) == [w] + Words(s)
  {
    hide IsSpace;
    WordKept(w);
    BlankedConcat(w, s);
    if s == [] {
      SplitWord(w, ' ');
      assert w + s == w;
      NoWords();
      assert [w] + [] == [w];
    } else {
      var b := Blanked(s[1..]);
      assert Blanked(s) == [' '] + b;
      FieldFound(w, ' ', b);
    }
  }

  lemma FieldFound(w: string, sep: char, b: string)
    requires w != [] && sep !in w
    ensures FieldsFunc(w + ([sep] + b), sep) == [w] + FieldsFunc([sep] + b, sep)
  {
    var parts := Split(b, sep);
    SplitPrefix(w, sep, b);
    assert w + ([sep] + b) == w + [sep] + b;
    assert ([sep] + b)[1..] == b;
    assert Split([sep] + b, sep) == [[]] + parts;
    hide Split;
    assert ([w] + parts)[1..] == parts == ([[]] + parts)[1..];
  }

  /** The words of a text are found again, whatever white space stands around and between them. */
  lemma {:induction false} WordsOfSpaced(gaps: seq<string>, words: seq<string>)
    requires |gaps| == |words| + 1
    requires forall i :: 0 <= i < |gaps| ==> IsWhite(gaps[i])
    requires forall i :: 0 < i < |words| ==> gaps[i] != []
    requires forall i :: 0 <= i < |words| ==> IsWord(words[i])
    ensures Words(Spaced(gaps, words)) == words
  {
    hide Words, IsSpace, IsWord;
    if words == [] {
      WhiteSkipped(gaps[0], []);
      assert gaps[0] + [] == gaps[0];
      NoWords();
    } else {
      var rest := Spaced(gaps[1..], words[1..]);
      WordsOfSpaced(gaps[1..], words[1..]);
      assert Spaced(gaps, words) == gaps[0] + (words[0] + rest);
      WhiteSkipped(gaps[0], words[0] + rest);
      assert rest == [] || IsSpace(rest[0]) by {
        if |words| > 1 { assert rest[0] == gaps[1][0]; } else { assert rest == gaps[1]; }
      }
      WordFound(words[0], rest);
    }
  }

  lemma NoWords()
    ensures Words([]) == []
  {
  }
}
