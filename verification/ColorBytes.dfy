/** Colours as numbers and texts: which byte is which channel, and which texts are read. */
module ColorBytes {
  import opened Text
  import opened Colors

  /** Red is the highest of four bytes, then green, blue and alpha. */
  lemma PackedBytes(c: RGBColor)
    requires 0 <= c.r <= 255 && 0 <= c.g <= 255 && 0 <= c.b <= 255 && 0 <= c.alpha <= 100
    ensures Pack(c) == c.r * 16_777_216 + c.g * 65_536 + c.b * 256 + c.alpha
  {
  }

  /** Otherwise the number tells which channel is the first one out of range. */
  lemma PackErrors(c: RGBColor)
    ensures !(0 <= c.r <= 255) ==> Pack(c) == -10
    ensures 0 <= c.r <= 255 && !(0 <= c.g <= 255) ==> Pack(c) == -11
    ensures 0 <= c.r <= 255 && 0 <= c.g <= 255 && !(0 <= c.b <= 255) ==> Pack(c) == -12
    ensures 0 <= c.r <= 255 && 0 <= c.g <= 255 && 0 <= c.b <= 255 && !(0 <= c.alpha <= 100) ==> Pack(c) == -13
  {
  }

  /** Unpacking takes the four low bytes of any number, negative ones included. */
  lemma UnpackedBytes(v: int, r: nat, g: nat, b: nat, alpha: nat, high: int)
    requires r <= 255 && g <= 255 && b <= 255 && alpha <= 255
    requires v == high * 4_294_967_296 + r * 16_777_216 + g * 65_536 + b * 256 + alpha
    ensures Unpack(v) == RGBColor(r, g, b, alpha)
  {
    var v1 := high * 16_777_216 + r * 65_536 + g * 256 + b;
    var v2 := high * 65_536 + r * 256 + g;
    var v3 := high * 256 + r;
    QuotientOf256(v1, alpha);
    QuotientOf256(v2, b);
    QuotientOf256(v3, g);
    QuotientOf256(high, r);
    assert v / 256 == v1 && v % 256 == alpha;
    HigherQuotients(v);
  }

  lemma QuotientOf256(q: int, x: nat)
    requires x < 256
    ensures (q * 256 + x) / 256 == q && (q * 256 + x) % 256 == x
  {
  }

  lemma HigherQuotients(v: int)
    ensures v / 65_536 == v / 256 / 256 && v / 16_777_216 == v / 256 / 256 / 256
  {
  }

  /** The text of one colour. */
  lemma PrintedColor()
    ensures Print([RGBColor(1, 2, 3, 4)]) == "16909060,"
  {
    hide FormatNat;
    NumeralOf16909060();
    assert Print([RGBColor(1, 2, 3, 4)][1..]) == "";
  }

  lemma NumeralOf16909060()
    ensures FormatInt(16909060) == "16909060"
  {
    hide FormatNat;
    AppendDigit(1690906, 0); AppendDigit(169090, 6); AppendDigit(16909, 0); AppendDigit(1690, 9);
    AppendDigit(169, 0); AppendDigit(16, 9); AppendDigit(1, 6); OneDigit(1);
    assert FormatNat(1690) == "1690";
  }

  lemma {:induction false} ParseAllTells(words: seq<string>)
    ensures ParseAll(words).None? <==> exists k :: 0 <= k < |words| && ParseInt(words[k]).None?
    ensures ParseAll(words).Some? ==>
              && |ParseAll(words).value| == |words|
              && forall k :: 0 <= k < |words| ==>
                   ParseInt(words[k]).Some? && ParseAll(words).value[k] == Unpack(ParseInt(words[k]).value)
    decreases words
  {
    hide ParseInt, Unpack;
    if words != [] {
      ParseAllTells(words[1..]);
      forall k | 1 <= k < |words| ensures words[k] == words[1..][k - 1] { }
      if k :| 0 <= k < |words| && ParseInt(words[k]).None? {
        if k > 0 { assert ParseInt(words[1..][k - 1]).None?; }
      }
    }
  }

  /** Reading gives nil for the empty text and when a word between commas is no int64, and otherwise
  the colour of each word, in order. */
  lemma ReadColors(s: string)
    ensures Parse(s).None? <==> s == "" || exists w :: w in FieldsFunc(s, ',') && ParseInt(w).None?
    ensures Parse(s).Some? ==>
              var words := FieldsFunc(s, ',');
              && |Parse(s).value| == |words|
              && forall k :: 0 <= k < |words| ==>
                   ParseInt(words[k]).Some? && Parse(s).value[k] == Unpack(ParseInt(words[k]).value)
  {
    hide FieldsFunc, ParseAll, ParseInt, Unpack;
    var words := FieldsFunc(s, ',');
    ParseAllTells(words);
    if w :| w in words && ParseInt(w).None? {
      var k :| 0 <= k < |words| && words[k] == w;
    }
  }
}
