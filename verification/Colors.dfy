/** Colours as numbers, and lists of colours as text: decimal numbers, each followed by a comma. */
module Colors {
  import opened Options
  import opened Text

  type int32 = x: int | -0x8000_0000 <= x < 0x8000_0000

  datatype RGBColor = RGBColor(r: int32, g: int32, b: int32, alpha: int32)

  predicate InRange(c: RGBColor) {
    0 <= c.r <= 255 && 0 <= c.g <= 255 && 0 <= c.b <= 255 && 0 <= c.alpha <= 100
  }

  /** `convertRGBColorToInt64`: negative for the first part that is out of range.  A part fills
  the eight bits that the shift has cleared, so that `|` is addition. */
  function Pack(c: RGBColor): int {
    if c.r > 255 || c.r < 0 then -10
    else if c.g > 255 || c.g < 0 then -11
    else if c.b > 255 || c.b < 0 then -12
    else if c.alpha > 100 || c.alpha < 0 then -13
    else ((c.r * 256 + c.g) * 256 + c.b) * 256 + c.alpha
  }

  /** `convertInt64ToRGBColor`. */
  function Unpack(v: int): RGBColor {
    RGBColor(v / 0x100_0000 % 256, v / 0x1_0000 % 256, v / 0x100 % 256, v % 256)
  }

  lemma UnpackOfPack(c: RGBColor)
    ensures InRange(c) <==> Pack(c) >= 0
    ensures InRange(c) ==> Unpack(Pack(c)) == c && Pack(c) < 0x1_0000_0000
  {
    if InRange(c) {
      var v := Pack(c);
      var v1 := (c.r * 256 + c.g) * 256 + c.b;
      assert v / 0x100 == v1;
      assert v / 0x1_0000 == v1 / 256 == c.r * 256 + c.g;
      assert v / 0x100_0000 == v1 / 256 / 256 == c.r;
    }
  }

  /** Packing undoes unpacking exactly for 32-bit numbers whose low byte is a valid alpha, and
  by coincidence for the error code of an invalid one. */
  lemma PackOfUnpack(v: int)
    ensures Pack(Unpack(v)) == v <==> (0 <= v < 0x1_0000_0000 && v % 256 <= 100) || v == -13
  {
    var v1 := v / 256;
    var v2 := v1 / 256;
    var v3 := v2 / 256;
    assert v / 0x1_0000 == v2;
    assert v / 0x100_0000 == v3;
    assert v == ((v3 * 256 + v2 % 256) * 256 + v1 % 256) * 256 + v % 256;
    assert v3 % 256 == v3 <==> 0 <= v < 0x1_0000_0000;
  }

  // ----- Lists

  predicate AllInRange(cs: seq<RGBColor>) { forall c :: c in cs ==> InRange(c) }

  function Print(cs: seq<RGBColor>): string {
    if cs == [] then [] else FormatInt(Pack(cs[0])) + "," + Print(cs[1..])
  }

  /** The numbers of a list of texts, unless one is malformed. */
  function ParseAll(words: seq<string>): Option<seq<RGBColor>> {
    if words == [] then Some([])
    else
      match (ParseInt(words[0]), ParseAll(words[1..]))
      case (Some(v), Some(rest)) => Some([Unpack(v)] + rest)
      case _ => None
  }

  /** What `StrToRGBColorArray` returns; nil is None. */
  function Parse(s: string): Option<seq<RGBColor>> {
    if s == "" then None else ParseAll(FieldsFunc(s, ','))
  }

  lemma {:induction false} PrintAppend(cs: seq<RGBColor>, c: RGBColor)
    ensures Print(cs + [c]) == Print(cs) + FormatInt(Pack(c)) + ","
  {
    hide FormatInt, Pack;
    if cs == [] {
      assert cs + [c] == [c] && Print([c]) == FormatInt(Pack(c)) + "," + Print([]);
    } else {
      PrintAppend(cs[1..], c);
      assert (cs + [c])[1..] == cs[1..] + [c];
      assert FormatInt(Pack(cs[0])) + "," + (Print(cs[1..]) + FormatInt(Pack(c)) + ",")
          == FormatInt(Pack(cs[0])) + "," + Print(cs[1..]) + FormatInt(Pack(c)) + ",";
    }
  }

  /** The text of a list of colours; empty if a colour is out of range. */
  method RGBColorArrayToStr(colorArr: seq<RGBColor>) returns (ret: string)
    ensures ret == if AllInRange(colorArr) then Print(colorArr) else ""
  {
    hide FormatInt, Pack;
    ret := "";
    for k := 0 to |colorArr|
      invariant AllInRange(colorArr[..k]) && ret == Print(colorArr[..k])
    {
      var colorV := Pack(colorArr[k]);
      UnpackOfPack(colorArr[k]);
      if colorV < 0 {
        return "";
      }
      PrintAppend(colorArr[..k], colorArr[k]);
      assert colorArr[..k + 1] == colorArr[..k] + [colorArr[k]];
      ret := ret + FormatInt(colorV) + ",";
    }
    assert colorArr[..|colorArr|] == colorArr;
  }

  lemma {:induction false} ParseAllAppend(words: seq<string>, w: string)
    ensures ParseAll(words + [w]) ==
            match (ParseAll(words), ParseInt(w))
            case (Some(cs), Some(v)) => Some(cs + [Unpack(v)])
            case _ => None
  {
    hide ParseInt, Unpack;
    if words == [] {
      assert words + [w] == [w] && [w][1..] == [] && ParseAll([]) == Some([]);
      assert ParseInt(w).Some? ==> [Unpack(ParseInt(w).value)] + [] == [] + [Unpack(ParseInt(w).value)];
    } else {
      ParseAllAppend(words[1..], w);
      assert (words + [w])[1..] == words[1..] + [w];
      if ParseAll(words).Some? && ParseInt(w).Some? {
        var rest := ParseAll(words[1..]).value;
        var c, d := Unpack(ParseInt(words[0]).value), Unpack(ParseInt(w).value);
        assert [c] + (rest + [d]) == [c] + rest + [d];
      }
    }
  }

  lemma {:induction false} FailureStays(words: seq<string>, k: nat)
    requires k <= |words| && ParseAll(words[..k]).None?
    ensures ParseAll(words).None?
    decreases |words| - k
  {
    if k < |words| {
      ParseAllAppend(words[..k], words[k]);
      assert words[..k + 1] == words[..k] + [words[k]];
      FailureStays(words, k + 1);
    } else {
      assert words[..k] == words;
    }
  }

  method StrToRGBColorArray(str: string) returns (ret: Option<seq<RGBColor>>)
    ensures ret == Parse(str)
  {
    hide ParseInt, Unpack, FieldsFunc;
    if str == "" {
      return None;
    }
    var words := FieldsFunc(str, ',');
    var cs: seq<RGBColor> := [];
    for k := 0 to |words|
      invariant ParseAll(words[..k]) == Some(cs)
    {
      var value := ParseInt(words[k]);
      ParseAllAppend(words[..k], words[k]);
      assert words[..k + 1] == words[..k] + [words[k]];
      if value.None? {
        FailureStays(words, k + 1);
        return None;
      }
      cs := cs + [Unpack(value.value)];
    }
    assert words[..|words|] == words;
    return Some(cs);
  }

  // ----- Round trip

  lemma NoComma(s: string)
    requires IsNumeral(s)
    ensures ',' !in s
  {
  }

  lemma {:induction false} FieldsOfPrint(cs: seq<RGBColor>)
    requires AllInRange(cs)
    ensures ParseAll(FieldsFunc(Print(cs), ',')) == Some(cs)
  {
    hide Unpack, ParseInt, FormatNat, IsNumeral, IsDigit;
    if cs == [] {
      assert Split([], ',') == [[]];
    } else {
      var w, rest := FormatInt(Pack(cs[0])), Print(cs[1..]);
      UnpackOfPack(cs[0]);
      hide Pack;
      NoComma(w);
      ParseOfFormat(Pack(cs[0]));
      NumeralNotEmpty(w);
      SplitPrefix(w, ',', rest);
      FieldsOfPrint(cs[1..]);
      assert ([w] + Split(rest, ','))[1..] == Split(rest, ',');
      assert ([w] + NonEmpty(Split(rest, ',')))[1..] == NonEmpty(Split(rest, ','));
      assert [cs[0]] + cs[1..] == cs;
    }
  }

  lemma NumeralNotEmpty(s: string)
    requires IsNumeral(s)
    ensures s != []
  {
  }

  /** Reading a printed list gives the list; the text is empty exactly when there is nothing to
  print or a colour is out of range. */
  lemma ParseOfPrint(cs: seq<RGBColor>)
    requires cs != [] && AllInRange(cs)
    ensures Print(cs) != "" && Parse(Print(cs)) == Some(cs)
  {
    hide ParseAll, FieldsFunc, FormatInt;
    FieldsOfPrint(cs);
  }
}
