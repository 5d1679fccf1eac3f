/** Decoding is compositional: what `Unmarshal` makes of the concatenation of two buffers
is what it makes of the second one given the message that the first one left. */
module Decoding {
  import opened Results
  import opened Wire
  import opened WireFields
  import opened Messages

  // ----- A successful read of any field depends on the bytes it consumes only

  lemma ReadHead(d: bytes, i: nat, j: nat, e: bytes, p: nat)
    requires i <= |d| && ReadVarint(d, i).Ok? && ReadVarint(d, i).value.1 <= j && SameWindow(d, i, j, e, p)
    ensures ReadVarint(e, p) == Ok((ReadVarint(d, i).value.0, p + (ReadVarint(d, i).value.1 - i)))
  {
    SubWindow(d, i, j, e, p, i, ReadVarint(d, i).value.1);
    ReadLocal(d, i, e, p);
  }

  lemma LengthLocal(d: bytes, i: nat, e: bytes, p: nat)
    requires i <= |d| <= MAX_LENGTH && |e| <= MAX_LENGTH && ReadLength(d, i).Ok?
    requires SameWindow(d, i, ReadLength(d, i).value.1, e, p)
    ensures var (start, post) := ReadLength(d, i).value; ReadLength(e, p) == Ok((p + (start - i), p + (post - i)))
  {
    hide ReadVarint;
    ReadHead(d, i, ReadLength(d, i).value.1, e, p);
  }

  lemma PayloadLocal(d: bytes, i: nat, wireType: int, e: bytes, p: nat)
    requires i <= |d| <= MAX_LENGTH && |e| <= MAX_LENGTH && PayloadAt(d, i, wireType).Ok?
    requires SameWindow(d, i, PayloadAt(d, i, wireType).value.1, e, p)
    ensures var (s, j) := PayloadAt(d, i, wireType).value; PayloadAt(e, p, wireType) == Ok((s, p + (j - i)))
  {
    LengthLocal(d, i, e, p);
    var (start, post) := ReadLength(d, i).value;
    SubWindow(d, i, post, e, p, start, post);
  }

  lemma Int64Local(d: bytes, i: nat, wireType: int, e: bytes, p: nat)
    requires i <= |d| && Int64At(d, i, wireType).Ok?
    requires SameWindow(d, i, Int64At(d, i, wireType).value.1, e, p)
    ensures var (v, j) := Int64At(d, i, wireType).value; Int64At(e, p, wireType) == Ok((v, p + (j - i)))
  {
    hide ReadVarint;
    ReadHead(d, i, Int64At(d, i, wireType).value.1, e, p);
  }

  lemma {:induction false} PackedLocal(d: bytes, i: nat, post: nat, e: bytes, p: nat, post': nat)
    requires i <= |d| && ReadPacked(d, i, post).Ok? && post' - p == post - i
    requires SameWindow(d, i, ReadPacked(d, i, post).value.1, e, p)
    ensures var (vs, j) := ReadPacked(d, i, post).value; ReadPacked(e, p, post') == Ok((vs, p + (j - i)))
    decreases |d| - i
  {
    hide ReadVarint;
    var (vs, k) := ReadPacked(d, i, post).value;
    if i < post {
      var (u, j) := ReadVarint(d, i).value;
      ReadHead(d, i, k, e, p);
      SubWindow(d, i, k, e, p, j, k);
      PackedLocal(d, j, post, e, p + (j - i), post');
    }
  }

  lemma LikersLocal(d: bytes, i: nat, wireType: int, e: bytes, p: nat)
    requires i <= |d| <= MAX_LENGTH && |e| <= MAX_LENGTH && LikersAt(d, i, wireType).Ok?
    requires SameWindow(d, i, LikersAt(d, i, wireType).value.1, e, p)
    ensures var (vs, j) := LikersAt(d, i, wireType).value; LikersAt(e, p, wireType) == Ok((vs, p + (j - i)))
  {
    hide ReadVarint, ReadLength;
    var (vs, k) := LikersAt(d, i, wireType).value;
    if wireType == 0 {
      ReadHead(d, i, k, e, p);
    } else {
      var (start, post) := ReadLength(d, i).value;
      PackedReaches(d, start, post);
      SubWindow(d, i, k, e, p, i, post);
      LengthLocal(d, i, e, p);
      SubWindow(d, i, k, e, p, start, k);
      PackedLocal(d, start, post, e, p + (start - i), p + (post - i));
    }
  }

  lemma {:induction false} PackedReaches(d: bytes, i: nat, post: nat)
    requires i <= |d| && ReadPacked(d, i, post).Ok?
    ensures post <= ReadPacked(d, i, post).value.1
    decreases |d| - i
  {
    hide ReadVarint;
    if i < post { PackedReaches(d, ReadVarint(d, i).value.1, post); }
  }

  lemma UnknownLocal(d: bytes, i: nat, e: bytes, p: nat)
    requires i < |d| <= MAX_LENGTH && |e| <= MAX_LENGTH && UnknownAt(d, i).Ok?
    requires SameWindow(d, i, UnknownAt(d, i).value.1, e, p)
    ensures p < |e|
    ensures var (s, j) := UnknownAt(d, i).value; UnknownAt(e, p) == Ok((s, p + (j - i)))
  {
    hide Skip;
    var (s, j) := UnknownAt(d, i).value;
    assert d[i..][..j - i] == d[i..j];
    assert e[p..][..j - i] == e[p..p + (j - i)];
    SkipLocal(d[i..], e[p..]);
  }

  lemma KnownLocal(m: Message, field: int, d: bytes, i: nat, wireType: int, e: bytes, p: nat)
    requires Known(m, field) && 1 <= i <= |d| <= MAX_LENGTH && 1 <= p && |e| <= MAX_LENGTH
    requires KnownAt(m, field, d, i, wireType).Ok?
    requires SameWindow(d, i, KnownAt(m, field, d, i, wireType).value.1, e, p)
    ensures var (m', j) := KnownAt(m, field, d, i, wireType).value;
            KnownAt(m, field, e, p, wireType) == Ok((m', p + (j - i)))
  {
    hide Int64At, PayloadAt, LikersAt, UnmarshalFrom;
    match m
    case OfContact(_) =>
      if field == 1 { Int64Local(d, i, wireType, e, p); } else { PayloadLocal(d, i, wireType, e, p); }
    case OfContactList(_) => PayloadLocal(d, i, wireType, e, p);
    case OfLikerList(_) => LikersLocal(d, i, wireType, e, p);
    case OfAccountInfo(_) =>
      if field == 2 { PayloadLocal(d, i, wireType, e, p); } else { Int64Local(d, i, wireType, e, p); }
  }

  lemma FieldLocal(m: Message, d: bytes, i: nat, e: bytes, p: nat)
    requires i < |d| <= MAX_LENGTH && |e| <= MAX_LENGTH && FieldAt(m, d, i).Ok?
    requires SameWindow(d, i, FieldAt(m, d, i).value.1, e, p)
    ensures p < |e|
    ensures var (m', j) := FieldAt(m, d, i).value; FieldAt(m, e, p) == Ok((m', p + (j - i)))
  {
    hide ReadVarint, KnownAt, UnknownAt;
    var (m', k) := FieldAt(m, d, i).value;
    var (wire, j) := ReadVarint(d, i).value;
    TagBeforeEnd(m, d, i);
    ReadHead(d, i, k, e, p);
    if Known(m, ToInt32(wire / 8)) {
      SubWindow(d, i, k, e, p, j, k);
      KnownLocal(m, ToInt32(wire / 8), d, j, wire % 8, e, p + (j - i));
    } else {
      UnknownLocal(d, i, e, p);
    }
  }

  /** A field ends no earlier than its tag. */
  lemma TagBeforeEnd(m: Message, d: bytes, i: nat)
    requires i < |d| <= MAX_LENGTH && FieldAt(m, d, i).Ok?
    ensures ReadVarint(d, i).Ok? && ReadVarint(d, i).value.1 <= FieldAt(m, d, i).value.1
  {
    hide KnownAt;
    var (wire, j) := ReadVarint(d, i).value;
    if !Known(m, ToInt32(wire / 8)) {
      assert d[i..][0..j - i] == d[i..j];
      ReadLocal(d, i, d[i..], 0);
    }
  }

  /** Where d[i..] stands inside e, decoding runs through it and goes on behind it. */
  lemma {:induction false} DecodeInside(m: Message, d: bytes, i: nat, e: bytes, p: nat)
    requires i <= |d| <= MAX_LENGTH && |e| <= MAX_LENGTH && UnmarshalFrom(m, d, i).Ok?
    requires SameWindow(d, i, |d|, e, p)
    ensures UnmarshalFrom(m, e, p) == UnmarshalFrom(UnmarshalFrom(m, d, i).value, e, p + (|d| - i))
    decreases |d| - i
  {
    hide FieldAt;
    if i < |d| {
      var (m', j) := FieldAt(m, d, i).value;
      SubWindow(d, i, |d|, e, p, i, j);
      FieldLocal(m, d, i, e, p);
      SubWindow(d, i, |d|, e, p, j, |d|);
      DecodeInside(m', d, j, e, p + (j - i));
    }
  }

  /** Decoding a concatenation decodes the parts one after the other, and fails when the
  second part fails. */
  lemma DecodeConcat(m: Message, d1: bytes, d2: bytes)
    requires |d1| + |d2| <= MAX_LENGTH && Unmarshal(m, d1).Ok?
    ensures var r := Unmarshal(Unmarshal(m, d1).value, d2);
            Unmarshal(m, d1 + d2).Ok? == r.Ok? && (r.Ok? ==> Unmarshal(m, d1 + d2) == r)
  {
    var d := d1 + d2;
    var m1 := Unmarshal(m, d1).value;
    assert d[0..|d1|] == d1 == d1[0..|d1|];
    assert d[|d1|..|d1| + |d2|] == d2 == d2[0..|d2|];
    DecodeInside(m, d1, 0, d, 0);
    if Unmarshal(m1, d2).Ok? {
      DecodeInside(m1, d2, 0, d, |d1|);
    }
    if UnmarshalFrom(m1, d, |d1|).Ok? {
      DecodeInside(m1, d, |d1|, d2, 0);
    }
  }
}
