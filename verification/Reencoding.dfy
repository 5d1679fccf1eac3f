/** Every message that `Unmarshal` produces can be written and read back unchanged: the
skipper accepts nothing but well-formed fields, so kept bytes are always foreign fields. */
module Reencoding {
  import opened Results
  import opened Wire
  import opened WireFields
  import opened Messages
  import opened Encoding

  lemma ForeignBytesAppend(m: Message, s: bytes, f: Field)
    requires ForeignBytes(m, s) && WellFormed(f) && FieldNumber(f) > 0 && !Known(m, FieldNumber(f))
    ensures ForeignBytes(m, s + FieldBytes(f))
  {
    hide WellFormed, FieldBytes, FieldNumber, Known;
    var fs: seq<Field> :| ForeignFields(m, fs) && s == MemberBytes(fs);
    MembersAppend(fs, f);
    assert ForeignFields(m, fs + [f]);
  }

  lemma {:induction false} MembersAppend(fs: seq<Field>, f: Field)
    ensures MemberBytes(fs + [f]) == MemberBytes(fs) + FieldBytes(f)
  {
    hide FieldBytes;
    if fs == [] {
      assert fs + [f] == [f];
      assert MemberBytes([f]) == FieldBytes(f) + MemberBytes([]);
    } else {
      MembersAppend(fs[1..], f);
      assert (fs + [f])[1..] == fs[1..] + [f];
    }
  }

  function UnrecognizedOf(m: Message): bytes {
    match m
    case OfContact(c) => c.unrecognized
    case OfContactList(l) => l.unrecognized
    case OfLikerList(l) => l.unrecognized
    case OfAccountInfo(a) => a.unrecognized
  }

  lemma {:induction false} SameForeign(m: Message, n: Message, s: bytes)
    requires SameType(m, n)
    ensures ForeignBytes(m, s) <==> ForeignBytes(n, s)
  {
    hide WellFormed;
    if ForeignBytes(m, s) {
      var fs: seq<Field> :| ForeignFields(m, fs) && s == MemberBytes(fs);
      assert ForeignFields(n, fs);
    }
    if ForeignBytes(n, s) {
      var fs: seq<Field> :| ForeignFields(n, fs) && s == MemberBytes(fs);
      assert ForeignFields(m, fs);
    }
  }

  lemma EmptyStorable(m: Message)
    ensures Storable(Empty(m))
  {
    assert ForeignFields(Empty(m), []) && [] == MemberBytes([]);
  }

  lemma UnknownStorable(m: Message, d: bytes, i: nat)
    requires i < |d| <= MAX_LENGTH && Storable(m) && UnknownAt(d, i).Ok?
    requires ReadVarint(d, i).Ok? && ReadVarint(d, i).value.0 % 8 != 4
    requires var field := ToInt32(ReadVarint(d, i).value.0 / 8); field > 0 && !Known(m, field)
    ensures Storable(AddUnrecognized(m, UnknownAt(d, i).value.0))
  {
    hide Skip, ForeignBytes, ReadVarint, WellFormed, StorableContact, Known;
    var (s, k) := UnknownAt(d, i).value;
    var (wire, j) := ReadVarint(d, i).value;
    assert d[i..][0..j - i] == d[i..j] by { TagInsideField(d, i); }
    ReadLocal(d, i, d[i..], 0);
    var f := SkippedIsField(d[i..]);
    assert d[i..][..k - i] == s;
    MiddleRead(d, i);
    assert d[i..][..j - i] == d[i..j];
    TagIsVarint(f);
    UnrecognizedForeign(m);
    ForeignBytesAppend(m, UnrecognizedOf(m), f);
    AddKeepsStorable(m, s);
  }

  lemma TagInsideField(d: bytes, i: nat)
    requires i < |d| && ReadVarint(d, i).Ok?
    ensures ReadVarint(d, i).value.1 <= |d|
  {
  }

  lemma TagIsVarint(f: Field)
    requires WellFormed(f)
    ensures IsVarint(f.tag)
  {
  }

  lemma UnrecognizedForeign(m: Message)
    requires Storable(m)
    ensures ForeignBytes(m, UnrecognizedOf(m))
  {
  }

  lemma AddKeepsStorable(m: Message, s: bytes)
    requires Storable(m) && ForeignBytes(m, UnrecognizedOf(m) + s)
    ensures Storable(AddUnrecognized(m, s))
  {
    hide ForeignBytes;
    SameForeign(m, AddUnrecognized(m, s), UnrecognizedOf(m) + s);
  }

  lemma KnownStorable(m: Message, field: int, d: bytes, i: nat, wireType: int)
    requires Known(m, field) && 1 <= i <= |d| <= MAX_LENGTH && Storable(m) && KnownAt(m, field, d, i, wireType).Ok?
    ensures Storable(KnownAt(m, field, d, i, wireType).value.0)
    decreases |d|, 0
  {
    hide ForeignBytes, PayloadAt, Int64At, LikersAt, UnmarshalFrom, ReadVarint;
    var m' := KnownAt(m, field, d, i, wireType).value.0;
    SameForeign(m, m', UnrecognizedOf(m));
    match m
    case OfContact(c) =>
    case OfContactList(l) =>
      var (s, j) := PayloadAt(d, i, wireType).value;
      EmptyStorable(OfContact(EMPTY_CONTACT));
      RunStorable(OfContact(EMPTY_CONTACT), s, 0);
    case OfLikerList(l) =>
    case OfAccountInfo(a) =>
      if field == 2 {
        var (s, j) := PayloadAt(d, i, wireType).value;
        var held := match a.cl case None => EMPTY_LIST case Some(l) => l;
        EmptyStorable(OfContactList(EMPTY_LIST));
        RunStorable(OfContactList(held), s, 0);
      }
  }

  lemma {:induction false} RunStorable(m: Message, d: bytes, i: nat)
    requires i <= |d| <= MAX_LENGTH && Storable(m) && UnmarshalFrom(m, d, i).Ok?
    ensures Storable(UnmarshalFrom(m, d, i).value)
    decreases |d|, 2, |d| - i
  {
    hide Storable, KnownAt, UnknownAt;
    if i < |d| {
      var (m', j) := FieldAt(m, d, i).value;
      var (wire, k) := ReadVarint(d, i).value;
      if Known(m, ToInt32(wire / 8)) {
        KnownStorable(m, ToInt32(wire / 8), d, k, wire % 8);
      } else {
        UnknownStorable(m, d, i);
      }
      RunStorable(m', d, j);
    }
  }

  /** Whatever buffer a message was read from, writing it and reading it back changes nothing. */
  lemma ReencodingIsStable(m: Message, d: bytes)
    requires |d| <= MAX_LENGTH && Unmarshal(Empty(m), d).Ok?
    requires |Encode(Unmarshal(Empty(m), d).value)| <= MAX_LENGTH
    ensures var n := Unmarshal(Empty(m), d).value; Unmarshal(Empty(m), Encode(n)) == Ok(n)
  {
    hide UnmarshalFrom, Encode, Storable;
    EmptyStorable(m);
    UnmarshalIsFromZero(Empty(m), d);
    RunStorable(Empty(m), d, 0);
    var n := Unmarshal(Empty(m), d).value;
    EmptyBySameType(m, n);
    RoundTrip(n);
  }

  lemma EmptyBySameType(m: Message, n: Message)
    requires SameType(Empty(m), n)
    ensures Empty(m) == Empty(n)
  {
  }
}
