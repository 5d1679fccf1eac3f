/** What `Unmarshal` makes of any sequence of fields, written by whomever: each field does to the
message what its number and its wire type say, one after the other; and nothing but sequences of
fields is accepted. */
module FieldMeanings {
  import opened Options
  import opened Results
  import opened Wire
  import opened WireFields
  import opened Messages
  import opened Decoding
  import opened Encoding

  // ----- One field

  /** The number of a varint field, however many bytes it takes. */
  function NumberOf(f: Field): Result<int64, WireError>
    requires WellFormed(f)
  {
    if f.VarintField? then Ok(ToInt64(VarintValue(f.value))) else Err(WrongWireType)
  }

  function PayloadOf(f: Field): Result<bytes, WireError> {
    if f.LengthField? then Ok(f.payload) else Err(WrongWireType)
  }

  /** The payload of a packed field is empty or ends a varint. */
  predicate Ended(f: Field) {
    f.LengthField? ==> f.payload == [] || f.payload[|f.payload| - 1] < 128
  }

  function LikersOf(f: Field): Result<seq<int64>, WireError>
    requires WellFormed(f)
  {
    if f.VarintField? then Ok([ToInt64(VarintValue(f.value))])
    else if f.LengthField? then
      var (vs, _) :- ReadPacked(f.payload, 0, |f.payload|);
      Ok(vs)
    else Err(WrongWireType)
  }

  /** What a field does to a message: a number or a text replaces what was there, zero and the empty
  text included; a contact and likers are added at the end; the list of an account is read into
  the one that is there; and a field that is not declared is kept as it stands. */
  function Meaning(m: Message, f: Field): Result<Message, WireError>
    requires WellFormed(f) && |FieldBytes(f)| <= MAX_LENGTH
  {
    var number, s := FieldNumber(f), FieldBytes(f);
    PayloadInside(f);
    match m
    case OfContact(c) =>
      if number == 1 then
        var v :- NumberOf(f);
        Ok(OfContact(Contact(v, c.remarkName, c.unrecognized)))
      else if number == 2 then
        var name :- PayloadOf(f);
        Ok(OfContact(Contact(c.accountId, name, c.unrecognized)))
      else Ok(OfContact(Contact(c.accountId, c.remarkName, c.unrecognized + s)))
    case OfContactList(l) =>
      if number == 1 then
        var payload :- PayloadOf(f);
        var entry :- Unmarshal(OfContact(Contact(0, [], [])), payload);
        Ok(OfContactList(ContactList(l.contacts + [entry.contact], l.unrecognized)))
      else Ok(OfContactList(ContactList(l.contacts, l.unrecognized + s)))
    case OfLikerList(l) =>
      if number == 1 then
        var vs :- LikersOf(f);
        Ok(OfLikerList(LikerList(l.likers + vs, l.unrecognized)))
      else Ok(OfLikerList(LikerList(l.likers, l.unrecognized + s)))
    case OfAccountInfo(a) =>
      if number == 1 then
        var v :- NumberOf(f);
        Ok(OfAccountInfo(AccountInfo(v, a.cl, a.lastMsgTs, a.creationTime, a.unrecognized)))
      else if number == 2 then
        var payload :- PayloadOf(f);
        var held := match a.cl case None => ContactList([], []) case Some(l) => l;
        var list :- Unmarshal(OfContactList(held), payload);
        Ok(OfAccountInfo(AccountInfo(a.accountId, Some(list.list), a.lastMsgTs, a.creationTime, a.unrecognized)))
      else if number == 3 then
        var v :- NumberOf(f);
        Ok(OfAccountInfo(AccountInfo(a.accountId, a.cl, v, a.creationTime, a.unrecognized)))
      else if number == 4 then
        var v :- NumberOf(f);
        Ok(OfAccountInfo(AccountInfo(a.accountId, a.cl, a.lastMsgTs, v, a.unrecognized)))
      else Ok(OfAccountInfo(AccountInfo(a.accountId, a.cl, a.lastMsgTs, a.creationTime, a.unrecognized + s)))
  }

  lemma PayloadInside(f: Field)
    requires |FieldBytes(f)| <= MAX_LENGTH
    ensures f.LengthField? ==> |f.payload| <= MAX_LENGTH
  {
  }

  /** A field that a message can be given: its number is positive, and packed likers are ended. */
  predicate Givable(m: Message, f: Field) {
    WellFormed(f) && FieldNumber(f) > 0 && (m.OfLikerList? && FieldNumber(f) == 1 ==> Ended(f))
  }

  /** The value of a varint field, behind its tag. */
  lemma VarintBehindTag(f: Field, rest: bytes)
    requires WellFormed(f) && f.VarintField?
    ensures ReadVarint(FieldBytes(f) + rest, |f.tag|) == Ok((VarintValue(f.value), |FieldBytes(f)|))
  {
    hide ReadVarint;
    assert FieldBytes(f) + rest == f.tag + f.value + rest;
    SecondVarint(f.tag, f.value, rest);
  }

  lemma PayloadBehindTag(f: Field, rest: bytes)
    requires WellFormed(f) && f.LengthField? && |FieldBytes(f) + rest| <= MAX_LENGTH
    ensures var d := FieldBytes(f) + rest; var start := |f.tag| + |f.length|;
            && ReadLength(d, |f.tag|) == Ok((start, |FieldBytes(f)|)) && d[start..|FieldBytes(f)|] == f.payload
  {
    hide ReadVarint;
    assert FieldBytes(f) + rest == f.tag + f.length + (f.payload + rest);
    SecondVarint(f.tag, f.length, f.payload + rest);
  }

  lemma Int64IsNumber(f: Field, rest: bytes)
    requires WellFormed(f)
    ensures var r := Int64At(FieldBytes(f) + rest, |f.tag|, WireType(f));
            if NumberOf(f).Ok? then r == Ok((NumberOf(f).value, |FieldBytes(f)|)) else r == Err(NumberOf(f).error)
  {
    hide ReadVarint;
    TagOf(f, rest);
    if f.VarintField? { VarintBehindTag(f, rest); }
    hide FieldBytes;
  }

  lemma PayloadIsPayload(f: Field, rest: bytes)
    requires WellFormed(f) && |FieldBytes(f) + rest| <= MAX_LENGTH
    ensures |f.tag| <= |FieldBytes(f) + rest|
    ensures var r := PayloadAt(FieldBytes(f) + rest, |f.tag|, WireType(f));
            if PayloadOf(f).Ok? then r == Ok((PayloadOf(f).value, |FieldBytes(f)|)) else r == Err(PayloadOf(f).error)
  {
    hide ReadVarint, ReadLength;
    TagOf(f, rest);
    if f.LengthField? { PayloadBehindTag(f, rest); }
    hide FieldBytes;
  }

  /** Packed values are read in their place as they are by themselves. */
  lemma {:induction false} PackedInPlace(p: bytes, i: nat, d: bytes, start: nat)
    requires i <= |p| && start + |p| <= |d| && d[start..start + |p|] == p
    requires p == [] || p[|p| - 1] < 128
    ensures var r := ReadPacked(p, i, |p|);
            if r.Ok? then r.value.1 == |p| && ReadPacked(d, start + i, start + |p|) == Ok((r.value.0, start + |p|))
            else ReadPacked(d, start + i, start + |p|) == Err(r.error)
    decreases |p| - i
  {
    if i < |p| {
      VarintInPlace(p, i, d, start);
      hide ReadVarint;
      var r := ReadVarint(p, i);
      if r.Ok? { PackedInPlace(p, r.value.1, d, start); }
    }
  }

  lemma VarintInPlace(p: bytes, i: nat, d: bytes, start: nat)
    requires i < |p| && start + |p| <= |d| && d[start..start + |p|] == p && p[|p| - 1] < 128
    ensures if ReadVarint(p, i).Ok? then ReadVarint(d, start + i)
                                         == Ok((ReadVarint(p, i).value.0, start + ReadVarint(p, i).value.1))
            else ReadVarint(d, start + i) == Err(ReadVarint(p, i).error)
  {
    VarintFromInPlace(p, i, 0, 0, d, start);
  }

  lemma {:induction false} VarintFromInPlace(p: bytes, i: nat, k: nat, acc: uint64, d: bytes, start: nat)
    requires i < |p| && start + |p| <= |d| && d[start..start + |p|] == p && p[|p| - 1] < 128
    ensures var r := ReadVarintFrom(p, i, k, acc);
            if r.Ok? then ReadVarintFrom(d, start + i, k, acc) == Ok((r.value.0, start + r.value.1))
            else ReadVarintFrom(d, start + i, k, acc) == Err(r.error)
    decreases |p| - i
  {
    hide Shifted;
    assert d[start + i] == d[start..start + |p|][i] == p[i];
    if p[i] >= 128 {
      VarintFromInPlace(p, i + 1, k + 1, (acc + Shifted(p[i] % 128, k)) % 0x1_0000_0000_0000_0000, d, start);
    }
  }

  lemma LikersAreLikers(f: Field, rest: bytes)
    requires WellFormed(f) && Ended(f) && |FieldBytes(f) + rest| <= MAX_LENGTH
    ensures |f.tag| <= |FieldBytes(f) + rest|
    ensures var r := LikersAt(FieldBytes(f) + rest, |f.tag|, WireType(f));
            if LikersOf(f).Ok? then r == Ok((LikersOf(f).value, |FieldBytes(f)|)) else r == Err(LikersOf(f).error)
  {
    hide ReadVarint, ReadLength, ReadPacked;
    TagOf(f, rest);
    if f.VarintField? { VarintBehindTag(f, rest); }
    if f.LengthField? {
      PayloadBehindTag(f, rest);
      PackedInPlace(f.payload, 0, FieldBytes(f) + rest, |f.tag| + |f.length|);
    }
    hide FieldBytes;
  }

  lemma KnownMeaning(m: Message, f: Field, rest: bytes)
    requires Givable(m, f) && |FieldBytes(f) + rest| <= MAX_LENGTH && Known(m, FieldNumber(f))
    ensures 1 <= |f.tag| <= |FieldBytes(f) + rest|
    ensures var r := KnownAt(m, FieldNumber(f), FieldBytes(f) + rest, |f.tag|, WireType(f));
            if Meaning(m, f).Ok? then r == Ok((Meaning(m, f).value, |FieldBytes(f)|)) else r == Err(Meaning(m, f).error)
  {
    TagOf(f, rest);
    Int64IsNumber(f, rest);
    PayloadIsPayload(f, rest);
    if m.OfLikerList? { LikersAreLikers(f, rest); }
    hide Int64At, PayloadAt, LikersAt, UnmarshalFrom, FieldBytes, WellFormed, LikersOf, NumberOf, PayloadOf;
    hide FieldNumber, WireType;
  }

  lemma UnknownMeaning(m: Message, f: Field, rest: bytes)
    requires Givable(m, f) && |FieldBytes(f) + rest| <= MAX_LENGTH && !Known(m, FieldNumber(f))
    ensures |FieldBytes(f) + rest| >= 1 && UnknownAt(FieldBytes(f) + rest, 0) == Ok((FieldBytes(f), |FieldBytes(f)|))
    ensures Meaning(m, f) == Ok(AddUnrecognized(m, FieldBytes(f)))
  {
    var d := FieldBytes(f) + rest;
    TagOf(f, rest);
    SkipField(f, rest);
    assert d[0..] == d && d[0..|FieldBytes(f)|] == FieldBytes(f);
    hide Skip, FieldBytes, WellFormed, LikersOf, NumberOf, PayloadOf, FieldNumber;
  }

  /** One round of `Unmarshal` does what the field means, and goes on behind it. */
  lemma RoundIsMeaning(m: Message, f: Field, rest: bytes)
    requires Givable(m, f) && |FieldBytes(f) + rest| <= MAX_LENGTH
    ensures |FieldBytes(f)| >= 1
    ensures var r := FieldAt(m, FieldBytes(f) + rest, 0);
            if Meaning(m, f).Ok? then r == Ok((Meaning(m, f).value, |FieldBytes(f)|)) else r == Err(Meaning(m, f).error)
  {
    TagOf(f, rest);
    if Known(m, FieldNumber(f)) { KnownMeaning(m, f, rest); } else { UnknownMeaning(m, f, rest); }
    hide ReadVarint, KnownAt, UnknownAt, FieldBytes, Meaning, Known;
  }

  // ----- Sequences of fields

  /** The fields one after the other. */
  function Meanings(m: Message, fs: seq<Field>): Result<Message, WireError>
    requires forall f :: f in fs ==> WellFormed(f) && |FieldBytes(f)| <= MAX_LENGTH
    decreases fs
  {
    if fs == [] then Ok(m)
    else
      var m' :- Meaning(m, fs[0]);
      Meanings(m', fs[1..])
  }

  lemma MembersInside(fs: seq<Field>, f: Field)
    requires f in fs
    ensures |FieldBytes(f)| <= |MemberBytes(fs)|
    decreases fs
  {
    hide FieldBytes;
    if f != fs[0] { MembersInside(fs[1..], f); }
  }

  lemma {:induction false} FieldsFrom(m: Message, fs: seq<Field>)
    requires |MemberBytes(fs)| <= MAX_LENGTH && forall f :: f in fs ==> Givable(m, f)
    requires forall f :: f in fs ==> WellFormed(f) && |FieldBytes(f)| <= MAX_LENGTH
    ensures Unmarshal(m, MemberBytes(fs)).Ok? <==> Meanings(m, fs).Ok?
    ensures Meanings(m, fs).Ok? ==> Unmarshal(m, MemberBytes(fs)) == Meanings(m, fs)
    decreases fs
  {
    if fs == [] {
      Nothing(m);
      hide Meaning;
    } else {
      var f, rest := fs[0], MemberBytes(fs[1..]);
      var d := FieldBytes(f) + rest;
      assert f in fs;
      RoundIsMeaning(m, f, rest);
      hide Meaning, FieldAt, FieldBytes, Givable;
      if Meaning(m, f).Ok? {
        var m1 := Meaning(m, f).value;
        assert Unmarshal(m, d) == UnmarshalFrom(m1, d, |FieldBytes(f)|);
        TypeStays(m, d);
        GivableStays(m, m1, fs[1..]);
        FieldsFrom(m1, fs[1..]);
        Behind(m1, d, |FieldBytes(f)|, rest);
      } else {
        assert Unmarshal(m, d).Err?;
      }
    }
  }

  lemma TypeStays(m: Message, d: bytes)
    requires 0 < |d| <= MAX_LENGTH && FieldAt(m, d, 0).Ok?
    ensures SameType(m, FieldAt(m, d, 0).value.0)
  {
  }

  lemma GivableStays(m: Message, n: Message, fs: seq<Field>)
    requires SameType(m, n) && forall f :: f in fs ==> Givable(m, f)
    ensures forall f :: f in fs ==> Givable(n, f)
  {
    hide WellFormed, Ended;
  }

  /** Decoding from position k on is decoding what stands there. */
  lemma Behind(m: Message, d: bytes, k: nat, rest: bytes)
    requires k <= |d| <= MAX_LENGTH && d[k..] == rest
    ensures UnmarshalFrom(m, d, k).Ok? <==> Unmarshal(m, rest).Ok?
    ensures Unmarshal(m, rest).Ok? ==> UnmarshalFrom(m, d, k) == Unmarshal(m, rest)
  {
    hide FieldAt;
    assert rest[0..|rest|] == rest == d[k..|d|];
    if Unmarshal(m, rest).Ok? { DecodeInside(m, rest, 0, d, k); }
    if UnmarshalFrom(m, d, k).Ok? { DecodeInside(m, d, k, rest, 0); }
  }

  /** Decoding any sequence of well-formed fields with positive numbers gives what the fields mean
  one after the other, and fails exactly when one of them has no meaning. */
  lemma DecodesToMeanings(m: Message, fs: seq<Field>)
    requires |MemberBytes(fs)| <= MAX_LENGTH && forall f :: f in fs ==> Givable(m, f)
    ensures forall f :: f in fs ==> WellFormed(f) && |FieldBytes(f)| <= MAX_LENGTH
    ensures Unmarshal(m, MemberBytes(fs)).Ok? <==> Meanings(m, fs).Ok?
    ensures Meanings(m, fs).Ok? ==> Unmarshal(m, MemberBytes(fs)) == Meanings(m, fs)
  {
    hide FieldBytes, FieldNumber, Ended, Meaning, UnmarshalFrom;
    forall f | f in fs ensures WellFormed(f) && |FieldBytes(f)| <= MAX_LENGTH { MembersInside(fs, f); }
    hide Givable, WellFormed;
    FieldsFrom(m, fs);
  }

  // ----- Nothing else is accepted

  lemma VarintRound(d: bytes, i: nat, n: nat) returns (f: Field)
    requires i <= n <= |d| && ReadVarint(d, 0).Ok? && ReadVarint(d, 0).value.1 == i
    requires ReadVarint(d, 0).value.0 % 8 == 0 && ReadVarint(d, i).Ok? && ReadVarint(d, i).value.1 == n
    ensures WellFormed(f) && FieldBytes(f) == d[..n] && f.tag == d[..i] && f.VarintField?
  {
    PrefixRead(d, i);
    MiddleRead(d, i);
    hide ReadVarint, IsVarint, VarintValue;
    f := VarintField(d[..i], d[i..n]);
    assert d[..i] + d[i..n] == d[..n];
  }

  lemma PayloadRound(d: bytes, i: nat, start: nat, n: nat) returns (f: Field)
    requires i <= start <= n <= |d| <= MAX_LENGTH && ReadVarint(d, 0).Ok? && ReadVarint(d, 0).value.1 == i
    requires ReadVarint(d, 0).value.0 % 8 == 2 && ReadVarint(d, i) == Ok((n - start, start))
    ensures WellFormed(f) && FieldBytes(f) == d[..n] && f.tag == d[..i] && f.LengthField?
  {
    PrefixRead(d, i);
    MiddleRead(d, i);
    hide ReadVarint, IsVarint, VarintValue;
    f := LengthField(d[..i], d[i..start], d[start..n]);
    assert d[i..start] + d[start..n] == d[i..n] && d[..i] + d[i..n] == d[..n];
  }

  /** A round of `Unmarshal` that succeeds passes one well-formed field. */
  lemma RoundIsField(m: Message, d: bytes) returns (f: Field)
    requires 0 < |d| <= MAX_LENGTH && FieldAt(m, d, 0).Ok? && !m.OfLikerList?
    ensures Givable(m, f) && FieldBytes(f) == d[..FieldAt(m, d, 0).value.1]
  {
    var n := FieldAt(m, d, 0).value.1;
    var (wire, i) := ReadVarint(d, 0).value;
    PrefixRead(d, i);
    if Known(m, ToInt32(wire / 8)) {
      if wire % 8 == 0 {
        KnownVarintEnds(m, ToInt32(wire / 8), d, i);
        f := VarintRound(d, i, n);
      } else {
        KnownPayloadEnds(m, ToInt32(wire / 8), d, i, wire % 8);
        LengthParts(d, i);
        f := PayloadRound(d, i, ReadLength(d, i).value.0, n);
      }
    } else {
      assert d[0..] == d && d[0..n] == d[..n];
      hide ReadVarint, KnownAt, UnmarshalFrom;
      f := SkippedIsField(d);
    }
    hide ReadVarint, KnownAt, UnmarshalFrom, WellFormed, ReadLength, UnknownAt, FieldBytes, IsVarint;
  }

  lemma LengthParts(d: bytes, i: nat)
    requires i <= |d| <= MAX_LENGTH && ReadLength(d, i).Ok?
    ensures ReadVarint(d, i).Ok?
    ensures var (start, post) := ReadLength(d, i).value; ReadVarint(d, i).value == (post - start, start)
  {
    hide ReadVarint;
  }

  lemma KnownVarintEnds(m: Message, field: int, d: bytes, i: nat)
    requires Known(m, field) && 1 <= i <= |d| <= MAX_LENGTH && KnownAt(m, field, d, i, 0).Ok? && !m.OfLikerList?
    ensures ReadVarint(d, i).Ok? && KnownAt(m, field, d, i, 0).value.1 == ReadVarint(d, i).value.1
  {
    hide ReadVarint, UnmarshalFrom;
  }

  lemma KnownPayloadEnds(m: Message, field: int, d: bytes, i: nat, wireType: int)
    requires Known(m, field) && 1 <= i <= |d| <= MAX_LENGTH && KnownAt(m, field, d, i, wireType).Ok?
    requires wireType != 0 && !m.OfLikerList?
    ensures wireType == 2 && ReadLength(d, i).Ok?
    ensures KnownAt(m, field, d, i, wireType).value.1 == ReadLength(d, i).value.1
  {
    hide ReadVarint, ReadLength, UnmarshalFrom;
  }

  /** Whatever a contact, a contact list or an account accepts is a sequence of well-formed fields
  with positive numbers. */
  lemma {:induction false} AcceptedIsFields(m: Message, d: bytes) returns (fs: seq<Field>)
    requires |d| <= MAX_LENGTH && Unmarshal(m, d).Ok? && !m.OfLikerList?
    ensures MemberBytes(fs) == d && forall f :: f in fs ==> Givable(m, f)
    decreases |d|
  {
    hide FieldAt, FieldBytes, Givable;
    if d == [] {
      fs := [];
    } else {
      var f := RoundIsField(m, d);
      var (m1, n) := FieldAt(m, d, 0).value;
      TypeStays(m, d);
      Behind(m1, d, n, d[n..]);
      var rest := AcceptedIsFields(m1, d[n..]);
      GivableStays(m1, m, rest);
      fs := [f] + rest;
      assert d == d[..n] + d[n..];
      assert fs[1..] == rest;
    }
  }
}
