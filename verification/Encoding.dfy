/** What `MarshalToSizedBuffer` writes, front to back, and what reading it back gives. */
module Encoding {
  import opened Options
  import opened Results
  import opened Wire
  import opened WireFields
  import opened Messages
  import opened Decoding

  // ----- Encodings

  /** A varint field; zero is not written. */
  function EncodeInt64(tag: byte, v: int64): bytes {
    if v == 0 then [] else [tag] + EncodeVarint(ToUint64(v))
  }

  function EncodePayload(tag: byte, s: bytes): bytes {
    [tag] + EncodeVarint(|s|) + s
  }

  function EncodeContact(c: Contact): bytes {
    EncodeInt64(0x8, c.accountId)
    + (if c.remarkName == [] then [] else EncodePayload(0x12, c.remarkName))
    + c.unrecognized
  }

  function EncodeContacts(cs: seq<Contact>): bytes {
    if cs == [] then [] else EncodePayload(0xa, EncodeContact(cs[0])) + EncodeContacts(cs[1..])
  }

  function EncodeList(l: ContactList): bytes {
    EncodeContacts(l.contacts) + l.unrecognized
  }

  function EncodeVarints(vs: seq<int64>): bytes {
    if vs == [] then [] else EncodeVarint(ToUint64(vs[0])) + EncodeVarints(vs[1..])
  }

  function EncodeLikers(l: LikerList): bytes {
    (if l.likers == [] then [] else EncodePayload(0xa, EncodeVarints(l.likers))) + l.unrecognized
  }

  function EncodeAccount(a: AccountInfo): bytes {
    EncodeInt64(0x8, a.accountId)
    + (match a.cl case None => [] case Some(l) => EncodePayload(0x12, EncodeList(l)))
    + EncodeInt64(0x18, a.lastMsgTs)
    + EncodeInt64(0x20, a.creationTime)
    + a.unrecognized
  }

  function Encode(m: Message): bytes {
    match m
    case OfContact(c) => EncodeContact(c)
    case OfContactList(l) => EncodeList(l)
    case OfLikerList(l) => EncodeLikers(l)
    case OfAccountInfo(a) => EncodeAccount(a)
  }

  // ----- Unknown fields

  /** The number under which a field is looked up. */
  function FieldNumber(f: Field): int
    requires WellFormed(f)
  {
    ToInt32(VarintValue(f.tag) / 8)
  }

  /** Well-formed fields that the message type does not declare. */
  ghost predicate ForeignFields(m: Message, fs: seq<Field>) {
    forall f :: f in fs ==> WellFormed(f) && FieldNumber(f) > 0 && !Known(m, FieldNumber(f))
  }

  /** Bytes that an older program may keep for the message without understanding them. */
  ghost predicate ForeignBytes(m: Message, s: bytes) {
    exists fs: seq<Field> :: ForeignFields(m, fs) && s == MemberBytes(fs)
  }

  ghost predicate StorableContact(c: Contact) { ForeignBytes(OfContact(c), c.unrecognized) }

  ghost predicate StorableList(l: ContactList) {
    ForeignBytes(OfContactList(l), l.unrecognized) && forall c :: c in l.contacts ==> StorableContact(c)
  }

  /** Every kept byte sequence inside the message belongs to foreign fields. */
  ghost predicate Storable(m: Message) {
    match m
    case OfContact(c) => StorableContact(c)
    case OfContactList(l) => StorableList(l)
    case OfLikerList(l) => ForeignBytes(m, l.unrecognized)
    case OfAccountInfo(a) => ForeignBytes(m, a.unrecognized) && (a.cl.Some? ==> StorableList(a.cl.value))
  }

  // ----- Merging

  /** The later value wins unless it is the default. */
  function Later(a: int64, b: int64): int64 { if b == 0 then a else b }

  function MergeLists(a: ContactList, b: ContactList): ContactList {
    ContactList(a.contacts + b.contacts, a.unrecognized + b.unrecognized)
  }

  /** The merge of two messages of one type, the second one later. */
  function Merge(m: Message, n: Message): Message
    requires SameType(m, n)
  {
    match n
    case OfContact(b) =>
      var a := m.contact;
      OfContact(Contact(Later(a.accountId, b.accountId),
                        if b.remarkName == [] then a.remarkName else b.remarkName,
                        a.unrecognized + b.unrecognized))
    case OfContactList(b) => OfContactList(MergeLists(m.list, b))
    case OfLikerList(b) =>
      OfLikerList(LikerList(m.likerList.likers + b.likers, m.likerList.unrecognized + b.unrecognized))
    case OfAccountInfo(b) =>
      var a := m.account;
      OfAccountInfo(AccountInfo(
        Later(a.accountId, b.accountId),
        match (a.cl, b.cl)
        case (_, None) => a.cl
        case (None, Some(l)) => Some(l)
        case (Some(k), Some(l)) => Some(MergeLists(k, l)),
        Later(a.lastMsgTs, b.lastMsgTs), Later(a.creationTime, b.creationTime),
        a.unrecognized + b.unrecognized))
  }

  function Empty(m: Message): (n: Message)
    ensures SameType(n, m)
  {
    match m
    case OfContact(_) => OfContact(EMPTY_CONTACT)
    case OfContactList(_) => OfContactList(EMPTY_LIST)
    case OfLikerList(_) => OfLikerList(EMPTY_LIKERS)
    case OfAccountInfo(_) => OfAccountInfo(EMPTY_ACCOUNT)
  }

  lemma MergeWithEmpty(m: Message)
    ensures Merge(Empty(m), m) == m
  {
  }

  // ----- One field

  lemma OneField(m: Message, d: bytes)
    requires 0 < |d| <= MAX_LENGTH && FieldAt(m, d, 0).Ok? && FieldAt(m, d, 0).value.1 == |d|
    ensures Unmarshal(m, d) == Ok(FieldAt(m, d, 0).value.0)
  {
    hide FieldAt;
    assert UnmarshalFrom(FieldAt(m, d, 0).value.0, d, |d|) == Ok(FieldAt(m, d, 0).value.0);
  }

  /** A tag byte below 128 is a varint by itself. */
  lemma ReadTag(tag: byte, s: bytes)
    requires tag < 128
    ensures ReadVarint([tag] + s, 0) == Ok((tag, 1))
  {
    ReadEncoded(tag, [tag] + s, 0);
  }

  lemma Int64Sign(v: int64)
    ensures ToInt64(ToUint64(v)) == v
  {
  }

  lemma Int64Field(m: Message, field: int, tag: byte, v: int64)
    requires tag == 8 * field && 1 <= field <= 15 && Known(m, field) && v != 0
    requires m.OfContact? || m.OfAccountInfo?
    requires m.OfContact? ==> field == 1
    requires m.OfAccountInfo? ==> field != 2
    requires |EncodeInt64(tag, v)| <= MAX_LENGTH
    ensures FieldAt(m, EncodeInt64(tag, v), 0) ==
            Ok((match m
                case OfContact(c) => OfContact(c.(accountId := v))
                case OfAccountInfo(a) =>
                  OfAccountInfo(if field == 1 then a.(accountId := v)
                                else if field == 3 then a.(lastMsgTs := v) else a.(creationTime := v)),
                |EncodeInt64(tag, v)|))
  {
    hide ReadVarint, EncodeVarint, ToUint64, ToInt64;
    var s := EncodeVarint(ToUint64(v));
    var d := [tag] + s;
    ReadTag(tag, s);
    assert d[1..1 + |s|] == s;
    ReadEncoded(ToUint64(v), d, 1);
    Int64Sign(v);
  }

  lemma PayloadStep(tag: byte, s: bytes, d: bytes)
    requires d == EncodePayload(tag, s) && |d| <= MAX_LENGTH
    ensures PayloadAt(d, 1, 2) == Ok((s, |d|))
  {
    hide ReadVarint, EncodeVarint;
    var n := EncodeVarint(|s|);
    assert d[1..1 + |n|] == n;
    ReadEncoded(|s|, d, 1);
    assert d[1 + |n|..|d|] == s;
  }

  lemma Chain(m: Message, d1: bytes, m1: Message, d2: bytes, m2: Message)
    requires |d1| + |d2| <= MAX_LENGTH && Unmarshal(m, d1) == Ok(m1) && Unmarshal(m1, d2) == Ok(m2)
    ensures Unmarshal(m, d1 + d2) == Ok(m2)
  {
    hide UnmarshalFrom;
    DecodeConcat(m, d1, d2);
  }

  lemma Nothing(m: Message)
    ensures Unmarshal(m, []) == Ok(m)
  {
  }

  // ----- Foreign fields are kept

  lemma ForeignField(m: Message, f: Field)
    requires WellFormed(f) && FieldNumber(f) > 0 && !Known(m, FieldNumber(f)) && |FieldBytes(f)| <= MAX_LENGTH
    ensures Unmarshal(m, FieldBytes(f)) == Ok(AddUnrecognized(m, FieldBytes(f)))
  {
    hide Skip, ReadVarint, Known, KnownAt, FieldBytes, UnmarshalFrom, AddUnrecognized;
    var d := FieldBytes(f);
    assert d + [] == d;
    TagOf(f, []);
    SkipField(f, []);
    assert d[0..] == d && d[0..|d|] == d;
    OneField(m, d);
  }

  lemma {:induction false} ForeignFieldsKept(m: Message, fs: seq<Field>)
    requires ForeignFields(m, fs) && |MemberBytes(fs)| <= MAX_LENGTH
    ensures Unmarshal(m, MemberBytes(fs)) == Ok(AddUnrecognized(m, MemberBytes(fs)))
    decreases fs
  {
    hide UnmarshalFrom, FieldBytes, WellFormed;
    if fs == [] {
      Nothing(m);
      NothingUnrecognized(m);
    } else {
      var d1, d2 := FieldBytes(fs[0]), MemberBytes(fs[1..]);
      var m1 := AddUnrecognized(m, d1);
      assert fs[0] in fs;
      ForeignField(m, fs[0]);
      ForeignFieldsKept(m1, fs[1..]);
      Chain(m, d1, m1, d2, AddUnrecognized(m1, d2));
      UnrecognizedAppend(m, d1, d2);
    }
  }

  lemma NothingUnrecognized(m: Message)
    ensures AddUnrecognized(m, []) == m
  {
  }

  lemma UnrecognizedAppend(m: Message, s: bytes, t: bytes)
    ensures AddUnrecognized(AddUnrecognized(m, s), t) == AddUnrecognized(m, s + t)
  {
    match m
    case OfContact(c) => assert c.unrecognized + s + t == c.unrecognized + (s + t);
    case OfContactList(l) => assert l.unrecognized + s + t == l.unrecognized + (s + t);
    case OfLikerList(l) => assert l.unrecognized + s + t == l.unrecognized + (s + t);
    case OfAccountInfo(a) => assert a.unrecognized + s + t == a.unrecognized + (s + t);
  }

  lemma ForeignBytesKept(m: Message, n: Message, s: bytes)
    requires SameType(m, n) && ForeignBytes(n, s) && |s| <= MAX_LENGTH
    ensures Unmarshal(m, s) == Ok(AddUnrecognized(m, s))
  {
    hide UnmarshalFrom, WellFormed;
    var fs: seq<Field> :| ForeignFields(n, fs) && s == MemberBytes(fs);
    assert ForeignFields(m, fs);
    ForeignFieldsKept(m, fs);
  }

  // ----- Each message type

  lemma ReadContact(a: Contact, b: Contact)
    requires StorableContact(b) && |EncodeContact(b)| <= MAX_LENGTH
    ensures Unmarshal(OfContact(a), EncodeContact(b)) == Ok(Merge(OfContact(a), OfContact(b)))
  {
    hide UnmarshalFrom, Unmarshal, EncodeInt64, EncodePayload, ForeignBytes;
    var m := OfContact(a);
    var d1 := EncodeInt64(0x8, b.accountId);
    var m1 := OfContact(a.(accountId := Later(a.accountId, b.accountId)));
    ReadInt64(m, 1, 0x8, b.accountId);
    var d2 := if b.remarkName == [] then [] else EncodePayload(0x12, b.remarkName);
    var m2 := OfContact(m1.contact.(remarkName := if b.remarkName == [] then a.remarkName else b.remarkName));
    if b.remarkName == [] { Nothing(m1); } else { ReadName(m1.contact, b.remarkName); }
    Chain(m, d1, m1, d2, m2);
    ForeignBytesKept(m2, OfContact(b), b.unrecognized);
    Chain(m, d1 + d2, m2, b.unrecognized, AddUnrecognized(m2, b.unrecognized));
  }

  lemma ReadName(c: Contact, s: bytes)
    requires |EncodePayload(0x12, s)| <= MAX_LENGTH
    ensures Unmarshal(OfContact(c), EncodePayload(0x12, s)) == Ok(OfContact(c.(remarkName := s)))
  {
    hide ReadVarint, PayloadAt, EncodeVarint, Unmarshal, UnmarshalFrom;
    var d := EncodePayload(0x12, s);
    assert d == [0x12] + (EncodeVarint(|s|) + s);
    ReadTag(0x12, EncodeVarint(|s|) + s);
    PayloadStep(0x12, s, d);
    OneField(OfContact(c), d);
  }

  /** Field 1, 3 or 4 of an account, or field 1 of a contact, set to the later value. */
  function SetInt64(m: Message, field: int, v: int64): Message {
    match m
    case OfContact(c) => OfContact(c.(accountId := Later(c.accountId, v)))
    case OfAccountInfo(a) =>
      OfAccountInfo(if field == 1 then a.(accountId := Later(a.accountId, v))
                    else if field == 3 then a.(lastMsgTs := Later(a.lastMsgTs, v))
                    else a.(creationTime := Later(a.creationTime, v)))
    case _ => m
  }

  lemma ReadInt64(m: Message, field: int, tag: byte, v: int64)
    requires tag == 8 * field && Known(m, field) && (m.OfContact? || m.OfAccountInfo?)
    requires if m.OfContact? then field == 1 else field != 2
    requires |EncodeInt64(tag, v)| <= MAX_LENGTH
    ensures Unmarshal(m, EncodeInt64(tag, v)) == Ok(SetInt64(m, field, v))
  {
    hide FieldAt, UnmarshalFrom;
    if v == 0 {
      assert UnmarshalFrom(m, [], 0) == Ok(m) by { Nothing(m); }
    } else {
      Int64Field(m, field, tag, v);
      OneField(m, EncodeInt64(tag, v));
    }
  }

  lemma ReadListEntry(l: ContactList, c: Contact)
    requires StorableContact(c) && |EncodePayload(0xa, EncodeContact(c))| <= MAX_LENGTH
    ensures Unmarshal(OfContactList(l), EncodePayload(0xa, EncodeContact(c)))
            == Ok(OfContactList(l.(contacts := l.contacts + [c])))
  {
    hide ReadVarint, PayloadAt, EncodeVarint, Unmarshal, EncodeContact, StorableContact;
    var s := EncodeContact(c);
    var d := EncodePayload(0xa, s);
    assert d == [0xa] + (EncodeVarint(|s|) + s);
    ReadTag(0xa, EncodeVarint(|s|) + s);
    PayloadStep(0xa, s, d);
    ReadContact(EMPTY_CONTACT, c);
    MergeWithEmpty(OfContact(c));
    UnmarshalIsFromZero(OfContact(EMPTY_CONTACT), s);
    OneField(OfContactList(l), d);
  }

  lemma UnmarshalIsFromZero(m: Message, d: bytes)
    requires |d| <= MAX_LENGTH
    ensures Unmarshal(m, d) == UnmarshalFrom(m, d, 0)
  {
  }

  lemma {:induction false} ReadEntries(l: ContactList, cs: seq<Contact>)
    requires (forall c :: c in cs ==> StorableContact(c)) && |EncodeContacts(cs)| <= MAX_LENGTH
    ensures Unmarshal(OfContactList(l), EncodeContacts(cs)) == Ok(OfContactList(l.(contacts := l.contacts + cs)))
    decreases cs
  {
    hide Unmarshal, EncodeContact, EncodePayload, StorableContact;
    if cs == [] {
      Nothing(OfContactList(l));
      assert l.contacts + cs == l.contacts;
    } else {
      var d1, d2 := EncodePayload(0xa, EncodeContact(cs[0])), EncodeContacts(cs[1..]);
      var l1 := l.(contacts := l.contacts + [cs[0]]);
      assert cs[0] in cs;
      ReadListEntry(l, cs[0]);
      ReadEntries(l1, cs[1..]);
      assert l1.contacts + cs[1..] == l.contacts + cs;
      Chain(OfContactList(l), d1, OfContactList(l1), d2, OfContactList(l.(contacts := l.contacts + cs)));
    }
  }

  lemma ReadList(a: ContactList, b: ContactList)
    requires StorableList(b) && |EncodeList(b)| <= MAX_LENGTH
    ensures Unmarshal(OfContactList(a), EncodeList(b)) == Ok(OfContactList(MergeLists(a, b)))
  {
    hide Unmarshal, EncodeContacts, StorableContact, ForeignBytes;
    var m1 := OfContactList(a.(contacts := a.contacts + b.contacts));
    ReadEntries(a, b.contacts);
    ForeignBytesKept(m1, OfContactList(b), b.unrecognized);
    Chain(OfContactList(a), EncodeContacts(b.contacts), m1, b.unrecognized, OfContactList(MergeLists(a, b)));
  }

  /** Packed values are read back one by one, and the reading ends with the payload. */
  lemma {:induction false} PackedEncoded(vs: seq<int64>, d: bytes, i: nat)
    requires i + |EncodeVarints(vs)| <= |d| && d[i..i + |EncodeVarints(vs)|] == EncodeVarints(vs)
    ensures ReadPacked(d, i, i + |EncodeVarints(vs)|) == Ok((vs, i + |EncodeVarints(vs)|))
    decreases vs
  {
    hide ReadVarint, EncodeVarint, ToUint64, ToInt64;
    if vs != [] {
      var s, t := EncodeVarint(ToUint64(vs[0])), EncodeVarints(vs[1..]);
      var j := i + |s|;
      SliceOfSlice(d, i, i + |s + t|, i, j);
      SliceOfSlice(d, i, i + |s + t|, j, j + |t|);
      assert (s + t)[..|s|] == s && (s + t)[|s|..] == t;
      ReadEncoded(ToUint64(vs[0]), d, i);
      Int64Sign(vs[0]);
      PackedEncoded(vs[1..], d, j);
      assert vs == [vs[0]] + vs[1..];
    }
  }

  lemma ReadPackedLikers(l: LikerList, vs: seq<int64>)
    requires |EncodePayload(0xa, EncodeVarints(vs))| <= MAX_LENGTH
    ensures Unmarshal(OfLikerList(l), EncodePayload(0xa, EncodeVarints(vs)))
            == Ok(OfLikerList(l.(likers := l.likers + vs)))
  {
    hide ReadVarint, ReadLength, EncodeVarint, Unmarshal, UnmarshalFrom, EncodeVarints, ReadPacked;
    var s := EncodeVarints(vs);
    var d := EncodePayload(0xa, s);
    assert d == [0xa] + (EncodeVarint(|s|) + s);
    ReadTag(0xa, EncodeVarint(|s|) + s);
    PayloadLength(0xa, s, d);
    var start := 1 + |EncodeVarint(|s|)|;
    PackedEncoded(vs, d, start);
    OneField(OfLikerList(l), d);
  }

  lemma PayloadLength(tag: byte, s: bytes, d: bytes)
    requires d == EncodePayload(tag, s) && |d| <= MAX_LENGTH
    ensures var start := 1 + |EncodeVarint(|s|)|;
            start + |s| == |d| && d[start..start + |s|] == s && ReadLength(d, 1) == Ok((start, |d|))
  {
    hide ReadVarint, EncodeVarint;
    var n := EncodeVarint(|s|);
    assert d[1..1 + |n|] == n;
    ReadEncoded(|s|, d, 1);
  }

  lemma ReadLikers(a: LikerList, b: LikerList)
    requires ForeignBytes(OfLikerList(b), b.unrecognized) && |EncodeLikers(b)| <= MAX_LENGTH
    ensures Unmarshal(OfLikerList(a), EncodeLikers(b)) == Ok(Merge(OfLikerList(a), OfLikerList(b)))
  {
    hide Unmarshal, EncodePayload, EncodeVarints, ForeignBytes;
    var d1 := if b.likers == [] then [] else EncodePayload(0xa, EncodeVarints(b.likers));
    var m1 := OfLikerList(a.(likers := a.likers + b.likers));
    if b.likers == [] {
      Nothing(OfLikerList(a));
      assert a.likers + b.likers == a.likers;
    } else {
      ReadPackedLikers(a, b.likers);
    }
    ForeignBytesKept(m1, OfLikerList(b), b.unrecognized);
    Chain(OfLikerList(a), d1, m1, b.unrecognized, AddUnrecognized(m1, b.unrecognized));
  }

  function MergeOptional(a: Option<ContactList>, b: Option<ContactList>): Option<ContactList> {
    match b
    case None => a
    case Some(l) => Some(MergeLists(match a case None => EMPTY_LIST case Some(k) => k, l))
  }

  lemma ReadAccountList(a: AccountInfo, l: ContactList)
    requires StorableList(l) && |EncodePayload(0x12, EncodeList(l))| <= MAX_LENGTH
    ensures Unmarshal(OfAccountInfo(a), EncodePayload(0x12, EncodeList(l)))
            == Ok(OfAccountInfo(a.(cl := MergeOptional(a.cl, Some(l)))))
  {
    hide ReadVarint, PayloadAt, EncodeVarint, Unmarshal, EncodeList, StorableList;
    var s := EncodeList(l);
    var d := EncodePayload(0x12, s);
    assert d == [0x12] + (EncodeVarint(|s|) + s);
    ReadTag(0x12, EncodeVarint(|s|) + s);
    PayloadStep(0x12, s, d);
    var held := match a.cl case None => EMPTY_LIST case Some(k) => k;
    ReadList(held, l);
    UnmarshalIsFromZero(OfContactList(held), s);
    OneField(OfAccountInfo(a), d);
  }

  lemma MergeOptionalIsMerge(a: Option<ContactList>, b: Option<ContactList>)
    ensures MergeOptional(a, b) ==
            match (a, b)
            case (_, None) => a
            case (None, Some(l)) => Some(l)
            case (Some(k), Some(l)) => Some(MergeLists(k, l))
  {
    if a.None? && b.Some? {
      assert EMPTY_LIST.contacts + b.value.contacts == b.value.contacts;
      assert EMPTY_LIST.unrecognized + b.value.unrecognized == b.value.unrecognized;
    }
  }

  lemma ReadAccount(a: AccountInfo, b: AccountInfo)
    requires Storable(OfAccountInfo(b)) && |EncodeAccount(b)| <= MAX_LENGTH
    ensures Unmarshal(OfAccountInfo(a), EncodeAccount(b)) == Ok(Merge(OfAccountInfo(a), OfAccountInfo(b)))
  {
    hide Unmarshal, EncodeInt64, EncodePayload, EncodeList, ForeignBytes, StorableList, MergeOptional;
    var m := OfAccountInfo(a);
    var d1 := EncodeInt64(0x8, b.accountId);
    var a1 := a.(accountId := Later(a.accountId, b.accountId));
    ReadInt64(m, 1, 0x8, b.accountId);
    var d2 := match b.cl case None => [] case Some(l) => EncodePayload(0x12, EncodeList(l));
    var a2 := a1.(cl := MergeOptional(a.cl, b.cl));
    MergeOptionalIsMerge(a.cl, b.cl);
    if b.cl.None? { Nothing(OfAccountInfo(a1)); } else { ReadAccountList(a1, b.cl.value); }
    var d3 := EncodeInt64(0x18, b.lastMsgTs);
    var a3 := a2.(lastMsgTs := Later(a.lastMsgTs, b.lastMsgTs));
    ReadInt64(OfAccountInfo(a2), 3, 0x18, b.lastMsgTs);
    var d4 := EncodeInt64(0x20, b.creationTime);
    var a4 := a3.(creationTime := Later(a.creationTime, b.creationTime));
    ReadInt64(OfAccountInfo(a3), 4, 0x20, b.creationTime);
    ForeignBytesKept(OfAccountInfo(a4), OfAccountInfo(b), b.unrecognized);
    Chain(m, d1, OfAccountInfo(a1), d2, OfAccountInfo(a2));
    Chain(m, d1 + d2, OfAccountInfo(a2), d3, OfAccountInfo(a3));
    Chain(m, d1 + d2 + d3, OfAccountInfo(a3), d4, OfAccountInfo(a4));
    Chain(m, d1 + d2 + d3 + d4, OfAccountInfo(a4), b.unrecognized, AddUnrecognized(OfAccountInfo(a4), b.unrecognized));
  }

  // ----- The main results

  /** Decoding an encoded message into a message that holds m merges it into m. */
  lemma DecodeOfEncode(m: Message, n: Message)
    requires SameType(m, n) && Storable(n) && |Encode(n)| <= MAX_LENGTH
    ensures Unmarshal(m, Encode(n)) == Ok(Merge(m, n))
  {
    match n
    case OfContact(b) => ReadContact(m.contact, b);
    case OfContactList(b) => ReadList(m.list, b);
    case OfLikerList(b) => ReadLikers(m.likerList, b);
    case OfAccountInfo(b) => ReadAccount(m.account, b);
  }

  /** Into a fresh message it gives the message back. */
  lemma RoundTrip(m: Message)
    requires Storable(m) && |Encode(m)| <= MAX_LENGTH
    ensures Unmarshal(Empty(m), Encode(m)) == Ok(m)
  {
    DecodeOfEncode(Empty(m), m);
    MergeWithEmpty(m);
  }

  /** Two encodings one after the other decode to the merge of the messages. */
  lemma DecodeOfConcatenation(m: Message, n: Message)
    requires SameType(m, n) && Storable(m) && Storable(n) && |Encode(m)| + |Encode(n)| <= MAX_LENGTH
    ensures Unmarshal(Empty(m), Encode(m) + Encode(n)) == Ok(Merge(m, n))
  {
    RoundTrip(m);
    DecodeOfEncode(m, n);
    Chain(Empty(m), Encode(m), m, Encode(n), Merge(m, n));
  }
}
