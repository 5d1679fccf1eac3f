/** The codec byte by byte: what a varint is worth and when it cannot be read, which numbers the
messages give to their fields, and what known messages look like. */
module CodecBytes {
  import opened Options
  import opened Results
  import opened Wire
  import opened WireFields
  import opened Messages
  import opened Encoding

  // ----- Varints

  /** The value of groups of seven bits, the low ones first. */
  function GroupValue(s: bytes): nat {
    if s == [] then 0 else s[0] % 128 + 128 * GroupValue(s[1..])
  }

  /** The first byte at or after i that ends a varint. */
  ghost predicate EndsAt(d: bytes, i: nat, j: nat) {
    i <= j < |d| && d[j] < 128 && forall x :: i <= x < j ==> d[x] >= 128
  }

  lemma ModuloOfSum(a: nat, b: nat)
    ensures (a % 0x1_0000_0000_0000_0000 + b) % 0x1_0000_0000_0000_0000 == (a + b) % 0x1_0000_0000_0000_0000
  {
    var m := 0x1_0000_0000_0000_0000;
    var q, r := a / m, a % m;
    assert a + b == q * m + (r + b);
    ModuloOfMultiple(q, r + b);
  }

  lemma ModuloOfMultiple(q: nat, x: nat)
    ensures (q * 0x1_0000_0000_0000_0000 + x) % 0x1_0000_0000_0000_0000 == x % 0x1_0000_0000_0000_0000
  {
  }

  lemma ShiftGroups(b: nat, v: nat, k: nat)
    ensures Shifted(b + 128 * v, k) == Shifted(b, k) + Shifted(v, k + 1)
  {
    var p := Power128(k);
    assert Power128(k + 1) == 128 * p;
    assert (128 * v) * p == v * (128 * p);
    assert (b + 128 * v) * p == b * p + (128 * v) * p;
  }

  lemma {:induction false} ReadFromIsGroups(d: bytes, i: nat, k: nat, acc: uint64, j: nat)
    requires EndsAt(d, i, j) && j - i + k < 10
    ensures ReadVarintFrom(d, i, k, acc)
            == Ok(((acc + Shifted(GroupValue(d[i..j + 1]), k)) % 0x1_0000_0000_0000_0000, j + 1))
    decreases j - i
  {
    hide Shifted;
    var s := d[i..j + 1];
    var b := d[i] % 128;
    var rest := GroupValue(d[i + 1..j + 1]);
    assert s[1..] == d[i + 1..j + 1];
    ShiftGroups(b, rest, k);
    if i < j {
      var acc' := (acc + Shifted(b, k)) % 0x1_0000_0000_0000_0000;
      ReadFromIsGroups(d, i + 1, k + 1, acc', j);
      ModuloOfSum(acc + Shifted(b, k), Shifted(rest, k + 1));
    } else {
      assert Shifted(0, k + 1) == 0 by { NothingShifted(k + 1); }
    }
  }

  lemma NothingShifted(k: nat)
    ensures Shifted(0, k) == 0
  {
  }

  lemma {:induction false} ReadFromFails(d: bytes, i: nat, k: nat, acc: uint64)
    requires i <= |d| && k <= 10 && forall x :: i <= x < |d| && x < i + (10 - k) ==> d[x] >= 128
    ensures ReadVarintFrom(d, i, k, acc) == Err(if |d| - i >= 10 - k then IntOverflow else UnexpectedEOF)
    decreases 10 - k
  {
    if k < 10 && i < |d| {
      ReadFromFails(d, i + 1, k + 1, (acc + Shifted(d[i] % 128, k)) % 0x1_0000_0000_0000_0000);
    }
  }

  /** A varint is worth its groups, without the bits above the 64th; it ends at the first byte below
  128, which must be one of ten. */
  lemma VarintIsGroups(d: bytes, i: nat, j: nat)
    requires EndsAt(d, i, j) && j < i + 10
    ensures ReadVarint(d, i) == Ok((GroupValue(d[i..j + 1]) % 0x1_0000_0000_0000_0000, j + 1))
  {
    ReadFromIsGroups(d, i, 0, 0, j);
    assert Shifted(GroupValue(d[i..j + 1]), 0) == GroupValue(d[i..j + 1]);
  }

  /** Without such a byte there is no varint: after ten bytes it overflows, and otherwise the
  buffer has ended. */
  lemma NoVarint(d: bytes, i: nat)
    requires i <= |d| && forall x :: i <= x < |d| && x < i + 10 ==> d[x] >= 128
    ensures ReadVarint(d, i) == Err(if |d| - i >= 10 then IntOverflow else UnexpectedEOF)
  {
    ReadFromFails(d, i, 0, 0);
  }

  /** Signed numbers are their remainders modulo 2^64. */
  lemma TwosComplement(v: int64, u: uint64)
    ensures ToUint64(v) == v % 0x1_0000_0000_0000_0000
    ensures ToInt64(u) % 0x1_0000_0000_0000_0000 == u
  {
  }

  lemma {:induction false} GroupsOfEncoding(v: nat)
    ensures GroupValue(EncodeVarint(v)) == v && forall x :: 0 <= x < |EncodeVarint(v)| - 1 ==> EncodeVarint(v)[x] >= 128
    ensures EncodeVarint(v)[|EncodeVarint(v)| - 1] < 128 && (v >= 128 ==> EncodeVarint(v)[|EncodeVarint(v)| - 1] > 0)
    decreases v
  {
    if v >= 128 {
      GroupsOfEncoding(v / 128);
      assert EncodeVarint(v)[1..] == EncodeVarint(v / 128);
    } else {
      assert GroupValue([v]) == v + 128 * GroupValue([]);
    }
  }

  // ----- Tags

  /** The number and the wire type that stand in a tag, and the tags that are refused. */
  lemma TagsRefused(m: Message, d: bytes, i: nat)
    requires i < |d| <= MAX_LENGTH && ReadVarint(d, i).Ok?
    ensures var wire := ReadVarint(d, i).value.0;
            var low := wire / 8 % 0x1_0000_0000;
            && (wire % 8 == 4 ==> FieldAt(m, d, i) == Err(EndGroup))
            && (wire % 8 != 4 && (low == 0 || low >= 0x8000_0000) ==> FieldAt(m, d, i) == Err(IllegalTag))
  {
    hide ReadVarint, KnownAt, UnknownAt;
  }

  /** A well-formed field whose number is greater than 2 in a contact, 1 in a list, or 4 in an
  account, is kept behind the bytes kept so far, and nothing else changes. */
  lemma UndeclaredKept(m: Message, f: Field)
    requires WellFormed(f) && |FieldBytes(f)| <= MAX_LENGTH && VarintValue(f.tag) / 8 < 0x8000_0000
    requires m.OfContact? ==> VarintValue(f.tag) / 8 >= 3
    requires m.OfContactList? || m.OfLikerList? ==> VarintValue(f.tag) / 8 >= 2
    requires m.OfAccountInfo? ==> VarintValue(f.tag) / 8 >= 5
    ensures m.OfContact? ==>
              var c := m.contact;
              Unmarshal(m, FieldBytes(f))
              == Ok(OfContact(Contact(c.accountId, c.remarkName, c.unrecognized + FieldBytes(f))))
    ensures m.OfContactList? ==>
              Unmarshal(m, FieldBytes(f))
              == Ok(OfContactList(ContactList(m.list.contacts, m.list.unrecognized + FieldBytes(f))))
    ensures m.OfLikerList? ==>
              Unmarshal(m, FieldBytes(f))
              == Ok(OfLikerList(LikerList(m.likerList.likers, m.likerList.unrecognized + FieldBytes(f))))
    ensures m.OfAccountInfo? ==>
              var a := m.account;
              Unmarshal(m, FieldBytes(f))
              == Ok(OfAccountInfo(AccountInfo(a.accountId, a.cl, a.lastMsgTs, a.creationTime,
                                              a.unrecognized + FieldBytes(f))))
  {
    SmallNumber(VarintValue(f.tag) / 8);
    hide WellFormed, VarintValue, FieldBytes, Unmarshal;
    ForeignField(m, f);
  }

  lemma SmallNumber(n: nat)
    ensures n < 0x8000_0000 ==> ToInt32(n) == n
  {
  }

  /** A declared field with another wire type is refused. */
  lemma WrongTypeRefused(m: Message, d: bytes, number: int, wireType: int)
    requires 0 < |d| <= MAX_LENGTH && ReadVarint(d, 0).Ok? && ReadVarint(d, 0).value.0 == 8 * number + wireType
    requires 1 <= number && 0 <= wireType <= 7 && wireType != 4
    requires (m.OfContact? && ((number == 1 && wireType != 0) || (number == 2 && wireType != 2)))
             || (m.OfContactList? && number == 1 && wireType != 2)
             || (m.OfLikerList? && number == 1 && wireType != 0 && wireType != 2)
             || (m.OfAccountInfo?
                 && ((number == 2 && wireType != 2) || ((number == 1 || 3 <= number <= 4) && wireType != 0)))
    ensures FieldAt(m, d, 0) == Err(WrongWireType)
  {
    hide ReadVarint;
    assert (8 * number + wireType) / 8 == number && (8 * number + wireType) % 8 == wireType;
    SmallNumber(number);
  }

  // ----- Lengths

  /** A length below 2^63 leads to the end of its payload, which must lie in the buffer. */
  lemma LengthRead(d: bytes, i: nat, u: uint64, start: nat)
    requires i <= |d| <= MAX_LENGTH && ReadVarint(d, i) == Ok((u, start))
    ensures start + u <= |d| ==> ReadLength(d, i) == Ok((start, start + u))
    ensures |d| < start + u < 0x8000_0000_0000_0000 ==> ReadLength(d, i) == Err(UnexpectedEOF)
    ensures start + u >= 0x8000_0000_0000_0000 ==> ReadLength(d, i) == Err(InvalidLength)
  {
    hide ReadVarint;
  }

  lemma NoLength(d: bytes, i: nat, e: WireError)
    requires i <= |d| <= MAX_LENGTH && ReadVarint(d, i) == Err(e)
    ensures ReadLength(d, i) == Err(e)
  {
    hide ReadVarint;
  }

  /** How long the skipper takes a field to be, by the wire type of its tag. */
  lemma SkipByWireType(d: bytes, wire: uint64, i: nat)
    requires 0 < |d| <= MAX_LENGTH && ReadVarint(d, 0) == Ok((wire, i))
    ensures wire % 8 == 0 ==>
              Skip(d) == if ReadVarint(d, i).Ok? then Ok(ReadVarint(d, i).value.1) else Err(ReadVarint(d, i).error)
    ensures wire % 8 == 1 ==> Skip(d) == Ok(i + 8)
    ensures wire % 8 == 2 ==>
              Skip(d) == if ReadVarint(d, i).Err? then Err(ReadVarint(d, i).error)
                         else
                           var (u, j) := ReadVarint(d, i).value;
                           if j + u < 0x8000_0000_0000_0000 then Ok(j + u) else Err(InvalidLength)
    ensures wire % 8 == 3 && i >= |d| ==> Skip(d) == Err(UnexpectedEOF)
    ensures wire % 8 == 5 ==> Skip(d) == Ok(i + 4)
    ensures wire % 8 == 6 || wire % 8 == 7 ==> Skip(d) == Err(IllegalWireType)
  {
    hide ReadVarint, SkipGroup;
    if wire % 8 == 3 && i >= |d| { assert SkipGroup(d, i) == Err(UnexpectedEOF) by { GroupPastEnd(d, i); } }
  }

  lemma GroupPastEnd(d: bytes, i: nat)
    requires |d| <= MAX_LENGTH && 1 <= i < 0x8000_0000_0000_0000 && i >= |d|
    ensures SkipGroup(d, i) == Err(UnexpectedEOF)
  {
  }

  /** A field of unknown number is kept if it ends in the buffer. */
  lemma UnknownRead(d: bytes, i: nat, n: int64)
    requires i < |d| <= MAX_LENGTH && Skip(d[i..]) == Ok(n)
    ensures i + n <= |d| ==> UnknownAt(d, i) == Ok((d[i..i + n], i + n))
    ensures |d| < i + n < 0x8000_0000_0000_0000 ==> UnknownAt(d, i) == Err(UnexpectedEOF)
    ensures i + n >= 0x8000_0000_0000_0000 ==> UnknownAt(d, i) == Err(InvalidLength)
  {
    hide Skip;
  }

  // ----- Known messages

  lemma SmallVarints()
    ensures forall v: nat :: v < 128 ==> EncodeVarint(v) == [v]
    ensures EncodeVarint(150) == [0x96, 0x01] && EncodeVarint(300) == [0xac, 0x02]
  {
  }

  /** A contact 150 whose remark name is "testing". */
  lemma TestingContact()
    ensures EncodeContact(Contact(150, [116, 101, 115, 116, 105, 110, 103], []))
            == [0x08, 0x96, 0x01, 0x12, 0x07, 116, 101, 115, 116, 105, 110, 103]
  {
    SmallVarints();
    hide EncodeVarint;
  }

  lemma SmallList()
    ensures EncodeList(ContactList([Contact(6, [97], [])], [])) == [0x0a, 5, 0x08, 6, 0x12, 1, 97]
  {
    SmallVarints();
    hide EncodeVarint;
    var c := Contact(6, [97], []);
    assert EncodeContact(c) == [0x08, 6, 0x12, 1, 97];
    hide EncodeContact;
    assert EncodeContacts([c]) == EncodePayload(0x0a, EncodeContact(c)) + EncodeContacts([]);
  }

  /** An account with one contact: its fields have the numbers 1, 2, 3 and 4, the contact list
  inside the account and the contact inside the list. */
  lemma SmallAccount()
    ensures EncodeAccount(AccountInfo(5, Some(ContactList([Contact(6, [97], [])], [])), 7, 8, []))
            == [0x08, 5, 0x12, 7, 0x0a, 5, 0x08, 6, 0x12, 1, 97, 0x18, 7, 0x20, 8]
  {
    var l := ContactList([Contact(6, [97], [])], []);
    SmallPayload(l);
    SmallNumbers();
    hide EncodeList, EncodePayload, EncodeInt64;
    var d1, d2, d3, d4: bytes := [0x08, 5], [0x12, 7, 0x0a, 5, 0x08, 6, 0x12, 1, 97], [0x18, 7], [0x20, 8];
    assert EncodeAccount(AccountInfo(5, Some(l), 7, 8, [])) == d1 + d2 + d3 + d4 + [];
  }

  lemma SmallPayload(l: ContactList)
    requires l == ContactList([Contact(6, [97], [])], [])
    ensures EncodePayload(0x12, EncodeList(l)) == [0x12, 7, 0x0a, 5, 0x08, 6, 0x12, 1, 97]
  {
    SmallVarints();
    SmallList();
    hide EncodeVarint, EncodeList;
  }

  lemma SmallNumbers()
    ensures EncodeInt64(0x8, 5) == [0x08, 5] && EncodeInt64(0x18, 7) == [0x18, 7] && EncodeInt64(0x20, 8) == [0x20, 8]
  {
    SmallVarints();
    hide EncodeVarint;
  }

  /** Three likers in one packed field. */
  lemma SmallLikers()
    ensures EncodeLikers(LikerList([3, 300, 4], [])) == [0x0a, 4, 3, 0xac, 0x02, 4]
  {
    SmallVarints();
    hide EncodeVarint;
    assert EncodeVarints([4]) == [4] + EncodeVarints([]);
    assert [300, 4][1..] == [4] && [3, 300, 4][1..] == [300, 4];
    assert EncodeVarints([300, 4]) == [0xac, 0x02, 4];
    assert EncodeVarints([3, 300, 4]) == [3, 0xac, 0x02, 4];
  }

  lemma LastGroups()
    ensures EncodeVarint(0xf_ffff_ffff) == [0xff, 0xff, 0xff, 0xff, 0xff, 0x01]
  {
    hide EncodeVarint;
    NextGroup(1);
    NextGroup(0xff);
    NextGroup(0x7fff);
    assert EncodeVarint(0x7fff) == [0xff, 0xff, 0x01];
    NextGroup(0x3f_ffff);
    NextGroup(0x1fff_ffff);
    NextGroup(0xf_ffff_ffff);
  }

  /** -1 takes ten bytes. */
  lemma MinusOne()
    ensures EncodeInt64(0x8, -1) == [0x08, 0xff, 0xff, 0xff, 0xff, 0xff, 0xff, 0xff, 0xff, 0xff, 0x01]
  {
    hide EncodeVarint;
    LastGroups();
    NextGroup(0x7ff_ffff_ffff);
    NextGroup(0x3_ffff_ffff_ffff);
    assert EncodeVarint(0x3_ffff_ffff_ffff) == [0xff, 0xff, 0xff, 0xff, 0xff, 0xff, 0xff, 0x01];
    NextGroup(0x1ff_ffff_ffff_ffff);
    NextGroup(0xffff_ffff_ffff_ffff);
  }

  lemma NextGroup(v: nat)
    ensures EncodeVarint(v) == if v < 128 then [v] else [v % 128 + 128] + EncodeVarint(v / 128)
  {
  }
}
