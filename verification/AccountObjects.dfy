/** `AccountInfo` as an object: it refers to its contact list, which it creates on demand. */
module AccountObjects {
  import opened Options
  import opened Results
  import opened Wire
  import opened Messages
  import opened Encoding
  import opened Buffers
  import opened MessageObjects
  import opened ContactListObjects

  /** The part of the encoding that the contact list makes up. */
  function EncodeCl(cl: Option<ContactList>): bytes {
    match cl case None => [] case Some(l) => EncodePayload(0x12, EncodeList(l))
  }

  lemma AccountParts(a: AccountInfo)
    ensures EncodeAccount(a) == EncodeInt64(0x8, a.accountId) + (EncodeCl(a.cl) + (EncodeInt64(0x18, a.lastMsgTs)
                                + (EncodeInt64(0x20, a.creationTime) + a.unrecognized)))
  {
    hide EncodeInt64, EncodePayload, EncodeList;
    var d1, d2, d3 := EncodeInt64(0x8, a.accountId), EncodeCl(a.cl), EncodeInt64(0x18, a.lastMsgTs);
    var d4, d5 := EncodeInt64(0x20, a.creationTime), a.unrecognized;
    assert d3 + d4 + d5 == d3 + (d4 + d5);
    assert d2 + (d3 + d4 + d5) == d2 + d3 + d4 + d5;
    assert d1 + (d2 + d3 + d4 + d5) == d1 + d2 + d3 + d4 + d5;
  }

  class AccountInfoObject {
    var AccountId: int64
    var Cl: ContactListObject?
    var LastMsgTs: int64
    var CreationTime: int64
    var Unrecognized: bytes

    constructor ()
      ensures Value() == EMPTY_ACCOUNT && Cl == null
    {
      AccountId, Cl, LastMsgTs, CreationTime, Unrecognized := 0, null, 0, 0, [];
    }

    function ClValue(): Option<ContactList>
      reads this, Cl, if Cl == null then [] else Cl.Contacts
    {
      if Cl == null then None else Some(Cl.Value())
    }

    function Value(): AccountInfo
      reads this, Cl, if Cl == null then [] else Cl.Contacts
    {
      AccountInfo(AccountId, ClValue(), LastMsgTs, CreationTime, Unrecognized)
    }

    method Size() returns (n: nat)
      requires |EncodeAccount(Value())| <= MAX_LENGTH
      ensures n == |EncodeAccount(Value())|
    {
      hide EncodeInt64, EncodePayload, EncodeList, EncodeAccount;
      AccountParts(Value());
      n := Int64Size(AccountId);
      assert n == |EncodeInt64(0x8, AccountId)|;
      if Cl != null {
        PayloadLayout(0x12, EncodeList(Cl.Value()));
        var l := Cl.Size();
        var m := PayloadSize(l);
        assert m == |EncodePayload(0x12, EncodeList(Cl.Value()))|;
        n := n + m;
      }
      var m := Int64Size(LastMsgTs);
      assert m == |EncodeInt64(0x18, LastMsgTs)|;
      n := n + m;
      m := Int64Size(CreationTime);
      assert m == |EncodeInt64(0x20, CreationTime)|;
      n := n + m + |Unrecognized|;
    }

    method MarshalToSizedBuffer(a: array<byte>, hi: nat) returns (n: nat)
      requires |EncodeAccount(Value())| <= hi <= a.Length <= MAX_LENGTH
      modifies a
      ensures n == |EncodeAccount(Value())|
      ensures Wrote(old(a[..]), a[..], hi - n, hi, EncodeAccount(Value()))
    {
      hide EncodeInt64, EncodePayload, EncodeList, EncodeAccount, EncodeCl, Wrote;
      AccountParts(Value());
      ghost var b0 := a[..];
      var i := hi - |Unrecognized|;
      Copy(a, i, Unrecognized);
      ghost var b1, i1, t1 := a[..], i, Unrecognized;
      i := PutInt64(a, i, 0x20, CreationTime);
      ghost var t2 := EncodeInt64(0x20, CreationTime) + t1;
      WroteBefore(b0, b1, a[..], i, i1, hi, EncodeInt64(0x20, CreationTime), t1);
      ghost var b2, i2 := a[..], i;
      i := PutInt64(a, i, 0x18, LastMsgTs);
      ghost var t3 := EncodeInt64(0x18, LastMsgTs) + t2;
      WroteBefore(b0, b2, a[..], i, i2, hi, EncodeInt64(0x18, LastMsgTs), t2);
      ghost var b3, i3 := a[..], i;
      i := MarshalCl(a, i);
      ghost var t4 := EncodeCl(ClValue()) + t3;
      WroteBefore(b0, b3, a[..], i, i3, hi, EncodeCl(ClValue()), t3);
      ghost var b4, i4 := a[..], i;
      i := PutInt64(a, i, 0x8, AccountId);
      WroteBefore(b0, b4, a[..], i, i4, hi, EncodeInt64(0x8, AccountId), t4);
      n := hi - i;
    }

    /** The contact list with its tag and length, in front of position hi. */
    method MarshalCl(a: array<byte>, hi: nat) returns (i: nat)
      requires |EncodeCl(ClValue())| <= hi <= a.Length <= MAX_LENGTH
      modifies a
      ensures i == hi - |EncodeCl(ClValue())| && Wrote(old(a[..]), a[..], i, hi, EncodeCl(ClValue()))
    {
      hide EncodePayload, EncodeList, Wrote, Header;
      ghost var b0 := a[..];
      i := hi;
      if Cl != null {
        var s := EncodeList(Cl.Value());
        PayloadLayout(0x12, s);
        var size := Cl.MarshalToSizedBuffer(a, i);
        i := i - size;
        ghost var b1, i1 := a[..], i;
        i := PutHeader(a, i, 0x12, size);
        WroteBefore(b0, b1, a[..], i, i1, hi, Header(0x12, size), s);
      } else {
        WroteNothing(b0, i);
      }
    }

    method Marshal() returns (out: bytes)
      requires |EncodeAccount(Value())| <= MAX_LENGTH
      ensures out == EncodeAccount(Value())
    {
      hide EncodeAccount, Wrote;
      var size := Size();
      var a := new byte[size](_ => 0);
      ghost var b0 := a[..];
      var n := MarshalToSizedBuffer(a, size);
      WroteAll(b0, a[..], EncodeAccount(Value()));
      out := a[..n];
    }

    /** The cases of the field switch that the message declares. */
    method UnmarshalKnown(fieldNum: int, d: bytes, j: nat, wireType: int) returns (r: Result<nat, WireError>)
      requires 1 <= fieldNum <= 4 && 1 <= j <= |d| <= MAX_LENGTH
      modifies this, Cl
      ensures match KnownAt(OfAccountInfo(old(Value())), fieldNum, d, j, wireType)
              case Err(e) => r == Err(e)
              case Ok(step) => r == Ok(step.1) && OfAccountInfo(Value()) == step.0
      ensures Cl == old(Cl) || fresh(Cl)
    {
      hide PayloadAt, Int64At, UnmarshalFrom;
      if fieldNum == 2 {
        var s := DecodePayload(d, j, wireType);
        if s.Err? { return Err(s.error); }
        if Cl == null {
          Cl := new ContactListObject();
        }
        var e := Cl.Unmarshal(s.value.0);
        if e.Some? { return Err(e.value); }
        return Ok(s.value.1);
      } else {
        var v := DecodeInt64(d, j, wireType);
        if v.Err? { return Err(v.error); }
        if fieldNum == 1 {
          AccountId := v.value.0;
        } else if fieldNum == 3 {
          LastMsgTs := v.value.0;
        } else {
          CreationTime := v.value.0;
        }
        return Ok(v.value.1);
      }
    }

    method Unmarshal(d: bytes) returns (err: Option<WireError>)
      requires |d| <= MAX_LENGTH
      modifies this, Cl
      ensures Decoded(OfAccountInfo(old(Value())), d, OfAccountInfo(Value()), err)
      ensures Cl == old(Cl) || fresh(Cl)
    {
      hide ReadVarint, KnownAt, UnknownAt, UnmarshalFrom;
      var i := 0;
      while i < |d|
        invariant 0 <= i <= |d| && (Cl == old(Cl) || fresh(Cl))
        invariant UnmarshalFrom(OfAccountInfo(Value()), d, i) == UnmarshalFrom(OfAccountInfo(old(Value())), d, 0)
      {
        RunStep(OfAccountInfo(Value()), d, i);
        var tag := DecodeVarint(d, i);
        if tag.Err? { return Some(tag.error); }
        var (wire, j) := tag.value;
        var fieldNum, wireType := ToInt32(wire / 8), wire % 8;
        if wireType == 4 { return Some(EndGroup); }
        if fieldNum <= 0 { return Some(IllegalTag); }
        if fieldNum <= 4 {
          var next := UnmarshalKnown(fieldNum, d, j, wireType);
          if next.Err? { return Some(next.error); }
          i := next.value;
        } else {
          var s := DecodeUnknown(d, i);
          if s.Err? { return Some(s.error); }
          Unrecognized := Unrecognized + s.value.0;
          i := s.value.1;
        }
      }
      RunStep(OfAccountInfo(Value()), d, i);
      return None;
    }
  }

  /** An account written by one object and read by a fresh one is the same account. */
  method Transfer(a: AccountInfoObject) returns (b: AccountInfoObject)
    requires |EncodeAccount(a.Value())| <= MAX_LENGTH && Storable(OfAccountInfo(a.Value()))
    ensures fresh(b) && b.Value() == a.Value() && a.Value() == old(a.Value())
  {
    hide EncodeAccount, Storable;
    var d := a.Marshal();
    b := new AccountInfoObject();
    assert Encode(OfAccountInfo(a.Value())) == d;
    RoundTrip(OfAccountInfo(a.Value()));
    var err := b.Unmarshal(d);
  }
}
