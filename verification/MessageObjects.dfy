/** The generated message structs with their methods: `Size`, `MarshalToSizedBuffer`,
`Marshal` and `Unmarshal`.  `Value()` is the message that an object holds. */
module MessageObjects {
  import opened Integers
  import opened Options
  import opened Results
  import opened Wire
  import opened Messages
  import opened Encoding
  import opened Buffers
  import M = Messages

  /** What an `Unmarshal` method owes its caller, given what the message held before. */
  ghost predicate Decoded(before: Message, d: bytes, after: Message, err: Option<WireError>)
    requires |d| <= MAX_LENGTH
  {
    match M.Unmarshal(before, d)
    case Ok(m) => err == None && after == m
    case Err(e) => err == Some(e)
  }

  // ----- Pieces that the marshalling methods share

  function Header(tag: byte, size: nat): bytes { [tag] + EncodeVarint(size) }

  /** The length of a payload and its tag, in front of position i. */
  method PutHeader(a: array<byte>, i: nat, tag: byte, size: nat) returns (j: nat)
    requires size < MAX_LENGTH && |Header(tag, size)| <= i <= a.Length
    modifies a
    ensures j == i - |Header(tag, size)| && Wrote(old(a[..]), a[..], j, i, Header(tag, size))
  {
    hide EncodeVarint, Wrote;
    ghost var b0 := a[..];
    var o := EncodeVarintBefore(a, i, size);
    ghost var b1 := a[..];
    j := PutByte(a, o, tag);
    WroteBefore(b0, b1, a[..], j, o, i, [tag], EncodeVarint(size));
  }

  /** A varint field in front of position i, unless the value is zero. */
  method PutInt64(a: array<byte>, i: nat, tag: byte, v: int64) returns (j: nat)
    requires |EncodeInt64(tag, v)| <= i <= a.Length
    modifies a
    ensures j == i - |EncodeInt64(tag, v)| && Wrote(old(a[..]), a[..], j, i, EncodeInt64(tag, v))
  {
    hide EncodeVarint, Wrote;
    ghost var b0 := a[..];
    j := i;
    if v != 0 {
      j := EncodeVarintBefore(a, j, ToUint64(v));
      ghost var b1, o := a[..], j;
      j := PutByte(a, j, tag);
      WroteBefore(b0, b1, a[..], j, o, i, [tag], EncodeVarint(ToUint64(v)));
    } else {
      WroteNothing(a[..], i);
    }
  }

  lemma PayloadLayout(tag: byte, s: bytes)
    ensures EncodePayload(tag, s) == Header(tag, |s|) + s && |Header(tag, |s|)| >= 2
  {
  }

  method Int64Size(v: int64) returns (n: nat)
    ensures forall tag: byte :: n == |EncodeInt64(tag, v)|
  {
    n := 0;
    if v != 0 {
      n := 1 + VarintSize(ToUint64(v));
      VarintSizeExact(ToUint64(v));
    }
  }

  method PayloadSize(l: nat) returns (n: nat)
    requires l < MAX_LENGTH
    ensures forall tag: byte, s: bytes :: |s| == l ==> n == |EncodePayload(tag, s)|
  {
    n := 1 + l + VarintSize(l);
    VarintSizeExact(l);
  }

  // ----- Contact

  class ContactObject {
    var AccountId: int64
    var RemarkName: bytes
    var Unrecognized: bytes

    constructor ()
      ensures Value() == EMPTY_CONTACT
    {
      AccountId, RemarkName, Unrecognized := 0, [], [];
    }

    function Value(): Contact
      reads this
    {
      Contact(AccountId, RemarkName, Unrecognized)
    }

    method Size() returns (n: nat)
      requires |EncodeContact(Value())| <= MAX_LENGTH
      ensures n == |EncodeContact(Value())|
    {
      if RemarkName != [] { PayloadLayout(0x12, RemarkName); }
      hide EncodeInt64, EncodePayload;
      n := Int64Size(AccountId);
      assert n == |EncodeInt64(0x8, AccountId)|;
      var l := |RemarkName|;
      if l > 0 {
        var k := PayloadSize(l);
        assert k == |EncodePayload(0x12, RemarkName)|;
        n := n + k;
      }
      n := n + |Unrecognized|;
    }

    method MarshalToSizedBuffer(a: array<byte>, hi: nat) returns (n: nat)
      requires |EncodeContact(Value())| <= hi <= a.Length <= MAX_LENGTH
      modifies a
      ensures n == |EncodeContact(Value())|
      ensures Wrote(old(a[..]), a[..], hi - n, hi, EncodeContact(Value()))
    {
      hide EncodeInt64, EncodePayload, Wrote, Header;
      var d1 := EncodeInt64(0x8, AccountId);
      var d2 := if RemarkName == [] then [] else EncodePayload(0x12, RemarkName);
      ghost var b0 := a[..];
      var i := hi - |Unrecognized|;
      Copy(a, i, Unrecognized);
      if |RemarkName| > 0 {
        PayloadLayout(0x12, RemarkName);
        ghost var b1, i1 := a[..], i;
        i := i - |RemarkName|;
        Copy(a, i, RemarkName);
        ghost var b2, i2 := a[..], i;
        i := PutHeader(a, i, 0x12, |RemarkName|);
        WroteBefore(b1, b2, a[..], i, i2, i1, Header(0x12, |RemarkName|), RemarkName);
        WroteBefore(b0, b1, a[..], i, i1, hi, d2, Unrecognized);
      }
      assert d2 + Unrecognized == if RemarkName == [] then Unrecognized else d2 + Unrecognized;
      ghost var b3, i3 := a[..], i;
      i := PutInt64(a, i, 0x8, AccountId);
      WroteBefore(b0, b3, a[..], i, i3, hi, d1, d2 + Unrecognized);
      assert d1 + (d2 + Unrecognized) == d1 + d2 + Unrecognized;
      n := hi - i;
    }

    method Marshal() returns (out: bytes)
      requires |EncodeContact(Value())| <= MAX_LENGTH
      ensures out == EncodeContact(Value())
    {
      hide EncodeContact, Wrote;
      var size := Size();
      var a := new byte[size](_ => 0);
      ghost var b0 := a[..];
      var n := MarshalToSizedBuffer(a, size);
      WroteAll(b0, a[..], EncodeContact(Value()));
      out := a[..n];
    }

    method Unmarshal(d: bytes) returns (err: Option<WireError>)
      requires |d| <= MAX_LENGTH
      modifies this
      ensures Decoded(OfContact(old(Value())), d, OfContact(Value()), err)
    {
      hide ReadVarint, PayloadAt, UnknownAt, Int64At, UnmarshalFrom;
      var i := 0;
      while i < |d|
        invariant 0 <= i <= |d|
        invariant UnmarshalFrom(OfContact(Value()), d, i) == UnmarshalFrom(OfContact(old(Value())), d, 0)
      {
        RunStep(OfContact(Value()), d, i);
        var tag := DecodeVarint(d, i);
        if tag.Err? { return Some(tag.error); }
        var (wire, j) := tag.value;
        var fieldNum, wireType := ToInt32(wire / 8), wire % 8;
        if wireType == 4 { return Some(EndGroup); }
        if fieldNum <= 0 { return Some(IllegalTag); }
        if fieldNum == 1 {
          var v := DecodeInt64(d, j, wireType);
          if v.Err? { return Some(v.error); }
          AccountId := v.value.0;
          i := v.value.1;
        } else if fieldNum == 2 {
          var s := DecodePayload(d, j, wireType);
          if s.Err? { return Some(s.error); }
          RemarkName := s.value.0;
          i := s.value.1;
        } else {
          var s := DecodeUnknown(d, i);
          if s.Err? { return Some(s.error); }
          Unrecognized := Unrecognized + s.value.0;
          i := s.value.1;
        }
      }
      RunStep(OfContact(Value()), d, i);
      return None;
    }
  }

  // ----- Pieces that the unmarshalling methods share

  /** One round of an `Unmarshal` loop. */
  lemma RunStep(m: Message, d: bytes, i: nat)
    requires i <= |d| <= MAX_LENGTH
    ensures UnmarshalFrom(m, d, i) ==
            if i == |d| then Ok(m)
            else match FieldAt(m, d, i)
              case Err(e) => Err(e)
              case Ok(step) => UnmarshalFrom(step.0, d, step.1)
  {
  }

  method DecodeInt64(d: bytes, i: nat, wireType: int) returns (r: Read<int64>)
    requires i <= |d|
    ensures r == Int64At(d, i, wireType)
  {
    if wireType != 0 { return Err(WrongWireType); }
    var u := DecodeVarint(d, i);
    if u.Err? { return Err(u.error); }
    return Ok((ToInt64(u.value.0), u.value.1));
  }

  method DecodeLength(d: bytes, i: nat) returns (r: Result<(nat, nat), WireError>)
    requires i <= |d| <= MAX_LENGTH
    ensures r == ReadLength(d, i)
  {
    hide ReadVarint;
    var u := DecodeVarint(d, i);
    if u.Err? { return Err(u.error); }
    var start := u.value.1;
    var length := ToInt64(u.value.0);
    if length < 0 { return Err(InvalidLength); }
    var post := WrappingAdd(start, length);
    if post < 0 { return Err(InvalidLength); }
    if post > |d| { return Err(UnexpectedEOF); }
    return Ok((start, post));
  }

  method DecodePayload(d: bytes, i: nat, wireType: int) returns (r: Read<bytes>)
    requires i <= |d| <= MAX_LENGTH
    ensures r == PayloadAt(d, i, wireType)
  {
    hide ReadLength;
    if wireType != 2 { return Err(WrongWireType); }
    var l := DecodeLength(d, i);
    if l.Err? { return Err(l.error); }
    return Ok((d[l.value.0..l.value.1], l.value.1));
  }

  method DecodeUnknown(d: bytes, i: nat) returns (r: Read<bytes>)
    requires i < |d| <= MAX_LENGTH
    ensures r == UnknownAt(d, i)
  {
    hide Skip;
    var skippy := SkipDataDef(d[i..]);
    if skippy.Err? { return Err(skippy.error); }
    var next := WrappingAdd(i, skippy.value);
    if next < 0 { return Err(InvalidLength); }
    if next > |d| { return Err(UnexpectedEOF); }
    return Ok((d[i..next], next));
  }
}
