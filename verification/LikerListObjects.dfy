/** `WeiboCoverLikerList` as an object: its likers are packed through a scratch buffer. */
module LikerListObjects {
  import opened Options
  import opened Results
  import opened Wire
  import opened Messages
  import opened Encoding
  import opened PackedLikers
  import opened Buffers
  import opened MessageObjects

  lemma {:induction false} VarintLength(v: nat, k: nat)
    requires v < Power128(k) && k >= 1
    ensures |EncodeVarint(v)| <= k
  {
    if v >= 128 { VarintLength(v / 128, k - 1); }
  }

  /** Ten bytes hold any varint. */
  lemma VarintAtMostTen(v: uint64)
    ensures |EncodeVarint(v)| <= 10
  {
    hide EncodeVarint, Power128;
    Power128Bounds();
    VarintLength(v, 10);
  }

  lemma {:induction false} VarintsAppend(vs: seq<int64>, v: int64)
    ensures EncodeVarints(vs + [v]) == EncodeVarints(vs) + EncodeVarint(ToUint64(v))
  {
    hide EncodeVarint;
    if vs == [] {
      assert vs + [v] == [v];
      assert EncodeVarints([v]) == EncodeVarint(ToUint64(v)) + EncodeVarints([]);
    } else {
      VarintsAppend(vs[1..], v);
      assert (vs + [v])[1..] == vs[1..] + [v];
    }
  }

  /** What is written at the end of a filled prefix extends it. */
  lemma WroteAfter(b0: bytes, b1: bytes, mid: nat, hi: nat, s: bytes, t: bytes)
    requires Wrote(b0, b1, mid, hi, t) && b0[..mid] == s
    ensures b1[..hi] == s + t
  {
  }

  /** The likers one after the other as varints, in a buffer of ten bytes for each. */
  method PackLikers(likers: seq<int64>) returns (packed: bytes)
    ensures packed == EncodeVarints(likers)
  {
    hide EncodeVarint, EncodeVarints, Wrote;
    var a := new byte[|likers| * 10](_ => 0);
    var j := 0;
    assert EncodeVarints([]) == [] by { NoVarints(); }
    assert a[..0] == [] && likers[..0] == [];
    for k := 0 to |likers|
      invariant 0 <= j <= 10 * k && a[..j] == EncodeVarints(likers[..k])
    {
      var num := ToUint64(likers[k]);
      VarintAtMostTen(num);
      ghost var b0, mid := a[..], j;
      assert b0[..mid] == a[..j];
      j := PutVarint(a, j, num);
      WroteAfter(b0, a[..], mid, j, EncodeVarints(likers[..k]), EncodeVarint(num));
      assert a[..][..j] == a[..j];
      assert likers[..k + 1] == likers[..k] + [likers[k]];
      VarintsAppend(likers[..k], likers[k]);
    }
    assert likers[..|likers|] == likers;
    packed := a[..j];
  }

  lemma NoVarints()
    ensures EncodeVarints([]) == []
  {
  }

  method PackedSize(likers: seq<int64>) returns (l: nat)
    ensures l == |EncodeVarints(likers)|
  {
    hide EncodeVarint, EncodeVarints;
    l := 0;
    NoVarints();
    assert likers[..0] == [];
    for k := 0 to |likers|
      invariant l == |EncodeVarints(likers[..k])|
    {
      VarintSizeExact(ToUint64(likers[k]));
      assert likers[..k + 1] == likers[..k] + [likers[k]];
      VarintsAppend(likers[..k], likers[k]);
      l := l + VarintSize(ToUint64(likers[k]));
    }
    assert likers[..|likers|] == likers;
  }

  class LikerListObject {
    var Likers: seq<int64>
    var Unrecognized: bytes

    constructor ()
      ensures Value() == EMPTY_LIKERS
    {
      Likers, Unrecognized := [], [];
    }

    function Value(): LikerList
      reads this
    {
      LikerList(Likers, Unrecognized)
    }

    method Size() returns (n: nat)
      requires |EncodeLikers(Value())| <= MAX_LENGTH
      ensures n == |EncodeLikers(Value())|
    {
      hide EncodePayload, EncodeVarints;
      n := 0;
      if |Likers| > 0 {
        var l := PackedSize(Likers);
        PayloadLayout(0xa, EncodeVarints(Likers));
        n := PayloadSize(l);
        assert n == |EncodePayload(0xa, EncodeVarints(Likers))|;
      }
      n := n + |Unrecognized|;
    }

    method MarshalToSizedBuffer(a: array<byte>, hi: nat) returns (n: nat)
      requires |EncodeLikers(Value())| <= hi <= a.Length <= MAX_LENGTH
      modifies a
      ensures n == |EncodeLikers(Value())|
      ensures Wrote(old(a[..]), a[..], hi - n, hi, EncodeLikers(Value()))
    {
      hide EncodePayload, EncodeVarints, Wrote, Header;
      ghost var b0 := a[..];
      var i := hi - |Unrecognized|;
      Copy(a, i, Unrecognized);
      assert [] + Unrecognized == Unrecognized;
      if |Likers| > 0 {
        var packed := PackLikers(Likers);
        PayloadLayout(0xa, packed);
        ghost var b1, i1 := a[..], i;
        i := i - |packed|;
        Copy(a, i, packed);
        ghost var b2, i2 := a[..], i;
        i := PutHeader(a, i, 0xa, |packed|);
        WroteBefore(b1, b2, a[..], i, i2, i1, Header(0xa, |packed|), packed);
        WroteBefore(b0, b1, a[..], i, i1, hi, EncodePayload(0xa, packed), Unrecognized);
      }
      n := hi - i;
    }

    method Marshal() returns (out: bytes)
      requires |EncodeLikers(Value())| <= MAX_LENGTH
      ensures out == EncodeLikers(Value())
    {
      hide EncodeLikers, Wrote;
      var size := Size();
      var a := new byte[size](_ => 0);
      ghost var b0 := a[..];
      var n := MarshalToSizedBuffer(a, size);
      WroteAll(b0, a[..], EncodeLikers(Value()));
      out := a[..n];
    }

    /** The values of one field, packed or not, appended to the likers.  On an error some of
    them may already be there. */
    method UnmarshalLikers(d: bytes, j: nat, wireType: int) returns (r: Result<nat, WireError>)
      requires j <= |d| <= MAX_LENGTH
      modifies this
      ensures Unrecognized == old(Unrecognized)
      ensures match LikersAt(d, j, wireType)
              case Err(e) => r == Err(e)
              case Ok(step) => r == Ok(step.1) && Likers == old(Likers) + step.0
    {
      hide ReadVarint, ReadLength, ReadPacked;
      if wireType == 0 {
        var v := DecodeVarint(d, j);
        if v.Err? { return Err(v.error); }
        Likers := Likers + [ToInt64(v.value.0)];
        return Ok(v.value.1);
      } else if wireType == 2 {
        var l := DecodeLength(d, j);
        if l.Err? { return Err(l.error); }
        var (start, post) := l.value;
        var elementCount := CountTerminators(d[start..post]);
        if elementCount != 0 && |Likers| == 0 {
          Likers := [];
        }
        r := UnmarshalPacked(d, start, post);
      } else {
        return Err(WrongWireType);
      }
    }

    method UnmarshalPacked(d: bytes, start: nat, post: nat) returns (r: Result<nat, WireError>)
      requires start <= |d| <= MAX_LENGTH
      modifies this
      ensures Unrecognized == old(Unrecognized)
      ensures match ReadPacked(d, start, post)
              case Err(e) => r == Err(e)
              case Ok(step) => r == Ok(step.1) && Likers == old(Likers) + step.0
    {
      hide ReadVarint, ReadPacked;
      var i := start;
      ghost var done: seq<int64> := [];
      AfterNothing(ReadPacked(d, start, post));
      while i < post
        invariant start <= i <= |d| && Likers == old(Likers) + done
        invariant Unrecognized == old(Unrecognized)
        invariant ReadPacked(d, start, post) == After(done, ReadPacked(d, i, post))
        decreases |d| - i
      {
        PackedStep(d, i, post);
        var v := DecodeVarint(d, i);
        if v.Err? { return Err(v.error); }
        i := v.value.1;
        AfterBoth(done, ToInt64(v.value.0), ReadPacked(d, i, post));
        Likers := Likers + [ToInt64(v.value.0)];
        done := done + [ToInt64(v.value.0)];
      }
      PackedStep(d, i, post);
      return Ok(i);
    }

    method Unmarshal(d: bytes) returns (err: Option<WireError>)
      requires |d| <= MAX_LENGTH
      modifies this
      ensures Decoded(OfLikerList(old(Value())), d, OfLikerList(Value()), err)
    {
      hide ReadVarint, LikersAt, UnknownAt, UnmarshalFrom;
      var i := 0;
      while i < |d|
        invariant 0 <= i <= |d|
        invariant UnmarshalFrom(OfLikerList(Value()), d, i) == UnmarshalFrom(OfLikerList(old(Value())), d, 0)
      {
        RunStep(OfLikerList(Value()), d, i);
        var tag := DecodeVarint(d, i);
        if tag.Err? { return Some(tag.error); }
        var (wire, j) := tag.value;
        var fieldNum, wireType := ToInt32(wire / 8), wire % 8;
        if wireType == 4 { return Some(EndGroup); }
        if fieldNum <= 0 { return Some(IllegalTag); }
        if fieldNum == 1 {
          var next := UnmarshalLikers(d, j, wireType);
          if next.Err? { return Some(next.error); }
          i := next.value;
        } else {
          var s := DecodeUnknown(d, i);
          if s.Err? { return Some(s.error); }
          Unrecognized := Unrecognized + s.value.0;
          i := s.value.1;
        }
      }
      RunStep(OfLikerList(Value()), d, i);
      return None;
    }
  }

  // ----- Reading packed values in a loop

  /** The values read so far, in front of those still to be read. */
  function After(done: seq<int64>, r: Read<seq<int64>>): Read<seq<int64>> {
    match r
    case Err(e) => Err(e)
    case Ok((vs, k)) => Ok((done + vs, k))
  }

  lemma AfterNothing(r: Read<seq<int64>>)
    ensures After([], r) == r
  {
    if r.Ok? { assert [] + r.value.0 == r.value.0; }
  }

  lemma AfterBoth(done: seq<int64>, v: int64, r: Read<seq<int64>>)
    ensures After(done, After([v], r)) == After(done + [v], r)
  {
    if r.Ok? { assert done + ([v] + r.value.0) == done + [v] + r.value.0; }
  }

  lemma PackedStep(d: bytes, i: nat, post: nat)
    requires i <= |d|
    ensures ReadPacked(d, i, post) ==
            if i >= post then Ok(([], i))
            else
              var u := ReadVarint(d, i);
              if u.Err? then Err(u.error) else After([ToInt64(u.value.0)], ReadPacked(d, u.value.1, post))
  {
  }
}
