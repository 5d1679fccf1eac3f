/** Byte buffers filled from the back, and the loops that read varints and skip fields. */
module Buffers {
  import opened Integers
  import opened Results
  import opened Wire

  /** After differs from before by the bytes s, written to [lo, hi). */
  ghost predicate Wrote(before: bytes, after: bytes, lo: nat, hi: nat, s: bytes) {
    lo <= hi <= |before| && hi - lo == |s| && after == before[..lo] + s + before[hi..]
  }

  lemma WroteNothing(b: bytes, i: nat)
    requires i <= |b|
    ensures Wrote(b, b, i, i, [])
  {
  }

  /** Writing s in front of t writes s + t. */
  lemma WroteBefore(b0: bytes, b1: bytes, b2: bytes, lo: nat, mid: nat, hi: nat, s: bytes, t: bytes)
    requires Wrote(b0, b1, mid, hi, t) && Wrote(b1, b2, lo, mid, s)
    ensures Wrote(b0, b2, lo, hi, s + t)
  {
    assert b1[..lo] == b0[..lo];
    assert b1[mid..] == t + b0[hi..];
    assert b0[..lo] + s + (t + b0[hi..]) == b0[..lo] + (s + t) + b0[hi..];
  }

  lemma WroteAll(b0: bytes, b1: bytes, s: bytes)
    requires |b0| == |s| && Wrote(b0, b1, 0, |s|, s)
    ensures b1[..|s|] == s
  {
    assert b0[|s|..] == [];
  }

  /** b1 is b0 with the bytes s at base. */
  ghost predicate Filled(b0: bytes, b1: bytes, base: nat, s: bytes) {
    base + |s| <= |b0| && b1 == b0[..base] + s + b0[base + |s|..]
  }

  lemma FillOne(b0: bytes, b1: bytes, base: nat, s: bytes, x: byte)
    requires Filled(b0, b1, base, s) && base + |s| < |b0|
    ensures Filled(b0, b1[base + |s| := x], base, s + [x])
  {
    var o := base + |s|;
    assert b0[o..] == [b0[o]] + b0[o + 1..];
    assert b1 == b0[..base] + s + ([b0[o]] + b0[o + 1..]);
  }

  lemma FillNone(b: bytes, base: nat)
    requires base <= |b|
    ensures Filled(b, b, base, [])
  {
  }

  /** `copy(dAtA[i:], s)`. */
  method Copy(a: array<byte>, i: nat, s: bytes)
    requires i + |s| <= a.Length
    modifies a
    ensures Wrote(old(a[..]), a[..], i, i + |s|, s)
  {
    hide Filled;
    FillNone(a[..], i);
    ghost var b0 := a[..];
    for k := 0 to |s|
      invariant Filled(b0, a[..], i, s[..k])
    {
      ghost var b1 := a[..];
      FilledLength(b0, b1, i, s[..k]);
      FillOne(b0, b1, i, s[..k], s[k]);
      a[i + k] := s[k];
      assert a[..] == b1[i + k := s[k]];
      assert s[..k + 1] == s[..k] + [s[k]];
    }
    assert s[..|s|] == s;
    FilledIsWrote(b0, a[..], i, s);
  }

  lemma FilledLength(b0: bytes, b1: bytes, base: nat, s: bytes)
    requires Filled(b0, b1, base, s)
    ensures |b1| == |b0|
  {
  }

  lemma FilledIsWrote(b0: bytes, b1: bytes, base: nat, s: bytes)
    requires Filled(b0, b1, base, s)
    ensures Wrote(b0, b1, base, base + |s|, s)
  {
  }

  /** `i--; dAtA[i] = x`. */
  method PutByte(a: array<byte>, i: nat, x: byte) returns (j: nat)
    requires 1 <= i <= a.Length
    modifies a
    ensures j == i - 1 && Wrote(old(a[..]), a[..], j, i, [x])
  {
    j := i - 1;
    a[j] := x;
  }

  lemma VarintSteps(v: nat)
    ensures v >= 128 ==> EncodeVarint(v) == [v % 128 + 128] + EncodeVarint(v / 128)
    ensures v < 128 ==> EncodeVarint(v) == [v]
  {
  }

  /** The loop that writes the groups of a varint from base on. */
  method PutVarint(a: array<byte>, base: nat, v0: uint64) returns (end: nat)
    requires base + |EncodeVarint(v0)| <= a.Length
    modifies a
    ensures end == base + |EncodeVarint(v0)| && Wrote(old(a[..]), a[..], base, end, EncodeVarint(v0))
  {
    hide Filled, EncodeVarint;
    var o, v: nat := base, v0;
    ghost var b0, done: bytes := a[..], [];
    FillNone(b0, base);
    while v >= 128
      invariant |done| == o - base && done + EncodeVarint(v) == EncodeVarint(v0)
      invariant Filled(b0, a[..], base, done)
      decreases v
    {
      var group: byte := v % 128 + 128;
      VarintSteps(v);
      FilledLength(b0, a[..], base, done);
      FillOne(b0, a[..], base, done, group);
      ghost var b1 := a[..];
      a[o] := group;
      assert a[..] == b1[o := group];
      assert done + ([group] + EncodeVarint(v / 128)) == done + [group] + EncodeVarint(v / 128);
      done := done + [group];
      v := v / 128;
      o := o + 1;
    }
    VarintSteps(v);
    FilledLength(b0, a[..], base, done);
    var last: byte := v;
    FillOne(b0, a[..], base, done, last);
    ghost var b1 := a[..];
    a[o] := last;
    assert a[..] == b1[o := last];
    FilledIsWrote(b0, a[..], base, done + [last]);
    end := o + 1;
  }

  /** `encodeVarintDataDef`: the varint ends at offset, and base is its start. */
  method EncodeVarintBefore(a: array<byte>, offset: nat, v: uint64) returns (base: nat)
    requires |EncodeVarint(v)| <= offset <= a.Length
    modifies a
    ensures base == offset - |EncodeVarint(v)|
    ensures Wrote(old(a[..]), a[..], base, offset, EncodeVarint(v))
  {
    VarintSizeExact(v);
    base := offset - VarintSize(v);
    var end := PutVarint(a, base, v);
  }

  /** The varint loop that every `Unmarshal` repeats. */
  method DecodeVarint(d: bytes, start: nat) returns (r: Read<uint64>)
    requires start <= |d|
    ensures r == ReadVarint(d, start)
  {
    var wire: uint64 := 0;
    var iNdEx := start;
    var shift: nat := 0;
    ghost var k: nat := 0;
    while true
      invariant start <= iNdEx <= |d| && shift == 7 * k
      invariant ReadVarintFrom(d, iNdEx, k, wire) == ReadVarint(d, start)
      decreases |d| - iNdEx
    {
      if shift >= 64 {
        return Err(IntOverflow);
      }
      if iNdEx >= |d| {
        return Err(UnexpectedEOF);
      }
      var b := d[iNdEx];
      iNdEx := iNdEx + 1;
      wire := (wire + Shifted(b % 128, shift / 7)) % 0x1_0000_0000_0000_0000;
      if b < 128 {
        return Ok((wire, iNdEx));
      }
      shift := shift + 7;
      k := k + 1;
    }
  }

  /** `skipDataDef`. */
  method SkipDataDef(d: bytes) returns (r: Result<int64, WireError>)
    requires 0 < |d| <= MAX_LENGTH
    ensures r == Skip(d)
    decreases |d|
  {
    hide ReadVarint;
    var tag := DecodeVarint(d, 0);
    if tag.Err? {
      return Err(tag.error);
    }
    var (wire, i) := tag.value;
    var wireType := wire % 8;
    if wireType == 0 {
      var value := DecodeVarint(d, i);
      if value.Err? {
        return Err(value.error);
      }
      return Ok(value.value.1);
    } else if wireType == 1 {
      return Ok(i + 8);
    } else if wireType == 2 {
      var length := DecodeVarint(d, i);
      if length.Err? {
        return Err(length.error);
      }
      var n := ToInt64(length.value.0);
      if n < 0 {
        return Err(InvalidLength);
      }
      var next := WrappingAdd(length.value.1, n);
      return if next < 0 then Err(InvalidLength) else Ok(next);
    } else if wireType == 3 {
      var iNdEx: int64 := i;
      while true
        invariant 1 <= iNdEx && SkipGroup(d, iNdEx) == SkipGroup(d, i)
        decreases |d| - iNdEx
      {
        var start := iNdEx;
        if iNdEx >= |d| {
          return Err(UnexpectedEOF);
        }
        var inner := DecodeVarint(d, iNdEx);
        if inner.Err? {
          return Err(inner.error);
        }
        if inner.value.0 % 8 == 4 {
          return Ok(inner.value.1);
        }
        var next := SkipDataDef(d[start..]);
        if next.Err? {
          return Err(next.error);
        }
        iNdEx := WrappingAdd(start, next.value);
        if iNdEx < 0 {
          return Err(InvalidLength);
        }
      }
    } else if wireType == 4 {
      return Ok(i);
    } else if wireType == 5 {
      return Ok(i + 4);
    } else {
      return Err(IllegalWireType);
    }
  }
}
