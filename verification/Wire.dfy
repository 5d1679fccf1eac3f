/** The protocol buffers wire format as `data_def.pb.go` reads and writes it: base 128
varints, length-delimited payloads, and the skipper for fields of unknown number.

Reading functions take the whole buffer and an index into it, as the generated code does,
and give the value with the index after it. */
module Wire {
  import opened Integers
  import opened Results

  type byte = x: int | 0 <= x < 256
  type bytes = seq<byte>

  type uint64 = x: int | 0 <= x < 0x1_0000_0000_0000_0000
  type int64 = x: int | -0x8000_0000_0000_0000 <= x < 0x8000_0000_0000_0000

  /** No slice is longer: Go's allocator stops at 2^48 bytes on 64-bit platforms. */
  const MAX_LENGTH := 0x1_0000_0000_0000

  datatype WireError =
    | IntOverflow | UnexpectedEOF | InvalidLength | EndGroup | IllegalTag | WrongWireType | IllegalWireType

  type Read<T> = Result<(T, nat), WireError>

  // ----- Conversions between the integer types

  function ToUint64(x: int64): uint64 { if x < 0 then x + 0x1_0000_0000_0000_0000 else x }

  function ToInt64(x: uint64): int64 {
    if x < 0x8000_0000_0000_0000 then x else x - 0x1_0000_0000_0000_0000
  }

  /** `int32(x)` of an unsigned number: the low 32 bits, as a signed number. */
  function ToInt32(x: nat): int {
    var low := x % 0x1_0000_0000;
    if low < 0x8000_0000 then low else low - 0x1_0000_0000
  }

  // ----- Varints

  function Power128(k: nat): nat { if k == 0 then 1 else 128 * Power128(k - 1) }

  /** v shifted left by k groups of seven bits. */
  function Shifted(v: nat, k: nat): nat { v * Power128(k) }

  /** The low groups of seven bits first, all but the last marked. */
  function EncodeVarint(v: nat): (s: bytes)
    ensures |s| >= 1
  {
    if v < 128 then [v] else [v % 128 + 128] + EncodeVarint(v / 128)
  }

  /** `bits.Len64`. */
  function BitLength(v: nat): nat { if v == 0 then 0 else 1 + BitLength(v / 2) }

  /** `x | 1`. */
  function SetLowBit(v: nat): nat { if v % 2 == 0 then v + 1 else v }

  /** `sovDataDef`. */
  function VarintSize(v: uint64): nat { (BitLength(SetLowBit(v)) + 6) / 7 }

  /** One varint, of which k groups with value acc are already read.  The shifted group and
  acc have no bit in common, so that `|=` is addition; bits above the 64th are lost. */
  function ReadVarintFrom(d: bytes, i: nat, k: nat, acc: uint64): (r: Read<uint64>)
    requires i <= |d|
    ensures r.Ok? ==> i < r.value.1 <= |d|
    decreases |d| - i
  {
    if k >= 10 then Err(IntOverflow)
    else if i >= |d| then Err(UnexpectedEOF)
    else
      var acc' := (acc + Shifted(d[i] % 128, k)) % 0x1_0000_0000_0000_0000;
      if d[i] < 128 then Ok((acc', i + 1)) else ReadVarintFrom(d, i + 1, k + 1, acc')
  }

  function ReadVarint(d: bytes, i: nat): (r: Read<uint64>)
    requires i <= |d|
    ensures r.Ok? ==> i < r.value.1 <= |d|
  {
    ReadVarintFrom(d, i, 0, 0)
  }

  /** The start and the end of a length-delimited payload whose length stands at i. */
  function ReadLength(d: bytes, i: nat): (r: Result<(nat, nat), WireError>)
    requires i <= |d| <= MAX_LENGTH
    ensures r.Ok? ==> i < r.value.0 <= r.value.1 <= |d|
  {
    var (u, start) :- ReadVarint(d, i);
    var length := ToInt64(u);
    if length < 0 then Err(InvalidLength)
    else
      var post := WrappingAdd(start, length);
      if post < 0 then Err(InvalidLength)
      else if post > |d| then Err(UnexpectedEOF)
      else Ok((start, post))
  }

  // ----- skipDataDef

  /** The length of the field at the start of d.  The result can exceed |d|; callers check. */
  function Skip(d: bytes): (r: Result<int64, WireError>)
    requires 0 < |d| <= MAX_LENGTH
    ensures r.Ok? ==> ReadVarint(d, 0).Ok? && 1 <= ReadVarint(d, 0).value.1 <= r.value
    decreases |d|, 1, 0
  {
    var (wire, i) :- ReadVarint(d, 0);
    var wireType := wire % 8;
    if wireType == 0 then
      var (_, j) :- ReadVarint(d, i);
      Ok(j)
    else if wireType == 1 then Ok(i + 8)
    else if wireType == 2 then
      var (u, j) :- ReadVarint(d, i);
      var length := ToInt64(u);
      if length < 0 then Err(InvalidLength)
      else
        var next := WrappingAdd(j, length);
        if next < 0 then Err(InvalidLength) else Ok(next)
    else if wireType == 3 then SkipGroup(d, i)
    else if wireType == 4 then Ok(i)
    else if wireType == 5 then Ok(i + 4)
    else Err(IllegalWireType)
  }

  /** The end of the group whose next member, or end tag, stands at i. */
  function SkipGroup(d: bytes, i: int64): (r: Result<int64, WireError>)
    requires |d| <= MAX_LENGTH && 1 <= i
    ensures r.Ok? ==> i < r.value
    decreases |d|, 0, if i <= |d| then |d| - i else 0
  {
    if i >= |d| then Err(UnexpectedEOF)
    else
      var (wire, j) :- ReadVarint(d, i);
      if wire % 8 == 4 then Ok(j)
      else
        var n :- Skip(d[i..]);
        var next := WrappingAdd(i, n);
        if next < 0 then Err(InvalidLength) else SkipGroup(d, next)
  }

  // ----- Varints: size, round trip, and dependence on their own bytes only

  lemma BitLengthOfHalf(v: nat)
    requires v > 0
    ensures BitLength(v) == 1 + BitLength(v / 2)
  {
  }

  lemma {:induction false} BitLengthOfGroup(v: nat)
    requires v >= 128
    ensures BitLength(v) == 7 + BitLength(v / 128)
  {
    BitLengthOfHalf(v);
    BitLengthOfHalf(v / 2);
    assert v / 2 / 2 == v / 4;
    BitLengthOfHalf(v / 4);
    assert v / 4 / 2 == v / 8;
    BitLengthOfHalf(v / 8);
    assert v / 8 / 2 == v / 16;
    BitLengthOfHalf(v / 16);
    assert v / 16 / 2 == v / 32;
    BitLengthOfHalf(v / 32);
    assert v / 32 / 2 == v / 64;
    BitLengthOfHalf(v / 64);
    assert v / 64 / 2 == v / 128;
  }

  lemma {:induction false} LowBitKeepsLength(v: nat)
    requires v > 0
    ensures BitLength(SetLowBit(v)) == BitLength(v)
  {
    assert SetLowBit(v) / 2 == v / 2;
  }

  /** `sovDataDef` is the length of the encoding. */
  lemma {:induction false} VarintSizeExact(v: uint64)
    ensures VarintSize(v) == |EncodeVarint(v)|
  {
    if v < 128 {
      if v > 0 { LowBitKeepsLength(v); SmallBitLength(v); } else { assert BitLength(1) == 1; }
    } else {
      VarintSizeExact(v / 128);
      LowBitKeepsLength(v);
      LowBitKeepsLength(v / 128);
      BitLengthOfGroup(v);
    }
  }

  lemma {:induction false} SmallBitLength(v: nat)
    requires 0 < v < 128
    ensures 1 <= BitLength(v) <= 7
  {
    BitLengthBound(v, 7);
  }

  lemma {:induction false} BitLengthBound(v: nat, n: nat)
    requires v < Power2(n)
    ensures BitLength(v) <= n
  {
    if v > 0 { BitLengthBound(v / 2, n - 1); }
  }

  /** d[i..j] and e[p..p + (j - i)] hold the same bytes. */
  predicate SameWindow(d: bytes, i: nat, j: nat, e: bytes, p: nat) {
    i <= j <= |d| && p + (j - i) <= |e| && d[i..j] == e[p..p + (j - i)]
  }

  lemma SliceOfSlice<T>(s: seq<T>, i: nat, j: nat, a: nat, b: nat)
    requires i <= a <= b <= j <= |s|
    ensures s[a..b] == s[i..j][a - i..b - i]
  {
    forall k | 0 <= k < b - a ensures s[a..b][k] == s[i..j][a - i..b - i][k] { }
  }

  lemma SubWindow(d: bytes, i: nat, j: nat, e: bytes, p: nat, a: nat, b: nat)
    requires SameWindow(d, i, j, e, p) && i <= a <= b <= j
    ensures SameWindow(d, a, b, e, p + (a - i))
    ensures a < j ==> d[a] == e[p + (a - i)]
  {
    SliceOfSlice(d, i, j, a, b);
    SliceOfSlice(e, p, p + (j - i), p + (a - i), p + (b - i));
    if a < j {
      assert d[a] == d[i..j][a - i];
      assert e[p + (a - i)] == e[p..p + (j - i)][a - i];
    }
  }

  /** A successful read depends on the bytes it consumes and on nothing else. */
  lemma {:induction false} ReadVarintLocal(d: bytes, i: nat, k: nat, acc: uint64, e: bytes, p: nat)
    requires i <= |d| && p <= |e| && ReadVarintFrom(d, i, k, acc).Ok?
    requires var (v, j) := ReadVarintFrom(d, i, k, acc).value; SameWindow(d, i, j, e, p)
    ensures var (v, j) := ReadVarintFrom(d, i, k, acc).value;
            ReadVarintFrom(e, p, k, acc) == Ok((v, p + (j - i)))
    decreases |d| - i
  {
    var (v, j) := ReadVarintFrom(d, i, k, acc).value;
    SubWindow(d, i, j, e, p, i, j);
    if d[i] >= 128 {
      SubWindow(d, i, j, e, p, i + 1, j);
      var acc' := (acc + Shifted(d[i] % 128, k)) % 0x1_0000_0000_0000_0000;
      ReadVarintLocal(d, i + 1, k + 1, acc', e, p + 1);
    }
  }

  lemma {:induction false} Power128Split(j: nat, k: nat)
    ensures Power128(j + k) == Power128(j) * Power128(k)
  {
    if j > 0 { Power128Split(j - 1, k); }
  }

  /** A number below 2^64 has at most ten groups. */
  lemma Power128Bounds()
    ensures Power128(9) == 0x8000_0000_0000_0000
    ensures Power128(10) > 0x1_0000_0000_0000_0000
  {
    assert Power128(3) == 2097152;
    Power128Split(3, 3);
    Power128Split(6, 3);
  }

  lemma {:induction false} Power128Ordered(j: nat, k: nat)
    requires j <= k
    ensures 1 <= Power128(j) <= Power128(k)
  {
    if k > 0 {
      if j < k { Power128Ordered(j, k - 1); } else { Power128Ordered(j - 1, k - 1); }
    }
  }

  lemma SplitGroup(v: nat, k: nat)
    ensures Shifted(v, k) == Shifted(v % 128, k) + Shifted(v / 128, k + 1)
  {
    var q, r := v / 128, v % 128;
    assert v == 128 * q + r;
    assert Power128(k + 1) == 128 * Power128(k);
    assert (128 * q) * Power128(k) == q * (128 * Power128(k));
  }

  lemma MoreGroupsFit(v: nat, k: nat)
    requires v >= 128 && k < 10 && Shifted(v, k) < 0x1_0000_0000_0000_0000
    ensures k + 1 < 10
  {
    Power128Bounds();
    ProductOrdered(128, v, Power128(k));
  }

  lemma {:induction false} ReadEncodedFrom(v: nat, k: nat, acc: uint64)
    requires k < 10 && acc + Shifted(v, k) < 0x1_0000_0000_0000_0000
    ensures ReadVarintFrom(EncodeVarint(v), 0, k, acc) == Ok((acc + Shifted(v, k), |EncodeVarint(v)|))
  {
    hide Shifted, Power128;
    var s := EncodeVarint(v);
    if v >= 128 {
      var rest := EncodeVarint(v / 128);
      var acc' := acc + Shifted(v % 128, k);
      SplitGroup(v, k);
      MoreGroupsFit(v, k);
      ReadEncodedFrom(v / 128, k + 1, acc');
      assert s[1..] == rest;
      ShiftRead(s, rest, k + 1, acc');
      assert s[0] % 128 == v % 128;
    }
  }

  lemma ShiftRead(s: bytes, rest: bytes, k: nat, acc: uint64)
    requires |s| >= 1 && s[1..] == rest && ReadVarintFrom(rest, 0, k, acc).Ok?
    ensures var (v, j) := ReadVarintFrom(rest, 0, k, acc).value; ReadVarintFrom(s, 1, k, acc) == Ok((v, j + 1))
  {
    var (v, j) := ReadVarintFrom(rest, 0, k, acc).value;
    assert s[1..1 + j] == rest[0..j];
    ReadVarintLocal(rest, 0, k, acc, s, 1);
  }

  /** Reading the encoding of a number, wherever it stands, gives the number. */
  lemma ReadEncoded(v: uint64, d: bytes, i: nat)
    requires i + |EncodeVarint(v)| <= |d| && d[i..i + |EncodeVarint(v)|] == EncodeVarint(v)
    ensures ReadVarint(d, i) == Ok((v, i + |EncodeVarint(v)|))
  {
    var s := EncodeVarint(v);
    assert Shifted(v, 0) == v;
    ReadEncodedFrom(v, 0, 0);
    assert s[0..|s|] == s;
    ReadVarintLocal(s, 0, 0, 0, d, i);
  }
}
