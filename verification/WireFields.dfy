/** What `skipDataDef` does with the fields of the wire format: it consumes exactly one
well-formed field, whatever follows, and a success depends on the consumed bytes only. */
module WireFields {
  import opened Results
  import opened Wire

  /** The bytes of one varint, minimal or not, with its value. */
  predicate IsVarint(s: bytes) {
    ReadVarint(s, 0).Ok? && ReadVarint(s, 0).value.1 == |s|
  }

  function VarintValue(s: bytes): uint64
    requires IsVarint(s)
  {
    ReadVarint(s, 0).value.0
  }

  /** A field of the wire format, by wire type. */
  datatype Field =
    | VarintField(tag: bytes, value: bytes)
    | Fixed64Field(tag: bytes, payload: bytes)
    | LengthField(tag: bytes, length: bytes, payload: bytes)
    | GroupField(tag: bytes, members: seq<Field>, endTag: bytes)
    | Fixed32Field(tag: bytes, payload: bytes)

  function WireType(f: Field): int {
    match f
    case VarintField(_, _) => 0
    case Fixed64Field(_, _) => 1
    case LengthField(_, _, _) => 2
    case GroupField(_, _, _) => 3
    case Fixed32Field(_, _) => 5
  }

  function FieldBytes(f: Field): bytes {
    f.tag + match f
            case VarintField(_, value) => value
            case Fixed64Field(_, payload) => payload
            case LengthField(_, length, payload) => length + payload
            case GroupField(_, members, endTag) => MemberBytes(members) + endTag
            case Fixed32Field(_, payload) => payload
  }

  function MemberBytes(fs: seq<Field>): bytes {
    if fs == [] then [] else FieldBytes(fs[0]) + MemberBytes(fs[1..])
  }

  predicate WellFormed(f: Field) {
    IsVarint(f.tag) && VarintValue(f.tag) % 8 == WireType(f)
    && match f
       case VarintField(_, value) => IsVarint(value)
       case Fixed64Field(_, payload) => |payload| == 8
       case LengthField(_, length, payload) => IsVarint(length) && VarintValue(length) == |payload|
       case GroupField(_, members, endTag) =>
         IsVarint(endTag) && VarintValue(endTag) % 8 == 4 && forall m :: m in members ==> WellFormed(m)
       case Fixed32Field(_, payload) => |payload| == 4
  }

  // ----- Locality

  lemma ReadLocal(d: bytes, i: nat, e: bytes, p: nat)
    requires i <= |d| && p <= |e| && ReadVarint(d, i).Ok?
    requires SameWindow(d, i, ReadVarint(d, i).value.1, e, p)
    ensures ReadVarint(e, p) == Ok((ReadVarint(d, i).value.0, p + (ReadVarint(d, i).value.1 - i)))
  {
    ReadVarintLocal(d, i, 0, 0, e, p);
  }

  /** The varint s, standing at p in e. */
  lemma ReadAt(s: bytes, e: bytes, p: nat)
    requires IsVarint(s) && p + |s| <= |e| && e[p..p + |s|] == s
    ensures ReadVarint(e, p) == Ok((VarintValue(s), p + |s|))
  {
    assert s[0..|s|] == s;
    ReadLocal(s, 0, e, p);
  }

  lemma ReadWithinPrefix(d: bytes, e: bytes, n: nat, i: nat)
    requires n <= |d| && n <= |e| && d[..n] == e[..n] && i <= n
    requires ReadVarint(d, i).Ok? && ReadVarint(d, i).value.1 <= n
    ensures ReadVarint(e, i) == ReadVarint(d, i)
  {
    SubWindow(d, 0, n, e, 0, i, ReadVarint(d, i).value.1);
    ReadLocal(d, i, e, i);
  }

  lemma {:induction false} SkipLocal(d: bytes, e: bytes)
    requires 0 < |d| <= MAX_LENGTH && Skip(d).Ok? && Skip(d).value <= |d|
    requires Skip(d).value <= |e| <= MAX_LENGTH && d[..Skip(d).value] == e[..Skip(d).value]
    ensures Skip(e) == Skip(d)
    decreases |d|, 1, 0
  {
    hide SkipGroup;
    var n := Skip(d).value;
    var (wire, i) := ReadVarint(d, 0).value;
    if wire % 8 == 3 { SkipGroupLocal(d, i, e); }
    ReadWithinPrefix(d, e, n, 0);
    if wire % 8 == 0 || wire % 8 == 2 { ReadWithinPrefix(d, e, n, i); }
  }

  lemma {:induction false} SkipGroupLocal(d: bytes, i: int64, e: bytes)
    requires |d| <= MAX_LENGTH && 1 <= i && SkipGroup(d, i).Ok? && SkipGroup(d, i).value <= |d|
    requires SkipGroup(d, i).value <= |e| <= MAX_LENGTH && d[..SkipGroup(d, i).value] == e[..SkipGroup(d, i).value]
    ensures SkipGroup(e, i) == SkipGroup(d, i)
    decreases |d|, 0, if i <= |d| then |d| - i else 0
  {
    hide Skip;
    var n := SkipGroup(d, i).value;
    var (wire, j) := ReadVarint(d, i).value;
    if wire % 8 != 4 {
      assert d[i..][0..j - i] == d[i..j];
      ReadLocal(d, i, d[i..], 0);
    }
    ReadWithinPrefix(d, e, n, i);
    if wire % 8 != 4 {
      var k := Skip(d[i..]).value;
      SliceOfSlice(d, 0, n, i, i + k);
      SliceOfSlice(e, 0, n, i, i + k);
      SkipLocal(d[i..], e[i..]);
      SkipGroupLocal(d, i + k, e);
    }
  }

  // ----- Skipping a well-formed field

  lemma TagOf(f: Field, rest: bytes)
    requires WellFormed(f)
    ensures FieldBytes(f)[..|f.tag|] == f.tag && |FieldBytes(f)| >= |f.tag| >= 1
    ensures ReadVarint(FieldBytes(f) + rest, 0) == Ok((VarintValue(f.tag), |f.tag|))
  {
    ReadAt(f.tag, FieldBytes(f) + rest, 0);
  }

  /** The second varint of a field, after its tag. */
  lemma SecondVarint(tag: bytes, s: bytes, rest: bytes)
    requires IsVarint(s)
    ensures ReadVarint(tag + s + rest, |tag|) == Ok((VarintValue(s), |tag| + |s|))
  {
    assert (tag + s + rest)[|tag|..|tag| + |s|] == s;
    ReadAt(s, tag + s + rest, |tag|);
  }

  /** The skipper consumes exactly the field that d starts with. */
  lemma {:induction false} SkipField(f: Field, rest: bytes)
    requires WellFormed(f) && |FieldBytes(f) + rest| <= MAX_LENGTH
    ensures Skip(FieldBytes(f) + rest) == Ok(|FieldBytes(f)|)
    decreases f, 1, 0
  {
    hide SkipGroup, ReadVarint, IsVarint, VarintValue;
    var d := FieldBytes(f) + rest;
    TagOf(f, rest);
    match f
    case VarintField(tag, value) =>
      assert d == tag + value + rest;
      SecondVarint(tag, value, rest);
    case Fixed64Field(_, _) =>
    case LengthField(tag, length, payload) =>
      assert d == tag + length + (payload + rest);
      SecondVarint(tag, length, payload + rest);
    case GroupField(tag, members, endTag) =>
      assert d == tag + (MemberBytes(members) + endTag + rest);
      SkipMembers(f, d, |tag|, members, rest);
    case Fixed32Field(_, _) =>
  }

  /** From a member of a group on, the skipper runs to the end of the group. */
  lemma {:induction false} SkipMembers(group: Field, d: bytes, i: nat, members: seq<Field>, rest: bytes)
    requires group.GroupField? && IsVarint(group.endTag) && VarintValue(group.endTag) % 8 == 4
    requires forall m :: m in members ==> m in group.members && WellFormed(m)
    requires 1 <= i <= |d| <= MAX_LENGTH && d[i..] == MemberBytes(members) + group.endTag + rest
    ensures SkipGroup(d, i) == Ok(|d| - |rest|)
    decreases group, 0, |members|
  {
    hide Skip, ReadVarint, IsVarint, VarintValue, WellFormed;
    var tail := MemberBytes(members) + group.endTag + rest;
    if members == [] {
      assert tail == [] + group.endTag + rest;
      SecondVarint([], group.endTag, rest);
      ReadFromSlice(d, i);
    } else {
      var m := members[0];
      var rest' := MemberBytes(members[1..]) + group.endTag + rest;
      assert m in members;
      assert tail == FieldBytes(m) + rest';
      MemberTag(m, rest');
      ReadFromSlice(d, i);
      SkipField(m, rest');
      assert d[i + |FieldBytes(m)|..] == d[i..][|FieldBytes(m)|..] == rest';
      SkipMembers(group, d, i + |FieldBytes(m)|, members[1..], rest);
    }
  }

  lemma MemberTag(m: Field, rest: bytes)
    requires WellFormed(m)
    ensures |FieldBytes(m)| >= 1
    ensures ReadVarint(FieldBytes(m) + rest, 0).Ok? && ReadVarint(FieldBytes(m) + rest, 0).value.0 % 8 == WireType(m)
  {
    TagOf(m, rest);
  }

  lemma ReadFromSlice(d: bytes, i: nat)
    requires i <= |d| && ReadVarint(d[i..], 0).Ok?
    ensures var (v, j) := ReadVarint(d[i..], 0).value; ReadVarint(d, i) == Ok((v, i + j))
  {
    var (v, j) := ReadVarint(d[i..], 0).value;
    assert d[i..][0..j] == d[i..i + j];
    ReadLocal(d[i..], 0, d, i);
  }

  // ----- What the skipper accepts is well-formed

  lemma PrefixRead(d: bytes, n: nat)
    requires n <= |d| && ReadVarint(d, 0).Ok? && ReadVarint(d, 0).value.1 == n
    ensures IsVarint(d[..n]) && VarintValue(d[..n]) == ReadVarint(d, 0).value.0
  {
    assert d[..n][0..n] == d[0..n];
    ReadLocal(d, 0, d[..n], 0);
  }

  lemma MiddleRead(d: bytes, i: nat)
    requires i <= |d| && ReadVarint(d, i).Ok?
    ensures var (v, j) := ReadVarint(d, i).value; IsVarint(d[i..j]) && VarintValue(d[i..j]) == v
  {
    var (v, j) := ReadVarint(d, i).value;
    assert d[i..j][0..j - i] == d[i..j];
    ReadLocal(d, i, d[i..j], 0);
  }

  /** A skip that stays inside d, and does not start at an end tag, passed one well-formed field. */
  lemma {:induction false} SkippedIsField(d: bytes) returns (f: Field)
    requires 0 < |d| <= MAX_LENGTH && Skip(d).Ok? && Skip(d).value <= |d|
    requires ReadVarint(d, 0).value.0 % 8 != 4
    ensures WellFormed(f) && FieldBytes(f) == d[..Skip(d).value] && f.tag == d[..ReadVarint(d, 0).value.1]
    decreases |d|, 1, 0
  {
    hide SkipGroup, ReadVarint, IsVarint, VarintValue;
    var n := Skip(d).value;
    var (wire, i) := ReadVarint(d, 0).value;
    var tag := d[..i];
    PrefixRead(d, i);
    if wire % 8 == 0 {
      MiddleRead(d, i);
      f := VarintField(tag, d[i..n]);
      assert tag + d[i..n] == d[..n];
    } else if wire % 8 == 1 {
      f := Fixed64Field(tag, d[i..n]);
      assert tag + d[i..n] == d[..n];
    } else if wire % 8 == 2 {
      var (length, j) := ReadVarint(d, i).value;
      MiddleRead(d, i);
      f := LengthField(tag, d[i..j], d[j..n]);
      assert tag + (d[i..j] + d[j..n]) == d[..n];
    } else if wire % 8 == 3 {
      var members, endTag := SkippedAreMembers(d, i);
      f := GroupField(tag, members, endTag);
      assert tag + (MemberBytes(members) + endTag) == d[..n];
    } else {
      f := Fixed32Field(tag, d[i..n]);
      assert tag + d[i..n] == d[..n];
    }
  }

  lemma {:induction false} SkippedAreMembers(d: bytes, i: nat) returns (members: seq<Field>, endTag: bytes)
    requires 1 <= i <= |d| <= MAX_LENGTH && SkipGroup(d, i).Ok? && SkipGroup(d, i).value <= |d|
    ensures forall m :: m in members ==> WellFormed(m)
    ensures IsVarint(endTag) && VarintValue(endTag) % 8 == 4
    ensures MemberBytes(members) + endTag == d[i..SkipGroup(d, i).value]
    decreases |d|, 0, |d| - i
  {
    hide Skip, ReadVarint, IsVarint, VarintValue, WellFormed, FieldBytes;
    var n := SkipGroup(d, i).value;
    var (wire, j) := ReadVarint(d, i).value;
    if wire % 8 == 4 {
      MiddleRead(d, i);
      members, endTag := [], d[i..j];
      assert MemberBytes([]) + endTag == endTag;
    } else {
      var k := Skip(d[i..]).value;
      assert d[i..][0..j - i] == d[i..j];
      ReadLocal(d, i, d[i..], 0);
      var m := SkippedIsField(d[i..]);
      var rest;
      rest, endTag := SkippedAreMembers(d, i + k);
      members := [m] + rest;
      assert d[i..][..k] == d[i..i + k];
      assert MemberBytes(members) == FieldBytes(m) + MemberBytes(rest);
      assert d[i..i + k] + d[i + k..n] == d[i..n];
    }
  }
}
