/** Packed and unpacked likers, and the element count that sizes the slice beforehand. */
module PackedLikers {
  import opened Results
  import opened Wire
  import opened Messages
  import opened Encoding

  /** One varint field for each value. */
  function EncodeUnpacked(vs: seq<int64>): bytes {
    if vs == [] then [] else [0x8] + EncodeVarint(ToUint64(vs[0])) + EncodeUnpacked(vs[1..])
  }

  lemma ReadUnpackedOne(l: LikerList, v: int64)
    requires 1 + |EncodeVarint(ToUint64(v))| <= MAX_LENGTH
    ensures Unmarshal(OfLikerList(l), [0x8] + EncodeVarint(ToUint64(v)))
            == Ok(OfLikerList(l.(likers := l.likers + [v])))
  {
    hide ReadVarint, EncodeVarint, Unmarshal, UnmarshalFrom, ToUint64, ToInt64;
    var s := EncodeVarint(ToUint64(v));
    var d := [0x8] + s;
    ReadTag(0x8, s);
    assert d[1..1 + |s|] == s;
    ReadEncoded(ToUint64(v), d, 1);
    Int64Sign(v);
    OneField(OfLikerList(l), d);
  }

  /** Both encodings of a list of values decode to the same message. */
  lemma {:induction false} UnpackedLikePacked(l: LikerList, vs: seq<int64>)
    requires |EncodeUnpacked(vs)| <= MAX_LENGTH && |EncodePayload(0xa, EncodeVarints(vs))| <= MAX_LENGTH
    ensures Unmarshal(OfLikerList(l), EncodeUnpacked(vs)) == Ok(OfLikerList(l.(likers := l.likers + vs)))
    ensures Unmarshal(OfLikerList(l), EncodeUnpacked(vs))
            == Unmarshal(OfLikerList(l), EncodePayload(0xa, EncodeVarints(vs)))
  {
    hide Unmarshal, EncodePayload;
    ReadUnpacked(l, vs);
    ReadPackedLikers(l, vs);
  }

  lemma {:induction false} ReadUnpacked(l: LikerList, vs: seq<int64>)
    requires |EncodeUnpacked(vs)| <= MAX_LENGTH
    ensures Unmarshal(OfLikerList(l), EncodeUnpacked(vs)) == Ok(OfLikerList(l.(likers := l.likers + vs)))
    decreases vs
  {
    hide Unmarshal, EncodeVarint, ToUint64;
    if vs == [] {
      Nothing(OfLikerList(l));
      assert l.likers + vs == l.likers;
    } else {
      var d1 := [0x8] + EncodeVarint(ToUint64(vs[0]));
      var l1 := l.(likers := l.likers + [vs[0]]);
      ReadUnpackedOne(l, vs[0]);
      ReadUnpacked(l1, vs[1..]);
      assert l1.likers + vs[1..] == l.likers + vs;
      Chain(OfLikerList(l), d1, OfLikerList(l1), EncodeUnpacked(vs[1..]), OfLikerList(l.(likers := l.likers + vs)));
    }
  }

  /** The bytes that end a varint. */
  function Terminators(s: bytes): nat {
    if s == [] then 0 else (if s[0] < 128 then 1 else 0) + Terminators(s[1..])
  }

  /** The loop that counts them. */
  method CountTerminators(s: bytes) returns (count: nat)
    ensures count == Terminators(s)
  {
    count := 0;
    for k := 0 to |s|
      invariant count == Terminators(s[..k])
    {
      assert s[..k + 1] == s[..k] + [s[k]];
      TerminatorsConcat(s[..k], [s[k]]);
      if s[k] < 128 { count := count + 1; }
    }
    assert s[..|s|] == s;
  }

  lemma {:induction false} TerminatorsConcat(s: bytes, t: bytes)
    ensures Terminators(s + t) == Terminators(s) + Terminators(t)
  {
    if s == [] {
      assert s + t == t;
    } else {
      TerminatorsConcat(s[1..], t);
      assert (s + t)[1..] == s[1..] + t;
    }
  }

  /** A varint that was read has one terminator, its last byte. */
  lemma {:induction false} VarintShape(d: bytes, i: nat, k: nat, acc: uint64)
    requires i <= |d| && ReadVarintFrom(d, i, k, acc).Ok?
    ensures var j := ReadVarintFrom(d, i, k, acc).value.1;
            d[j - 1] < 128 && forall x :: i <= x < j - 1 ==> d[x] >= 128
    decreases |d| - i
  {
    if d[i] >= 128 {
      VarintShape(d, i + 1, k + 1, (acc + Shifted(d[i] % 128, k)) % 0x1_0000_0000_0000_0000);
    }
  }

  lemma {:induction false} NoTerminators(s: bytes)
    requires forall x :: 0 <= x < |s| ==> s[x] >= 128
    ensures Terminators(s) == 0
  {
    if s != [] { NoTerminators(s[1..]); }
  }

  /** The count made before a packed payload is read is the number of values that follow, and
  the reading ends with the payload, exactly when the payload is empty or ends a varint. */
  lemma {:induction false} ElementCountExact(d: bytes, i: nat, post: nat)
    requires i <= post <= |d| && ReadPacked(d, i, post).Ok?
    ensures var (vs, k) := ReadPacked(d, i, post).value;
            && (Terminators(d[i..post]) == |vs| <==> i == post || d[post - 1] < 128)
            && (k == post <==> i == post || d[post - 1] < 128)
            && |vs| - 1 <= Terminators(d[i..post]) <= |vs|
    decreases post - i
  {
    if i < post {
      var (u, j) := ReadVarint(d, i).value;
      VarintShape(d, i, 0, 0);
      hide ReadVarint;
      if j <= post {
        ElementCountExact(d, j, post);
        assert d[i..post] == d[i..j - 1] + ([d[j - 1]] + d[j..post]);
        NoTerminators(d[i..j - 1]);
        TerminatorsConcat(d[i..j - 1], [d[j - 1]] + d[j..post]);
        assert ([d[j - 1]] + d[j..post])[1..] == d[j..post];
      } else {
        NoTerminators(d[i..post]);
      }
    }
  }
}
