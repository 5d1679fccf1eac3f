/** `ContactList` (and `BlackList`, whose generated code is the same) as an object: a list of
references to contacts, which its methods extend and walk. */
module ContactListObjects {
  import opened Options
  import opened Results
  import opened Wire
  import opened Messages
  import opened Encoding
  import opened Buffers
  import opened MessageObjects

  function Values(cs: seq<ContactObject>): (vs: seq<Contact>)
    reads cs
    ensures |vs| == |cs|
  {
    if cs == [] then [] else [cs[0].Value()] + Values(cs[1..])
  }

  lemma {:induction false} ValuesAppend(cs: seq<ContactObject>, c: ContactObject)
    ensures Values(cs + [c]) == Values(cs) + [c.Value()]
  {
    if cs == [] {
      assert cs + [c] == [c];
      assert Values([c]) == [c.Value()] + Values([]);
    } else {
      ValuesAppend(cs[1..], c);
      assert (cs + [c])[1..] == cs[1..] + [c];
    }
  }

  lemma {:induction false} ValuesAt(cs: seq<ContactObject>, k: nat)
    requires k < |cs|
    ensures Values(cs)[k] == cs[k].Value()
  {
    if k > 0 { ValuesAt(cs[1..], k - 1); }
  }

  lemma {:induction false} SuffixLength(vs: seq<Contact>, k: nat)
    requires k <= |vs|
    ensures |EncodeContacts(vs[k..])| <= |EncodeContacts(vs)|
  {
    hide EncodePayload, EncodeContact;
    if k > 0 {
      SuffixLength(vs[1..], k - 1);
      assert vs[1..][k - 1..] == vs[k..];
    } else {
      assert vs[0..] == vs;
    }
  }

  /** The entry at k, in front of the entries after it. */
  lemma EntryStep(vs: seq<Contact>, k: nat)
    requires k < |vs|
    ensures EncodeContacts(vs[k..]) == EncodePayload(0xa, EncodeContact(vs[k])) + EncodeContacts(vs[k + 1..])
    ensures |EncodePayload(0xa, EncodeContact(vs[k]))| + |EncodeContacts(vs[k + 1..])| <= |EncodeContacts(vs)|
    ensures |EncodeContact(vs[k])| + 2 <= |EncodePayload(0xa, EncodeContact(vs[k]))|
  {
    hide EncodeContact;
    SuffixLength(vs, k);
    assert vs[k..][0] == vs[k] && vs[k..][1..] == vs[k + 1..];
    PayloadLayout(0xa, EncodeContact(vs[k]));
  }

  /** The encoding from entry k on. */
  function EncodedFrom(l: ContactList, k: nat): bytes
    requires k <= |l.contacts|
  {
    EncodeContacts(l.contacts[k..]) + l.unrecognized
  }

  lemma EncodedFromEnds(l: ContactList)
    ensures EncodedFrom(l, 0) == EncodeList(l) && EncodedFrom(l, |l.contacts|) == l.unrecognized
    ensures |l.unrecognized| <= |EncodeList(l)|
  {
    hide EncodeContact, EncodePayload;
    NoEntries();
    assert l.contacts[0..] == l.contacts && l.contacts[|l.contacts|..] == [];
    assert [] + l.unrecognized == l.unrecognized;
  }

  lemma EncodedFromStep(l: ContactList, k: nat)
    requires k < |l.contacts|
    ensures var entry := EncodePayload(0xa, EncodeContact(l.contacts[k]));
            && EncodedFrom(l, k) == entry + EncodedFrom(l, k + 1)
            && |entry| + |EncodedFrom(l, k + 1)| <= |EncodeList(l)|
            && |EncodeContact(l.contacts[k])| + 2 <= |entry|
  {
    hide EncodeContact, EncodePayload, EncodeContacts;
    EntryStep(l.contacts, k);
    var entry, rest := EncodePayload(0xa, EncodeContact(l.contacts[k])), EncodeContacts(l.contacts[k + 1..]);
    assert entry + rest + l.unrecognized == entry + (rest + l.unrecognized);
  }

  class ContactListObject {
    var Contacts: seq<ContactObject>
    var Unrecognized: bytes

    constructor ()
      ensures Value() == EMPTY_LIST
    {
      Contacts, Unrecognized := [], [];
    }

    function Value(): ContactList
      reads this, Contacts
    {
      ContactList(Values(Contacts), Unrecognized)
    }

    method Size() returns (n: nat)
      requires |EncodeList(Value())| <= MAX_LENGTH
      ensures n == |EncodeList(Value())|
    {
      hide EncodeContact, EncodePayload, EncodeContacts;
      var vs := Values(Contacts);
      n := 0;
      assert vs[0..] == vs;
      for k := 0 to |Contacts|
        invariant n + |EncodeContacts(vs[k..])| == |EncodeContacts(vs)|
      {
        EntryStep(vs, k);
        ValuesAt(Contacts, k);
        var l := Contacts[k].Size();
        var m := PayloadSize(l);
        assert m == |EncodePayload(0xa, EncodeContact(vs[k]))|;
        n := n + m;
      }
      assert vs[|Contacts|..] == [];
      NoEntries();
      n := n + |Unrecognized|;
    }

    method MarshalToSizedBuffer(a: array<byte>, hi: nat) returns (n: nat)
      requires |EncodeList(Value())| <= hi <= a.Length <= MAX_LENGTH
      modifies a
      ensures n == |EncodeList(Value())|
      ensures Wrote(old(a[..]), a[..], hi - n, hi, EncodeList(Value()))
    {
      hide EncodeContact, EncodePayload, EncodeContacts, EncodeList, EncodedFrom, Wrote;
      ghost var b0, l := a[..], Value();
      EncodedFromEnds(l);
      var i := hi - |Unrecognized|;
      Copy(a, i, Unrecognized);
      var k := |Contacts|;
      while k > 0
        invariant 0 <= k <= |Contacts|
        invariant 0 <= i == hi - |EncodedFrom(l, k)|
        invariant Wrote(b0, a[..], i, hi, EncodedFrom(l, k))
      {
        k := k - 1;
        EncodedFromStep(l, k);
        ValuesAt(Contacts, k);
        ghost var b1, i1 := a[..], i;
        i := MarshalEntry(a, i, Contacts[k]);
        ghost var entry := EncodePayload(0xa, EncodeContact(l.contacts[k]));
        WroteBefore(b0, b1, a[..], i, i1, hi, entry, EncodedFrom(l, k + 1));
      }
      n := hi - i;
    }

    /** One entry with its tag and length, in front of position hi. */
    method MarshalEntry(a: array<byte>, hi: nat, c: ContactObject) returns (i: nat)
      requires |EncodePayload(0xa, EncodeContact(c.Value()))| <= hi <= a.Length <= MAX_LENGTH
      requires |EncodeContact(c.Value())| < MAX_LENGTH
      modifies a
      ensures i == hi - |EncodePayload(0xa, EncodeContact(c.Value()))|
      ensures Wrote(old(a[..]), a[..], i, hi, EncodePayload(0xa, EncodeContact(c.Value())))
    {
      hide EncodeContact, EncodePayload, Wrote, Header;
      var s := EncodeContact(c.Value());
      PayloadLayout(0xa, s);
      ghost var b0 := a[..];
      var size := c.MarshalToSizedBuffer(a, hi);
      i := hi - size;
      ghost var b1, i1 := a[..], i;
      i := PutHeader(a, i, 0xa, size);
      WroteBefore(b0, b1, a[..], i, i1, hi, Header(0xa, size), s);
    }

    method Marshal() returns (out: bytes)
      requires |EncodeList(Value())| <= MAX_LENGTH
      ensures out == EncodeList(Value())
    {
      hide EncodeList, Wrote;
      var size := Size();
      var a := new byte[size](_ => 0);
      ghost var b0 := a[..];
      var n := MarshalToSizedBuffer(a, size);
      WroteAll(b0, a[..], EncodeList(Value()));
      out := a[..n];
    }

    /** The case of the field switch that the message declares. */
    method UnmarshalEntry(d: bytes, j: nat, wireType: int) returns (r: Result<nat, WireError>)
      requires 1 <= j <= |d| <= MAX_LENGTH
      modifies this
      ensures match KnownAt(OfContactList(old(Value())), 1, d, j, wireType)
              case Err(e) => r == Err(e)
              case Ok(step) => r == Ok(step.1) && OfContactList(Value()) == step.0
    {
      hide PayloadAt, UnmarshalFrom;
      var s := DecodePayload(d, j, wireType);
      if s.Err? { return Err(s.error); }
      var c := new ContactObject();
      ghost var before := Contacts;
      Contacts := Contacts + [c];
      var e := c.Unmarshal(s.value.0);
      if e.Some? { return Err(e.value); }
      ValuesAppend(before, c);
      return Ok(s.value.1);
    }

    method Unmarshal(d: bytes) returns (err: Option<WireError>)
      requires |d| <= MAX_LENGTH
      modifies this
      ensures Decoded(OfContactList(old(Value())), d, OfContactList(Value()), err)
    {
      hide ReadVarint, KnownAt, UnknownAt, UnmarshalFrom;
      var i := 0;
      while i < |d|
        invariant 0 <= i <= |d|
        invariant UnmarshalFrom(OfContactList(Value()), d, i) == UnmarshalFrom(OfContactList(old(Value())), d, 0)
      {
        RunStep(OfContactList(Value()), d, i);
        var tag := DecodeVarint(d, i);
        if tag.Err? { return Some(tag.error); }
        var (wire, j) := tag.value;
        var fieldNum, wireType := ToInt32(wire / 8), wire % 8;
        if wireType == 4 { return Some(EndGroup); }
        if fieldNum <= 0 { return Some(IllegalTag); }
        if fieldNum == 1 {
          var next := UnmarshalEntry(d, j, wireType);
          if next.Err? { return Some(next.error); }
          i := next.value;
        } else {
          var s := DecodeUnknown(d, i);
          if s.Err? { return Some(s.error); }
          Unrecognized := Unrecognized + s.value.0;
          i := s.value.1;
        }
      }
      RunStep(OfContactList(Value()), d, i);
      return None;
    }
  }

  lemma NoEntries()
    ensures EncodeContacts([]) == []
  {
  }
}
