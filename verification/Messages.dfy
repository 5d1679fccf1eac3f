/** The messages of `data_def.proto`, and the meaning of their `Unmarshal` functions. */
module Messages {
  import opened Integers
  import opened Options
  import opened Results
  import opened Wire

  /** A Go string is a byte sequence.  `unrecognized` is `XXX_unrecognized`. */
  datatype Contact = Contact(accountId: int64, remarkName: bytes, unrecognized: bytes)

  /** `ContactList` and, field for field, `BlackList`. */
  datatype ContactList = ContactList(contacts: seq<Contact>, unrecognized: bytes)

  datatype LikerList = LikerList(likers: seq<int64>, unrecognized: bytes)

  datatype AccountInfo = AccountInfo(
    accountId: int64, cl: Option<ContactList>, lastMsgTs: int64, creationTime: int64, unrecognized: bytes)

  datatype Message =
    | OfContact(contact: Contact)
    | OfContactList(list: ContactList)
    | OfLikerList(likerList: LikerList)
    | OfAccountInfo(account: AccountInfo)

  const EMPTY_CONTACT := Contact(0, [], [])
  const EMPTY_LIST := ContactList([], [])
  const EMPTY_LIKERS := LikerList([], [])
  const EMPTY_ACCOUNT := AccountInfo(0, None, 0, 0, [])

  predicate SameType(m: Message, n: Message) {
    m.OfContact? == n.OfContact? && m.OfContactList? == n.OfContactList?
    && m.OfLikerList? == n.OfLikerList? && m.OfAccountInfo? == n.OfAccountInfo?
  }

  /** Whether the message type declares the field. */
  predicate Known(m: Message, field: int) {
    match m
    case OfContact(_) => field == 1 || field == 2
    case OfContactList(_) => field == 1
    case OfLikerList(_) => field == 1
    case OfAccountInfo(_) => 1 <= field <= 4
  }

  // ----- The kinds of field

  /** An int64 field whose tag ends at i. */
  function Int64At(d: bytes, i: nat, wireType: int): (r: Read<int64>)
    requires i <= |d|
    ensures r.Ok? ==> i < r.value.1 <= |d|
  {
    if wireType != 0 then Err(WrongWireType)
    else
      var (u, j) :- ReadVarint(d, i);
      Ok((ToInt64(u), j))
  }

  /** The payload of a string or message field whose tag ends at i. */
  function PayloadAt(d: bytes, i: nat, wireType: int): (r: Read<bytes>)
    requires i <= |d| <= MAX_LENGTH
    ensures r.Ok? ==> i < r.value.1 <= |d| && |r.value.0| <= |d| - i
  {
    if wireType != 2 then Err(WrongWireType)
    else
      var (start, post) :- ReadLength(d, i);
      Ok((d[start..post], post))
  }

  /** Varints from i until an index at or after `post` is reached. */
  function ReadPacked(d: bytes, i: nat, post: nat): (r: Read<seq<int64>>)
    requires i <= |d|
    ensures r.Ok? ==> i <= r.value.1 <= |d|
    decreases |d| - i
  {
    if i >= post then Ok(([], i))
    else
      var (u, j) :- ReadVarint(d, i);
      var (rest, k) :- ReadPacked(d, j, post);
      Ok(([ToInt64(u)] + rest, k))
  }

  /** The likers that a field contributes: one value, or a packed payload. */
  function LikersAt(d: bytes, i: nat, wireType: int): (r: Read<seq<int64>>)
    requires i <= |d| <= MAX_LENGTH
    ensures r.Ok? ==> i < r.value.1 <= |d|
  {
    if wireType == 0 then
      var (u, j) :- ReadVarint(d, i);
      Ok(([ToInt64(u)], j))
    else if wireType == 2 then
      var (start, post) :- ReadLength(d, i);
      ReadPacked(d, start, post)
    else Err(WrongWireType)
  }

  /** A field of unknown number, kept as it stands; its tag starts at i. */
  function UnknownAt(d: bytes, i: nat): (r: Read<bytes>)
    requires i < |d| <= MAX_LENGTH
    ensures r.Ok? ==> i < r.value.1 <= |d| && r.value.0 == d[i..r.value.1]
  {
    var skippy :- Skip(d[i..]);
    var next := WrappingAdd(i, skippy);
    if next < 0 then Err(InvalidLength)
    else if next > |d| then Err(UnexpectedEOF)
    else Ok((d[i..next], next))
  }

  function AddUnrecognized(m: Message, s: bytes): Message {
    match m
    case OfContact(c) => OfContact(c.(unrecognized := c.unrecognized + s))
    case OfContactList(l) => OfContactList(l.(unrecognized := l.unrecognized + s))
    case OfLikerList(l) => OfLikerList(l.(unrecognized := l.unrecognized + s))
    case OfAccountInfo(a) => OfAccountInfo(a.(unrecognized := a.unrecognized + s))
  }

  // ----- Unmarshal

  /** One round of the loop for a field that the message declares, after its tag. */
  function KnownAt(m: Message, field: int, d: bytes, i: nat, wireType: int): (r: Read<Message>)
    requires Known(m, field) && 1 <= i <= |d| <= MAX_LENGTH
    ensures r.Ok? ==> i < r.value.1 <= |d| && SameType(m, r.value.0)
    decreases |d|, 0
  {
    match m
    case OfContact(c) =>
      if field == 1 then
        var (v, j) :- Int64At(d, i, wireType);
        Ok((OfContact(c.(accountId := v)), j))
      else
        var (s, j) :- PayloadAt(d, i, wireType);
        Ok((OfContact(c.(remarkName := s)), j))
    case OfContactList(l) =>
      var (s, j) :- PayloadAt(d, i, wireType);
      var sub :- UnmarshalFrom(OfContact(EMPTY_CONTACT), s, 0);
      Ok((OfContactList(l.(contacts := l.contacts + [sub.contact])), j))
    case OfLikerList(l) =>
      var (vs, j) :- LikersAt(d, i, wireType);
      Ok((OfLikerList(l.(likers := l.likers + vs)), j))
    case OfAccountInfo(a) =>
      if field == 2 then
        var (s, j) :- PayloadAt(d, i, wireType);
        var held := match a.cl case None => EMPTY_LIST case Some(l) => l;
        var sub :- UnmarshalFrom(OfContactList(held), s, 0);
        Ok((OfAccountInfo(a.(cl := Some(sub.list))), j))
      else
        var (v, j) :- Int64At(d, i, wireType);
        Ok((OfAccountInfo(if field == 1 then a.(accountId := v)
                          else if field == 3 then a.(lastMsgTs := v)
                          else a.(creationTime := v)), j))
  }

  /** One round of the loop: the field whose tag starts at i. */
  function FieldAt(m: Message, d: bytes, i: nat): (r: Read<Message>)
    requires i < |d| <= MAX_LENGTH
    ensures r.Ok? ==> i < r.value.1 <= |d| && SameType(m, r.value.0)
    decreases |d|, 1
  {
    var (wire, j) :- ReadVarint(d, i);
    var fieldNum := ToInt32(wire / 8);
    var wireType := wire % 8;
    if wireType == 4 then Err(EndGroup)
    else if fieldNum <= 0 then Err(IllegalTag)
    else if Known(m, fieldNum) then KnownAt(m, fieldNum, d, j, wireType)
    else
      var (s, k) :- UnknownAt(d, i);
      Ok((AddUnrecognized(m, s), k))
  }

  function UnmarshalFrom(m: Message, d: bytes, i: nat): (r: Result<Message, WireError>)
    requires i <= |d| <= MAX_LENGTH
    ensures r.Ok? ==> SameType(m, r.value)
    decreases |d|, 2, |d| - i
  {
    if i >= |d| then Ok(m)
    else
      var (m', j) :- FieldAt(m, d, i);
      UnmarshalFrom(m', d, j)
  }

  /** What `Unmarshal` makes of a message that holds m when it is given d. */
  function Unmarshal(m: Message, d: bytes): (r: Result<Message, WireError>)
    requires |d| <= MAX_LENGTH
    ensures r.Ok? ==> SameType(m, r.value)
  {
    UnmarshalFrom(m, d, 0)
  }
}
