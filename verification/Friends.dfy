/** Becoming friends: requests, verification rows, messages to other servers, and what a login
catches up with.  A handler is one step; reading or writing a row may fail where the source
handles the failure. */
module Friends {

  type AccountId = int

  datatype Request = Request(receiver: AccountId, sender: AccountId)

  /** `account` has agreed to be a friend of `friend`, who has not taken note yet. */
  datatype Verification = Verification(friend: AccountId, account: AccountId)

  /** `MQAgreeBecomeFriend`, sent to `sender` because `receiver` has agreed. */
  datatype Agreement = Agreement(sender: AccountId, receiver: AccountId)

  type Contacts = map<AccountId, set<AccountId>>

  /** `saved` is the column contact_list, `online` the contact maps of the clients.  Messages
  stay in `messages` once they are sent: they may be delivered late, repeatedly or never. */
  datatype State = State(
    saved: Contacts, online: Contacts, requests: set<Request>, verifications: set<Verification>,
    messages: set<Agreement>)

  datatype Reply =
    | Done | NotWithSelf | UnknownReceiver | AlreadyFriends | NoSuchRequest | WriteFailed

  function Of(m: Contacts, a: AccountId): set<AccountId> { if a in m then m[a] else {} }

  /** b has a in its contact list. */
  predicate Lists(s: State, b: AccountId, a: AccountId) { a in Of(s.saved, b) }

  // ----- The handlers

  function AddFriend(s: State, c: AccountId, r: Request, known: bool, written: bool): (State, Reply) {
    if c == r.receiver then (s, NotWithSelf)
    else if !known then (s, UnknownReceiver)
    else if r.receiver in Of(s.online, c) then (s, AlreadyFriends)
    else if r in s.requests then (s, Done)
    else if !written then (s, WriteFailed)
    else (s.(requests := s.requests + {r}), Done)
  }

  /** `BeFriend` and `SaveContactInfo`: the list in memory overwrites the column. */
  function Befriend(s: State, c: AccountId, friends: set<AccountId>): State {
    var contacts := Of(s.online, c) + friends;
    s.(online := s.online[c := contacts], saved := s.saved[c := contacts])
  }

  function Agree(s: State, b: AccountId, sender: AccountId, written: bool): (State, Reply) {
    if Request(b, sender) !in s.requests then (s, NoSuchRequest)
    else if b == sender then (s, NotWithSelf)
    else if sender in Of(s.online, b) then (s, AlreadyFriends)
    else if !written || Verification(sender, b) in s.verifications then (s, WriteFailed)
    else
      (Befriend(s, b, {sender}).(
         verifications := s.verifications + {Verification(sender, b)},
         requests := s.requests - {Request(b, sender)},
         messages := s.messages + {Agreement(sender, b)}), Done)
  }

  function ReadRequest(s: State, c: AccountId, sender: AccountId): State {
    s.(requests := s.requests - {Request(c, sender)})
  }

  function Deliver(s: State, m: Agreement): State {
    (if m.receiver in Of(s.online, m.sender) then s else Befriend(s, m.sender, {m.receiver})).(
      verifications := s.verifications - {Verification(m.sender, m.receiver)})
  }

  /** The accounts that have agreed to be friends of a. */
  function Pending(s: State, a: AccountId): set<AccountId> {
    set v | v in s.verifications && v.friend == a :: v.account
  }

  /** `found` are the accounts whose brief information can be looked up; the others are passed
  over, yet all rows go if one was not passed over. */
  function Login(s: State, a: AccountId, found: set<AccountId>): State {
    var friends := Pending(s, a) * found;
    var s' := s.(online := s.online[a := Of(s.saved, a)]);
    if friends == {} then s'
    else
      Befriend(s', a, friends).(
        verifications := set v | v in s.verifications && v.friend != a)
  }

  function Logout(s: State, a: AccountId): State { s.(online := s.online - {a}) }

  // ----- The same steps as methods

  function Elements(xs: seq<AccountId>): set<AccountId> { set x | x in xs }

  lemma ElementsOfNext(xs: seq<AccountId>, k: nat)
    requires k < |xs|
    ensures Elements(xs[..k + 1]) == Elements(xs[..k]) + {xs[k]}
  {
    assert xs[..k + 1] == xs[..k] + [xs[k]];
  }

  class Server {
    var saved: Contacts
    var online: Contacts
    var requests: set<Request>
    var verifications: set<Verification>
    var messages: set<Agreement>

    constructor ()
      ensures Contents() == State(map[], map[], {}, {}, {})
    {
      saved, online, requests, verifications, messages := map[], map[], {}, {}, {};
    }

    function Contents(): State
      reads this
    {
      State(saved, online, requests, verifications, messages)
    }

    method BeFriend(c: AccountId, friend: AccountId)
      requires c in online
      modifies this`online
      ensures online == old(online)[c := old(online)[c] + {friend}]
    {
      online := online[c := online[c] + {friend}];
    }

    method SaveContactInfo(c: AccountId)
      requires c in online
      modifies this`saved
      ensures saved == old(saved)[c := online[c]]
    {
      saved := saved[c := online[c]];
    }

    method C2SAddFriend(c: AccountId, r: Request, known: bool, written: bool) returns (reply: Reply)
      requires c in online
      modifies this
      ensures (Contents(), reply) == AddFriend(old(Contents()), c, r, known, written)
    {
      if c == r.receiver {
        return NotWithSelf;
      }
      if !known {
        return UnknownReceiver;
      }
      if r.receiver !in online[c] {
        if r in requests {
          return Done;
        }
        if !written {
          return WriteFailed;
        }
        requests := requests + {r};
        return Done;
      } else {
        return AlreadyFriends;
      }
    }

    method C2SAgreeBecomeFriend(c: AccountId, sender: AccountId, written: bool) returns (reply: Reply)
      requires c in online
      modifies this
      ensures (Contents(), reply) == Agree(old(Contents()), c, sender, written)
    {
      if Request(c, sender) !in requests {
        return NoSuchRequest;
      }
      if c == sender {
        return NotWithSelf;
      }
      if sender in online[c] {
        return AlreadyFriends;
      }
      if !written || Verification(sender, c) in verifications {
        return WriteFailed;
      }
      verifications := verifications + {Verification(sender, c)};
      BeFriend(c, sender);
      SaveContactInfo(c);
      requests := requests - {Request(c, sender)};
      messages := messages + {Agreement(sender, c)};
      return Done;
    }

    method C2SReadFriendReq(c: AccountId, sender: AccountId)
      modifies this`requests
      ensures Contents() == ReadRequest(old(Contents()), c, sender)
    {
      requests := requests - {Request(c, sender)};
    }

    method MQAgreeBecomeFriend(c: AccountId, receiver: AccountId)
      requires c in online
      modifies this
      ensures Contents() == Deliver(old(Contents()), Agreement(c, receiver))
    {
      if receiver !in online[c] {
        BeFriend(c, receiver);
        SaveContactInfo(c);
      }
      verifications := verifications - {Verification(c, receiver)};
    }

    /** The rows that can be shown, in the order of the query. */
    method AgreedWhileOffline(rows: seq<AccountId>, found: set<AccountId>) returns (friendVers: seq<AccountId>)
      ensures Elements(friendVers) == Elements(rows) * found
    {
      hide Elements;
      friendVers := [];
      NoElements();
      assert rows[..0] == [];
      for k := 0 to |rows|
        invariant Elements(friendVers) == Elements(rows[..k]) * found
      {
        ElementsOfNext(rows, k);
        if rows[k] in found {
          ghost var longer := friendVers + [rows[k]];
          ElementsOfNext(longer, |friendVers|);
          assert longer[..|friendVers|] == friendVers && longer[..|longer|] == longer;
          friendVers := friendVers + [rows[k]];
        }
      }
      assert rows[..|rows|] == rows;
    }

    /** The loop over the verifications found at login. */
    method BeFriends(a: AccountId, friends: seq<AccountId>)
      requires a in online
      modifies this`online
      ensures online == old(online)[a := old(online)[a] + Elements(friends)]
    {
      hide Elements;
      NoElements();
      assert friends[..0] == [];
      for k := 0 to |friends|
        invariant a in online && online == old(online)[a := online[a]]
        invariant online[a] == old(online)[a] + Elements(friends[..k])
      {
        ElementsOfNext(friends, k);
        BeFriend(a, friends[k]);
      }
      assert friends[..|friends|] == friends;
    }

    /** `rows` is what the query for verification rows of a returns. */
    method ClientLogin(a: AccountId, rows: seq<AccountId>, found: set<AccountId>)
      requires Elements(rows) == Pending(Contents(), a)
      modifies this
      ensures Contents() == Login(old(Contents()), a, found)
    {
      hide Pending, Elements;
      online := online[a := if a in saved then saved[a] else {}];
      var friendVers := AgreedWhileOffline(rows, found);
      ghost var s := Contents();
      BeFriends(a, friendVers);
      SomeElement(friendVers);
      if |friendVers| > 0 {
        SaveContactInfo(a);
        verifications := set v | v in verifications && v.friend != a;
      } else {
        assert online[a] == Of(s.online, a);
        assert online == s.online;
      }
    }
  }

  lemma NoElements()
    ensures Elements([]) == {}
  {
  }

  lemma SomeElement(xs: seq<AccountId>)
    ensures Elements(xs) == {} <==> xs == []
  {
    if xs != [] { assert xs[0] in Elements(xs); }
  }

  // ----- The invariant of runs without deletions

  /** Whoever is listed lists back, or finds a row to do so by. */
  ghost predicate Mutual(s: State) {
    forall a: AccountId, b: AccountId :: Lists(s, b, a) ==> Lists(s, a, b) || Verification(a, b) in s.verifications
  }

  ghost predicate Inv(s: State) {
    && Mutual(s)
    && (forall v :: v in s.verifications ==> Lists(s, v.account, v.friend))
    && (forall m :: m in s.messages ==> Lists(s, m.receiver, m.sender))
    && (forall a :: a in s.online ==> s.online[a] == Of(s.saved, a))
  }

  /** With the list in memory like the one saved, befriending adds to the lists of c alone. */
  lemma BefriendAdds(s: State, c: AccountId, friends: set<AccountId>, b: AccountId, a: AccountId)
    requires Of(s.online, c) == Of(s.saved, c)
    ensures Lists(Befriend(s, c, friends), b, a) <==> Lists(s, b, a) || (b == c && a in friends)
  {
  }

  lemma AgreeKeeps(s: State, b: AccountId, sender: AccountId, written: bool)
    requires Inv(s) && b in s.online
    ensures Inv(Agree(s, b, sender, written).0)
  {
    hide Lists, Befriend, Of;
    var s' := Agree(s, b, sender, written).0;
    if Agree(s, b, sender, written).1 == Done {
      AgreeEffect(s, b, sender, written);
    }
  }

  /** An agreement adds the sender to the list of b, and a row by which the sender can add b. */
  lemma AgreeEffect(s: State, b: AccountId, sender: AccountId, written: bool)
    requires Inv(s) && b in s.online && Agree(s, b, sender, written).1 == Done
    ensures var s' := Agree(s, b, sender, written).0;
            && (forall x, y :: Lists(s', x, y) <==> Lists(s, x, y) || (x == b && y == sender))
            && s'.verifications == s.verifications + {Verification(sender, b)}
            && s'.messages == s.messages + {Agreement(sender, b)}
            && (forall x :: x in s'.online ==> s'.online[x] == Of(s'.saved, x))
  {
    var s' := Agree(s, b, sender, written).0;
    forall x, y ensures Lists(s', x, y) <==> Lists(s, x, y) || (x == b && y == sender) {
      BefriendAdds(s, b, {sender}, x, y);
    }
  }

  lemma DeliverKeeps(s: State, m: Agreement)
    requires Inv(s) && m in s.messages && m.sender in s.online
    ensures Inv(Deliver(s, m))
  {
    DeliverEffect(s, m);
    hide Lists, Deliver, Of;
  }

  /** A delivery makes the sender list the receiver, whether or not it did before. */
  lemma DeliverEffect(s: State, m: Agreement)
    requires Inv(s) && m.sender in s.online
    ensures var s' := Deliver(s, m);
            && (forall x, y :: Lists(s', x, y) <==> Lists(s, x, y) || (x == m.sender && y == m.receiver))
            && s'.verifications == s.verifications - {Verification(m.sender, m.receiver)}
            && s'.messages == s.messages
            && (forall x :: x in s'.online ==> s'.online[x] == Of(s'.saved, x))
  {
    var s' := Deliver(s, m);
    forall x, y ensures Lists(s', x, y) <==> Lists(s, x, y) || (x == m.sender && y == m.receiver) {
      if m.receiver !in Of(s.online, m.sender) {
        BefriendAdds(s, m.sender, {m.receiver}, x, y);
      }
    }
  }

  lemma LoginEffect(s: State, a: AccountId, found: set<AccountId>)
    requires Inv(s)
    ensures var s' := Login(s, a, found);
            && (forall x, y :: Lists(s', x, y) <==> Lists(s, x, y) || (x == a && y in Pending(s, a) * found))
            && s'.messages == s.messages
            && (forall v :: v in s'.verifications <==>
                  v in s.verifications && (v.friend != a || Pending(s, a) * found == {}))
            && (forall x :: x in s'.online ==> s'.online[x] == Of(s'.saved, x))
            && a in s'.online
  {
    hide Pending;
    var s' := Login(s, a, found);
    var s0 := s.(online := s.online[a := Of(s.saved, a)]);
    forall x, y ensures Lists(s', x, y) <==> Lists(s, x, y) || (x == a && y in Pending(s, a) * found) {
      if Pending(s, a) * found != {} {
        BefriendAdds(s0, a, Pending(s, a) * found, x, y);
      }
    }
  }

  /** A login loses nobody: it takes care of no row, or passes over no account that it does not
  list already. */
  predicate LosesNobody(s: State, a: AccountId, found: set<AccountId>) {
    Pending(s, a) * found == {} || forall b :: b in Pending(s, a) ==> b in found || Lists(s, a, b)
  }

  /** A login deletes every row, also of accounts that it has passed over: what runs keep is
  kept exactly when it loses nobody. */
  lemma LoginKeepsIff(s: State, a: AccountId, found: set<AccountId>)
    requires Inv(s)
    ensures Inv(Login(s, a, found)) <==> LosesNobody(s, a, found)
  {
    LoginEffect(s, a, found);
    PendingRows(s, a);
    hide Lists, Login, Of, Pending;
    var s' := Login(s, a, found);
    if LosesNobody(s, a, found) {
      forall x, y | Lists(s', y, x) ensures Lists(s', x, y) || Verification(x, y) in s'.verifications {
        if x == a && Verification(x, y) in s.verifications { assert y in Pending(s, a); }
      }
    } else {
      var b :| b in Pending(s, a) && b !in found && !Lists(s, a, b);
      assert Verification(a, b) in s.verifications;
      assert Lists(s', b, a) && !Lists(s', a, b);
    }
  }

  lemma PendingRows(s: State, a: AccountId)
    ensures forall b :: b in Pending(s, a) <==> Verification(a, b) in s.verifications
  {
    forall b | b in Pending(s, a) ensures Verification(a, b) in s.verifications {
      var v :| v in s.verifications && v.friend == a && v.account == b;
      assert v == Verification(a, b);
    }
    forall b | Verification(a, b) in s.verifications ensures b in Pending(s, a) {
      assert Verification(a, b).account == b;
    }
  }

  // ----- Runs

  datatype Action =
    | DoAddFriend(c: AccountId, request: Request, known: bool, written: bool)
    | DoAgree(c: AccountId, sender: AccountId, written: bool)
    | DoReadRequest(c: AccountId, sender: AccountId)
    | DoDeliver(message: Agreement)
    | DoLogin(a: AccountId, found: set<AccountId>)
    | DoLogout(a: AccountId)

  predicate Enabled(s: State, x: Action) {
    match x
    case DoAddFriend(c, _, _, _) => c in s.online
    case DoAgree(c, _, _) => c in s.online
    case DoReadRequest(c, _) => c in s.online
    case DoDeliver(m) => m in s.messages && m.sender in s.online
    case DoLogin(a, found) => LosesNobody(s, a, found)
    case DoLogout(a) => a in s.online
  }

  function Apply(s: State, x: Action): State {
    match x
    case DoAddFriend(c, r, known, written) => AddFriend(s, c, r, known, written).0
    case DoAgree(c, sender, written) => Agree(s, c, sender, written).0
    case DoReadRequest(c, sender) => ReadRequest(s, c, sender)
    case DoDeliver(m) => Deliver(s, m)
    case DoLogin(a, found) => Login(s, a, found)
    case DoLogout(a) => Logout(s, a)
  }

  lemma ActionKeeps(s: State, x: Action)
    requires Inv(s) && Enabled(s, x)
    ensures Inv(Apply(s, x))
  {
    match x
    case DoAddFriend(c, r, known, written) =>
    case DoAgree(c, sender, written) => AgreeKeeps(s, c, sender, written);
    case DoReadRequest(c, sender) =>
    case DoDeliver(m) => DeliverKeeps(s, m);
    case DoLogin(a, found) => LoginKeepsIff(s, a, found);
    case DoLogout(a) =>
  }

  predicate Possible(s: State, run: seq<Action>)
    decreases run
  {
    run == [] || (Enabled(s, run[0]) && Possible(Apply(s, run[0]), run[1..]))
  }

  function After(s: State, run: seq<Action>): State
    decreases run
  {
    if run == [] then s else After(Apply(s, run[0]), run[1..])
  }

  lemma {:induction false} RunKeeps(s: State, run: seq<Action>)
    requires Inv(s) && Possible(s, run)
    ensures Inv(After(s, run))
    decreases run
  {
    hide Inv, Apply, Enabled;
    if run != [] {
      ActionKeeps(s, run[0]);
      RunKeeps(Apply(s, run[0]), run[1..]);
    }
  }

  const START := State(map[], map[], {}, {}, {})

  ghost predicate Reachable(s: State) {
    exists run: seq<Action> :: Possible(START, run) && After(START, run) == s
  }

  lemma ReachableInv(s: State)
    requires Reachable(s)
    ensures Inv(s)
  {
    hide Possible, After;
    var run: seq<Action> :| Possible(START, run) && After(START, run) == s;
    RunKeeps(START, run);
  }

  /** Whoever lists an account is listed by it or waits in a verification row, whatever was
  lost, delayed or delivered twice. */
  lemma ListedOrPending(s: State, a: AccountId, b: AccountId)
    requires Reachable(s) && Lists(s, b, a)
    ensures Lists(s, a, b) || Verification(a, b) in s.verifications
  {
    hide Reachable, Lists;
    ReachableInv(s);
  }

  /** After a logs in with all lookups succeeding, everybody who lists a is listed by a, in the
  column and in memory, and no row for a is left. */
  lemma LoginCatchesUp(s: State, a: AccountId, found: set<AccountId>, b: AccountId)
    requires Reachable(s) && Pending(s, a) <= found
    ensures var s' := Login(s, a, found);
            && (Lists(s', b, a) ==> Lists(s', a, b) && b in s'.online[a])
            && Verification(a, b) !in s'.verifications
  {
    hide Reachable;
    ReachableInv(s);
    LoginEffect(s, a, found);
    LoginKeepsIff(s, a, found);
    PendingRows(s, a);
    hide Login, Inv, Pending;
    var s' := Login(s, a, found);
    assert Pending(s, a) * found == Pending(s, a);
    assert Inv(s') && s'.online[a] == Of(s'.saved, a);
    assert Verification(a, b) !in s'.verifications;
    assert Mutual(s') by { InvIsMutual(s'); }
  }

  lemma InvIsMutual(s: State)
    requires Inv(s)
    ensures Mutual(s)
  {
  }

  /** Two accounts that have logged in one after the other list each other or not at all. */
  lemma LoginsMakeFriendsMutual(s: State, a: AccountId, b: AccountId, found: set<AccountId>, found': set<AccountId>)
    requires Reachable(s) && Pending(s, a) <= found && Pending(Login(s, a, found), b) <= found'
    ensures var s'' := Login(Login(s, a, found), b, found');
            Lists(s'', a, b) <==> Lists(s'', b, a)
  {
    hide Reachable;
    LoginCatchesUp(s, a, found, b);
    ReachableInv(s);
    LoginKeepsIff(s, a, found);
    var s' := Login(s, a, found);
    LoginEffect(s', b, found');
    PendingRows(s', b);
    hide Login, Lists, Pending, Of;
    assert Pending(s', b) * found' == Pending(s', b);
    InvIsMutual(s');
  }

  // ----- A handshake from request to delivery

  /** A request, the agreement and the delivery of its message make two strangers who are online
  list each other, and leave neither the request nor the verification row behind. */
  lemma HandshakeCompletes(s: State, a: AccountId, b: AccountId)
    requires Reachable(s) && a in s.online && b in s.online && a != b && !Lists(s, a, b) && !Lists(s, b, a)
    ensures var (s1, reply1) := AddFriend(s, a, Request(b, a), true, true);
            var (s2, reply2) := Agree(s1, b, a, true);
            var s3 := Deliver(s2, Agreement(a, b));
            && reply1 == Done && reply2 == Done && Agreement(a, b) in s2.messages
            && Lists(s3, a, b) && Lists(s3, b, a)
            && Request(b, a) !in s3.requests && Verification(a, b) !in s3.verifications
  {
    hide Reachable;
    ReachableInv(s);
    var s1 := AddFriend(s, a, Request(b, a), true, true).0;
    ActionKeeps(s, DoAddFriend(a, Request(b, a), true, true));
    var s2 := Agree(s1, b, a, true).0;
    AgreeKeeps(s1, b, a, true);
    AgreeEffect(s1, b, a, true);
    hide Inv, Lists, Agree, Deliver;
    assert s2.online == Agree(s1, b, a, true).0.online;
    DeliverEffect(s2, Agreement(a, b));
  }

  /** An agreement cannot be repeated: the second one finds no request, and a new request from
  a friend is refused. */
  lemma AgreementIsOnce(s: State, b: AccountId, sender: AccountId, again: bool)
    requires Inv(s) && b in s.online && Agree(s, b, sender, true).1 == Done
    ensures var s' := Agree(s, b, sender, true).0;
            && Agree(s', b, sender, again) == (s', NoSuchRequest)
            && AddFriend(s', b, Request(sender, b), true, true) == (s', AlreadyFriends)
  {
  }

  // ----- A login that loses somebody

  lemma {:induction false} AfterAppend(s: State, run: seq<Action>, x: Action)
    requires Possible(s, run) && Enabled(After(s, run), x)
    ensures Possible(s, run + [x]) && After(s, run + [x]) == Apply(After(s, run), x)
    decreases run
  {
    hide Apply, Enabled;
    var longer := run + [x];
    if run == [] {
      assert longer[1..] == [];
      assert After(Apply(s, x), []) == Apply(s, x);
    } else {
      AfterAppend(Apply(s, run[0]), run[1..], x);
      assert longer[1..] == run[1..] + [x];
    }
  }

  lemma ReachableStep(s: State, x: Action)
    requires Reachable(s) && Enabled(s, x)
    ensures Reachable(Apply(s, x))
  {
    hide Apply, Enabled, Possible, After;
    var run: seq<Action> :| Possible(START, run) && After(START, run) == s;
    AfterAppend(START, run, x);
  }

  lemma StartIsReachable()
    ensures Reachable(START)
  {
    assert Possible(START, []) && After(START, []) == START;
  }

  /** Accounts 1, 2 and 3 are online, and 1 has asked the others. */
  function Asked(n: nat): State {
    var all: Contacts := map[1 := {}, 2 := {}, 3 := {}];
    State(map[], all, (if n >= 1 then {Request(2, 1)} else {}) + (if n >= 2 then {Request(3, 1)} else {}), {}, {})
  }

  lemma AskedIsReachable()
    ensures Reachable(Asked(2))
  {
    hide Reachable;
    var s1, s2 := State(map[], map[1 := {}], {}, {}, {}), State(map[], map[1 := {}, 2 := {}], {}, {}, {});
    StartIsReachable();
    NobodyPending(START);
    assert Apply(START, DoLogin(1, {})) == s1;
    ReachableStep(START, DoLogin(1, {}));
    NobodyPending(s1);
    assert Apply(s1, DoLogin(2, {})) == s2;
    ReachableStep(s1, DoLogin(2, {}));
    NobodyPending(s2);
    assert Apply(s2, DoLogin(3, {})) == Asked(0);
    ReachableStep(s2, DoLogin(3, {}));
    assert Apply(Asked(0), DoAddFriend(1, Request(2, 1), true, true)) == Asked(1);
    ReachableStep(Asked(0), DoAddFriend(1, Request(2, 1), true, true));
    assert Apply(Asked(1), DoAddFriend(1, Request(3, 1), true, true)) == Asked(2);
    ReachableStep(Asked(1), DoAddFriend(1, Request(3, 1), true, true));
  }

  lemma NobodyPending(s: State)
    requires s.verifications == {}
    ensures forall a :: Pending(s, a) == {}
  {
  }

  /** When 1 logs in and the brief information of 2 can be read but not that of 3, then 3 lists 1,
  1 does not list 3, and no row is left to repair it. */
  lemma LoginLosesSomebody()
    ensures var s := Login(Apply(Apply(Apply(Asked(2), DoLogout(1)), DoAgree(2, 1, true)), DoAgree(3, 1, true)),
                           1, {2});
            Lists(s, 3, 1) && !Lists(s, 1, 3) && Verification(1, 3) !in s.verifications
    ensures var s := Apply(Apply(Apply(Asked(2), DoLogout(1)), DoAgree(2, 1, true)), DoAgree(3, 1, true));
            Reachable(s) && !LosesNobody(s, 1, {2})
  {
    hide Reachable;
    AskedIsReachable();
    var s0, s1 := Asked(2), Apply(Asked(2), DoLogout(1));
    ReachableStep(s0, DoLogout(1));
    var s2 := Apply(s1, DoAgree(2, 1, true));
    ReachableStep(s1, DoAgree(2, 1, true));
    var s := Apply(s2, DoAgree(3, 1, true));
    ReachableStep(s2, DoAgree(3, 1, true));
    PendingRows(s, 1);
    assert Verification(1, 2) in s.verifications && Verification(1, 3) in s.verifications;
  }
}
