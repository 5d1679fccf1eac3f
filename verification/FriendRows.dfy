/** What each handler does to every row, list and message, and when it refuses. */
module FriendRows {
  import opened Friends

  // ----- Replies

  /** The refusals of `C2SAddFriend`, in their order. */
  lemma AddFriendReplies(s: State, c: AccountId, r: Request, known: bool, written: bool)
    ensures var reply := AddFriend(s, c, r, known, written).1;
            && (reply == NotWithSelf <==> r.receiver == c)
            && (reply == UnknownReceiver <==> r.receiver != c && !known)
            && (reply == AlreadyFriends <==> r.receiver != c && known && r.receiver in Of(s.online, c))
            && (reply == WriteFailed <==>
                  r.receiver != c && known && r.receiver !in Of(s.online, c) && r !in s.requests && !written)
            && (reply == Done <==>
                  r.receiver != c && known && r.receiver !in Of(s.online, c) && (r in s.requests || written))
  {
    hide Of;
  }

  /** The refusals of `C2SAgreeBecomeFriend`; none of them changes anything. */
  lemma AgreeReplies(s: State, b: AccountId, sender: AccountId, written: bool)
    ensures var reply := Agree(s, b, sender, written).1; var asked := Request(b, sender) in s.requests;
            && (reply == NoSuchRequest <==> !asked)
            && (reply == NotWithSelf <==> asked && sender == b)
            && (reply == AlreadyFriends <==> asked && sender != b && sender in Of(s.online, b))
            && (reply == WriteFailed <==>
                  asked && sender != b && sender !in Of(s.online, b)
                  && (!written || Verification(sender, b) in s.verifications))
            && (reply == Done <==>
                  asked && sender != b && sender !in Of(s.online, b)
                  && written && Verification(sender, b) !in s.verifications)
    ensures Agree(s, b, sender, written).1 != Done ==> Agree(s, b, sender, written).0 == s
  {
    hide Of, Befriend;
  }

  // ----- Rows and messages, whatever the step

  /** The agreement of b to a request of sender goes through. */
  predicate Agrees(s: State, x: Action, b: AccountId, sender: AccountId) {
    && x.DoAgree? && x.c == b && x.sender == sender && x.written
    && Request(b, sender) in s.requests && sender != b
    && sender !in Of(s.online, b) && Verification(sender, b) !in s.verifications
  }

  /** A request row comes by being asked, and goes by being read or agreed to; nothing else touches it. */
  lemma RequestRows(s: State, x: Action, r: Request)
    ensures r in Apply(s, x).requests <==>
            || (r in s.requests && x != DoReadRequest(r.receiver, r.sender) && !Agrees(s, x, r.receiver, r.sender))
            || (x.DoAddFriend? && x.request == r && x.c != r.receiver && x.known && x.written
                && r.receiver !in Of(s.online, x.c))
  {
    assert r == Request(r.receiver, r.sender);
    hide Of, Pending;
  }

  /** A verification row comes by an agreement, and goes by the delivery of its message or by a login
  of its friend that can show somebody. */
  lemma VerificationRows(s: State, x: Action, v: Verification)
    ensures v in Apply(s, x).verifications <==>
            || (v in s.verifications
                && x != DoDeliver(Agreement(v.friend, v.account))
                && !(x.DoLogin? && x.a == v.friend && Pending(s, x.a) * x.found != {}))
            || Agrees(s, x, v.account, v.friend)
  {
    hide Of, Pending;
  }

  /** A message is sent by an agreement, and by nothing else. */
  lemma Messages(s: State, x: Action, m: Agreement)
    ensures m in Apply(s, x).messages <==> m in s.messages || Agrees(s, x, m.receiver, m.sender)
  {
    assert m == Agreement(m.sender, m.receiver);
    hide Of, Pending;
  }

  /** Who is on whose list after a step of a run: an agreement lists the sender, a delivery the
  account that has agreed, and a login those of its rows that can be shown. */
  lemma Listings(s: State, x: Action, b: AccountId, a: AccountId)
    requires Reachable(s) && Enabled(s, x)
    ensures Lists(Apply(s, x), b, a) <==>
            || Lists(s, b, a)
            || Agrees(s, x, b, a)
            || x == DoDeliver(Agreement(b, a))
            || (x.DoLogin? && x.a == b && a in Pending(s, b) && a in x.found)
  {
    hide Reachable;
    ReachableInv(s);
    match x
    case DoAddFriend(c, r, known, written) =>
      hide Of;
    case DoAgree(c, sender, written) =>
      AgreeReplies(s, c, sender, written);
      hide Inv, Of, Lists, Agree;
      if Agree(s, c, sender, written).1 == Done { AgreeEffect(s, c, sender, written); }
    case DoReadRequest(c, sender) =>
      hide Of;
    case DoDeliver(m) =>
      hide Inv, Of, Lists, Deliver;
      DeliverEffect(s, m);
    case DoLogin(account, found) =>
      hide Inv, Of, Lists, Login, Pending;
      LoginEffect(s, account, found);
    case DoLogout(account) =>
      hide Of;
  }

  /** A login brings an account online, a logout takes it off, and no other step does either; what
  an online client holds is what is saved. */
  lemma Online(s: State, x: Action, a: AccountId)
    requires Reachable(s) && Enabled(s, x)
    ensures a in Apply(s, x).online <==> (a in s.online && x != DoLogout(a)) || (x.DoLogin? && x.a == a)
    ensures a in Apply(s, x).online ==> Apply(s, x).online[a] == Of(Apply(s, x).saved, a)
  {
    hide Reachable;
    ReachableInv(s);
    ActionKeeps(s, x);
    hide Inv, Pending;
    OnlineFromInv(Apply(s, x));
  }

  lemma OnlineFromInv(s: State)
    requires Inv(s)
    ensures forall a :: a in s.online ==> s.online[a] == Of(s.saved, a)
  {
  }
}
