/** How a login replaces an earlier session of the same account and terminal.

A login holds the account's login lock while it kicks the earlier session, waits for its done
signal, stores the new session and starts the session's watcher.  A watcher waits for the
close signal, removes the entry of its session by key, and closes the done signal.  Sessions
are closed by kicks, and on their own whenever their connection ends. */
module Sessions {
  import opened Options
  import opened ClientManager

  /** The goroutine that `WatchCloseSignal` starts. */
  datatype Watcher = NotStarted | Waiting | HasRemoved | Finished

  /** A login names its account, and has a number to tell logins of one account apart. */
  datatype LoginId = LoginId(account: AccountId, number: nat)

  /** `login` is the login that has stored the session. */
  datatype Session = Session(
    account: AccountId, terminal: Terminal, login: LoginId, closed: bool, watcher: Watcher, done: bool)

  /** Where a login stands. */
  datatype Login =
    | Locked(terminal: Terminal)
    | WaitingFor(terminal: Terminal, victim: Option<nat>)
    | Ready(terminal: Terminal)
    | HasStored(session: nat)
    | HasWatched

  /** Sessions are numbered in the order in which they are stored.  `kickers` are the sessions
  that a goroutine of `KickClient` is still to close. */
  datatype System = System(
    sessions: seq<Session>, online: Online<nat>, logins: map<LoginId, Login>, kickers: set<nat>)

  datatype Action =
    | Lock(login: LoginId, terminal: Terminal)
    | Kick(login: LoginId)
    | Proceed(login: LoginId)
    | Store(login: LoginId)
    | Watch(login: LoginId)
    | Unlock(login: LoginId)
    | KickerCloses(session: nat)
    | Close(session: nat)
    | Remove(session: nat)
    | Finish(session: nat)

  /** No login holds the lock of the account. */
  predicate LockIsFree(s: System, acc: AccountId) {
    forall l :: l in s.logins ==> l.account != acc
  }

  predicate Enabled(s: System, a: Action) {
    (a.Lock? ==> LockIsFree(s, a.login.account)) && EnabledWithoutLock(s, a)
  }

  /** What can happen if the lock does not keep logins apart. */
  predicate EnabledWithoutLock(s: System, a: Action) {
    match a
    case Lock(l, _) => l !in s.logins
    case Kick(l) => l in s.logins && s.logins[l].Locked?
    case Proceed(l) =>
      l in s.logins && s.logins[l].WaitingFor?
      && (match s.logins[l].victim
          case None => true
          case Some(v) => v < |s.sessions| && s.sessions[v].done)
    case Store(l) => l in s.logins && s.logins[l].Ready?
    case Watch(l) => l in s.logins && s.logins[l].HasStored? && s.logins[l].session < |s.sessions|
    case Unlock(l) => l in s.logins && s.logins[l].HasWatched?
    case KickerCloses(n) => n in s.kickers && n < |s.sessions|
    case Close(n) => n < |s.sessions|
    case Remove(n) => n < |s.sessions| && s.sessions[n].watcher == Waiting && s.sessions[n].closed
    case Finish(n) => n < |s.sessions| && s.sessions[n].watcher == HasRemoved
  }

  function Apply(s: System, a: Action): System
    requires EnabledWithoutLock(s, a)
  {
    match a
    case Lock(l, t) => s.(logins := s.logins[l := Locked(t)])
    case Kick(l) =>
      var t := s.logins[l].terminal;
      var victim := Lookup(s.online, l.account, t);
      s.(logins := s.logins[l := WaitingFor(t, victim)],
         kickers := match victim case None => s.kickers case Some(v) => s.kickers + {v})
    case Proceed(l) => s.(logins := s.logins[l := Ready(s.logins[l].terminal)])
    case Store(l) =>
      var t := s.logins[l].terminal;
      var n: nat := |s.sessions|;
      s.(sessions := s.sessions + [Session(l.account, t, l, false, NotStarted, false)],
         online := Stored(s.online, l.account, t, n),
         logins := s.logins[l := HasStored(n)])
    case Watch(l) =>
      var n := s.logins[l].session;
      s.(sessions := s.sessions[n := s.sessions[n].(watcher := Waiting)],
         logins := s.logins[l := HasWatched])
    case Unlock(l) => s.(logins := s.logins - {l})
    case KickerCloses(n) =>
      s.(sessions := s.sessions[n := s.sessions[n].(closed := true)], kickers := s.kickers - {n})
    case Close(n) => s.(sessions := s.sessions[n := s.sessions[n].(closed := true)])
    case Remove(n) =>
      s.(sessions := s.sessions[n := s.sessions[n].(watcher := HasRemoved)],
         online := Removed(s.online, s.sessions[n].account, s.sessions[n].terminal))
    case Finish(n) =>
      s.(sessions := s.sessions[n := s.sessions[n].(watcher := Finished, done := true)])
  }

  predicate Initial(s: System) {
    s.sessions == [] && s.online == map[] && s.logins == map[] && s.kickers == {}
  }

  // ----- The invariant

  /** Stored, and not removed by its own watcher. */
  predicate Live(c: Session) { c.watcher == NotStarted || c.watcher == Waiting }

  /** The table holds the live sessions and nothing else. */
  ghost predicate TableIsLive(sessions: seq<Session>, online: Online<nat>) {
    && (forall n: nat :: n < |sessions| && Live(sessions[n]) ==>
          Lookup(online, sessions[n].account, sessions[n].terminal) == Some(n))
    && (forall a: AccountId, t: Terminal :: Lookup(online, a, t).Some? ==>
          EntryFits(sessions, a, t, Lookup(online, a, t).value))
  }

  predicate EntryFits(sessions: seq<Session>, a: AccountId, t: Terminal, n: nat) {
    n < |sessions| && sessions[n].account == a && sessions[n].terminal == t && Live(sessions[n])
  }

  predicate LoginFits(s: System, l: LoginId, login: Login) {
    match login
    case Locked(t) => true
    case WaitingFor(t, None) => Lookup(s.online, l.account, t) == None
    case WaitingFor(t, Some(v)) =>
      && v < |s.sessions| && s.sessions[v].account == l.account && s.sessions[v].terminal == t
      && (Lookup(s.online, l.account, t) == None || Lookup(s.online, l.account, t) == Some(v))
      && (s.sessions[v].closed || v in s.kickers)
    case Ready(t) => Lookup(s.online, l.account, t) == None
    case HasStored(n) => n < |s.sessions| && s.sessions[n].login == l && s.sessions[n].watcher == NotStarted
    case HasWatched => true
  }

  predicate SessionFits(s: System, n: nat)
    requires n < |s.sessions|
  {
    var c := s.sessions[n];
    && (c.done <==> c.watcher == Finished)
    && (!Live(c) ==> c.closed)
    && (c.watcher == NotStarted ==> c.login in s.logins && s.logins[c.login] == HasStored(n))
    && c.login.account == c.account
  }

  /** No two logins of one account at a time. */
  predicate LocksHeld(logins: map<LoginId, Login>) {
    forall l, m :: l in logins && m in logins && l.account == m.account ==> l == m
  }

  ghost predicate Inv(s: System) {
    && LocksHeld(s.logins)
    && NoneEmpty(s.online)
    && TableIsLive(s.sessions, s.online)
    && (forall l :: l in s.logins ==> LoginFits(s, l, s.logins[l]))
    && (forall n: nat :: n < |s.sessions| ==> SessionFits(s, n))
  }

  lemma InitialInv(s: System)
    requires Initial(s)
    ensures Inv(s)
  {
  }

  /** A change of flags that leaves the table and the other sessions alone. */
  lemma FlagsKeep(s: System, n: nat, c: Session, kickers: set<nat>)
    requires Inv(s) && n < |s.sessions|
    requires var b := s.sessions[n];
             && c.account == b.account && c.terminal == b.terminal && c.login == b.login
             && c.watcher == b.watcher && c.done == b.done
             && c.closed
    requires s.kickers - {n} <= kickers
    ensures Inv(s.(sessions := s.sessions[n := c], kickers := kickers))
  {
    hide Lookup, NoneEmpty;
    var s' := s.(sessions := s.sessions[n := c], kickers := kickers);
    forall l | l in s'.logins ensures LoginFits(s', l, s'.logins[l]) {
      assert LoginFits(s, l, s.logins[l]);
    }
    forall m: nat | m < |s'.sessions| ensures SessionFits(s', m) {
      assert SessionFits(s, m);
    }
  }

  /** A step of a login that leaves the sessions and the table alone. */
  lemma LoginKeeps(s: System, l: LoginId, login: Login, kickers: set<nat>)
    requires Inv(s) && s.kickers <= kickers
    requires l in s.logins ==> !s.logins[l].HasStored?
    requires l in s.logins || LockIsFree(s, l.account)
    requires LoginFits(s.(kickers := kickers), l, login) && !login.HasStored?
    ensures Inv(s.(logins := s.logins[l := login], kickers := kickers))
  {
    hide Lookup, NoneEmpty;
    var s' := s.(logins := s.logins[l := login], kickers := kickers);
    forall b | b in s'.logins ensures LoginFits(s', b, s'.logins[b]) {
      if b != l { assert LoginFits(s, b, s.logins[b]); }
    }
    forall m: nat | m < |s'.sessions| ensures SessionFits(s', m) {
      assert SessionFits(s, m);
    }
  }

  lemma KickKeeps(s: System, l: LoginId)
    requires Inv(s) && Enabled(s, Kick(l))
    ensures Inv(Apply(s, Kick(l)))
  {
    hide Lookup, NoneEmpty, LoginFits;
    var t := s.logins[l].terminal;
    var victim := Lookup(s.online, l.account, t);
    var kickers := match victim case None => s.kickers case Some(v) => s.kickers + {v};
    assert LoginFits(s.(kickers := kickers), l, WaitingFor(t, victim)) by {
      VictimFits(s, l, t);
    }
    LoginKeeps(s, l, WaitingFor(t, victim), kickers);
  }

  lemma VictimFits(s: System, l: LoginId, t: Terminal)
    requires Inv(s)
    ensures var victim := Lookup(s.online, l.account, t);
            var kickers := match victim case None => s.kickers case Some(v) => s.kickers + {v};
            LoginFits(s.(kickers := kickers), l, WaitingFor(t, victim))
  {
    hide Lookup, NoneEmpty;
    var victim := Lookup(s.online, l.account, t);
  }

  lemma ProceedKeeps(s: System, l: LoginId)
    requires Inv(s) && Enabled(s, Proceed(l))
    ensures Inv(Apply(s, Proceed(l)))
  {
    hide Lookup, NoneEmpty;
    assert LoginFits(s, l, s.logins[l]);
    if s.logins[l].victim.Some? {
      assert SessionFits(s, s.logins[l].victim.value);
    }
    LoginKeeps(s, l, Ready(s.logins[l].terminal), s.kickers);
  }

  lemma StoreKeeps(s: System, l: LoginId)
    requires Inv(s) && Enabled(s, Store(l))
    ensures Inv(Apply(s, Store(l)))
  {
    hide Lookup, NoneEmpty, Stored;
    var s' := Apply(s, Store(l));
    var t := s.logins[l].terminal;
    var n: nat := |s.sessions|;
    StoredNoneEmpty(s.online, l.account, t, n);
    forall b, u
      ensures Lookup(s'.online, b, u) == if b == l.account && u == t then Some(n) else Lookup(s.online, b, u)
    {
      StoredLookup(s.online, l.account, t, n, b, u);
    }
    assert LoginFits(s, l, s.logins[l]);
    forall b | b in s'.logins ensures LoginFits(s', b, s'.logins[b]) {
      if b != l { assert LoginFits(s, b, s.logins[b]); }
    }
    forall m: nat | m < |s'.sessions| ensures SessionFits(s', m) {
      if m < n { assert SessionFits(s, m); }
    }
    forall m: nat | m < |s'.sessions| && Live(s'.sessions[m])
      ensures Lookup(s'.online, s'.sessions[m].account, s'.sessions[m].terminal) == Some(m)
    {
      if m < n { assert s'.sessions[m] == s.sessions[m]; }
    }
  }

  lemma WatchKeeps(s: System, l: LoginId)
    requires Inv(s) && Enabled(s, Watch(l))
    ensures Inv(Apply(s, Watch(l)))
  {
    hide Lookup, NoneEmpty;
    var s' := Apply(s, Watch(l));
    assert LoginFits(s, l, s.logins[l]);
    forall b | b in s'.logins ensures LoginFits(s', b, s'.logins[b]) {
      if b != l { assert LoginFits(s, b, s.logins[b]); }
    }
    forall m: nat | m < |s'.sessions| ensures SessionFits(s', m) {
      assert SessionFits(s, m);
    }
  }

  lemma UnlockKeeps(s: System, l: LoginId)
    requires Inv(s) && Enabled(s, Unlock(l))
    ensures Inv(Apply(s, Unlock(l)))
  {
    hide Lookup, NoneEmpty;
    var s' := Apply(s, Unlock(l));
    forall b | b in s'.logins ensures LoginFits(s', b, s'.logins[b]) {
      assert LoginFits(s, b, s.logins[b]);
    }
    forall m: nat | m < |s'.sessions| ensures SessionFits(s', m) {
      assert SessionFits(s, m);
    }
  }

  lemma RemoveKeeps(s: System, n: nat)
    requires Inv(s) && Enabled(s, Remove(n))
    ensures Inv(Apply(s, Remove(n)))
  {
    hide Lookup, NoneEmpty, Removed;
    var s' := Apply(s, Remove(n));
    var acc, t := s.sessions[n].account, s.sessions[n].terminal;
    RemovedNoneEmpty(s.online, acc, t);
    forall b, u ensures Lookup(s'.online, b, u) == if b == acc && u == t then None else Lookup(s.online, b, u) {
      RemovedLookup(s.online, acc, t, b, u);
    }
    forall b | b in s'.logins ensures LoginFits(s', b, s'.logins[b]) {
      assert LoginFits(s, b, s.logins[b]);
    }
    forall m: nat | m < |s'.sessions| ensures SessionFits(s', m) {
      assert SessionFits(s, m);
    }
  }

  lemma FinishKeeps(s: System, n: nat)
    requires Inv(s) && Enabled(s, Finish(n))
    ensures Inv(Apply(s, Finish(n)))
  {
    hide Lookup, NoneEmpty;
    var s' := Apply(s, Finish(n));
    forall b | b in s'.logins ensures LoginFits(s', b, s'.logins[b]) {
      assert LoginFits(s, b, s.logins[b]);
    }
    forall m: nat | m < |s'.sessions| ensures SessionFits(s', m) {
      assert SessionFits(s, m);
    }
  }

  lemma ActionKeeps(s: System, a: Action)
    requires Inv(s) && Enabled(s, a)
    ensures Inv(Apply(s, a))
  {
    match a
    case Lock(l, t) =>
      hide NoneEmpty, TableIsLive;
      LoginKeeps(s, l, Locked(t), s.kickers);
    case Kick(l) => KickKeeps(s, l);
    case Proceed(l) => ProceedKeeps(s, l);
    case Store(l) => StoreKeeps(s, l);
    case Watch(l) => WatchKeeps(s, l);
    case Unlock(l) => UnlockKeeps(s, l);
    case KickerCloses(n) =>
      hide NoneEmpty, TableIsLive;
      FlagsKeep(s, n, s.sessions[n].(closed := true), s.kickers - {n});
    case Close(n) =>
      hide NoneEmpty, TableIsLive;
      FlagsKeep(s, n, s.sessions[n].(closed := true), s.kickers);
    case Remove(n) => RemoveKeeps(s, n);
    case Finish(n) => FinishKeeps(s, n);
  }

  // ----- What every run keeps

  predicate Possible(s: System, actions: seq<Action>)
    decreases actions
  {
    actions == [] || (Enabled(s, actions[0]) && Possible(Apply(s, actions[0]), actions[1..]))
  }

  function After(s: System, actions: seq<Action>): System
    requires Possible(s, actions)
    decreases actions
  {
    if actions == [] then s else After(Apply(s, actions[0]), actions[1..])
  }

  lemma {:induction false} RunKeeps(s: System, actions: seq<Action>)
    requires Inv(s) && Possible(s, actions)
    ensures Inv(After(s, actions))
    decreases actions
  {
    hide Inv, Apply, EnabledWithoutLock;
    if actions != [] {
      ActionKeeps(s, actions[0]);
      RunKeeps(Apply(s, actions[0]), actions[1..]);
    }
  }

  ghost predicate Reachable(s: System) {
    exists start: System, actions: seq<Action> ::
      Initial(start) && Possible(start, actions) && After(start, actions) == s
  }

  lemma ReachableInv(s: System)
    requires Reachable(s)
    ensures Inv(s)
  {
    hide Inv, Possible, After;
    var start: System, actions: seq<Action> :|
      Initial(start) && Possible(start, actions) && After(start, actions) == s;
    InitialInv(start);
    RunKeeps(start, actions);
  }

  /** An account and terminal never have two sessions that are stored and not yet removed, and
  the table holds every such session: none is ever evicted by the removal of another. */
  lemma OneLiveSession(s: System, n: nat)
    requires Reachable(s) && n < |s.sessions| && Live(s.sessions[n])
    ensures Lookup(s.online, s.sessions[n].account, s.sessions[n].terminal) == Some(n)
    ensures forall m: nat :: m < |s.sessions| && Live(s.sessions[m]) && m != n ==>
              s.sessions[m].account != s.sessions[n].account || s.sessions[m].terminal != s.sessions[n].terminal
  {
    hide Lookup, NoneEmpty, Reachable;
    ReachableInv(s);
  }

  /** A watcher removes its own session: the key that it deletes still leads there, and every
  other entry stays. */
  lemma RemovalIsOfItself(s: System, n: nat, a: AccountId, t: Terminal)
    requires Reachable(s) && Enabled(s, Remove(n))
    ensures var c := s.sessions[n];
            && Lookup(s.online, c.account, c.terminal) == Some(n)
            && Lookup(Apply(s, Remove(n)).online, a, t) ==
               if Lookup(s.online, a, t) == Some(n) then None else Lookup(s.online, a, t)
  {
    hide Lookup, NoneEmpty, Removed, Reachable;
    ReachableInv(s);
    RemovedLookup(s.online, s.sessions[n].account, s.sessions[n].terminal, a, t);
  }

  /** The done signal is closed only while it is open, and only after the entry has gone; a
  login that has been let through finds no entry for its account and terminal. */
  lemma DoneAfterRemoval(s: System, n: nat)
    requires Reachable(s) && n < |s.sessions|
    ensures Enabled(s, Finish(n)) ==> !s.sessions[n].done
    ensures Enabled(s, Finish(n)) || s.sessions[n].done ==>
              forall a: AccountId, t: Terminal :: Lookup(s.online, a, t) != Some(n)
  {
    hide Lookup, NoneEmpty, Reachable;
    ReachableInv(s);
    assert SessionFits(s, n);
  }

  lemma StoreFindsNoEntry(s: System, l: LoginId)
    requires Reachable(s) && Enabled(s, Store(l))
    ensures Lookup(s.online, l.account, s.logins[l].terminal) == None
  {
    hide Lookup, NoneEmpty, Reachable;
    ReachableInv(s);
    assert LoginFits(s, l, s.logins[l]);
  }

  /** `GetOnlineUserNumber` counts the accounts with a live session. */
  lemma OnlineCount(s: System)
    requires Reachable(s)
    ensures |s.online| == |set n: nat | n < |s.sessions| && Live(s.sessions[n]) :: s.sessions[n].account|
  {
    hide Reachable;
    ReachableInv(s);
    hide NoneEmpty;
    var live := set n: nat | n < |s.sessions| && Live(s.sessions[n]) :: s.sessions[n].account;
    forall a ensures a in s.online.Keys <==> a in live {
      hide Lookup;
      OnlineAccounts(s.online, a);
      if a in s.online {
        var t :| Lookup(s.online, a, t).Some?;
        assert EntryFits(s.sessions, a, t, Lookup(s.online, a, t).value);
      }
    }
    assert s.online.Keys == live;
  }

  /** No session is removed before its connection has been closed. */
  lemma RemovedIsClosed(s: System, n: nat)
    requires Reachable(s) && n < |s.sessions| && !Live(s.sessions[n])
    ensures s.sessions[n].closed
  {
    hide Reachable;
    ReachableInv(s);
    assert SessionFits(s, n);
  }

  // ----- No login waits in vain

  /** How many steps a session is away from its done signal. */
  function StepsToDone(c: Session): nat {
    (if c.closed then 0 else 1)
    + (match c.watcher case NotStarted => 3 case Waiting => 2 case HasRemoved => 1 case Finished => 0)
  }

  function NextStep(s: System, n: nat): Action
    requires n < |s.sessions|
  {
    if !s.sessions[n].closed then KickerCloses(n)
    else if s.sessions[n].watcher == Waiting then Remove(n)
    else Finish(n)
  }

  /** While a login waits for a done signal, a step that brings the signal closer can be taken,
  so that the three or fewer steps missing let the login through. */
  lemma WaitingLoginProgresses(s: System, l: LoginId)
    requires Reachable(s) && l in s.logins && s.logins[l].WaitingFor? && !Enabled(s, Proceed(l))
    ensures var v := s.logins[l].victim.value;
            && v < |s.sessions| && Enabled(s, NextStep(s, v))
            && StepsToDone(Apply(s, NextStep(s, v)).sessions[v]) < StepsToDone(s.sessions[v]) <= 3
  {
    hide Lookup, NoneEmpty, Reachable, Removed;
    ReachableInv(s);
    assert LoginFits(s, l, s.logins[l]);
    assert SessionFits(s, s.logins[l].victim.value);
  }

  /** No step takes a signal farther away. */
  lemma NoStepBack(s: System, a: Action, n: nat)
    requires Reachable(s) && n < |s.sessions| && Enabled(s, a)
    ensures n < |Apply(s, a).sessions| && StepsToDone(Apply(s, a).sessions[n]) <= StepsToDone(s.sessions[n])
  {
    hide Lookup, NoneEmpty, Reachable, Removed, Stored;
    ReachableInv(s);
    if a.Watch? {
      assert LoginFits(s, a.login, s.logins[a.login]);
    }
  }

  // ----- Why the lock is needed

  /** States that can be reached if the lock does not keep logins apart. */
  ghost predicate ReachableWithoutLock(s: System) {
    exists start: System, actions: seq<Action> :: Initial(start) && RunsWithoutLock(start, actions, s)
  }

  predicate RunsWithoutLock(start: System, actions: seq<Action>, s: System)
    decreases actions
  {
    if actions == [] then start == s
    else EnabledWithoutLock(start, actions[0]) && RunsWithoutLock(Apply(start, actions[0]), actions[1..], s)
  }

  lemma {:induction false} RunOn(start: System, actions: seq<Action>, s: System, a: Action)
    requires RunsWithoutLock(start, actions, s) && EnabledWithoutLock(s, a)
    ensures RunsWithoutLock(start, actions + [a], Apply(s, a))
    decreases actions
  {
    hide Apply, EnabledWithoutLock;
    var longer := actions + [a];
    if actions == [] {
      assert longer[1..] == [];
    } else {
      RunOn(Apply(start, actions[0]), actions[1..], s, a);
      assert longer[1..] == actions[1..] + [a];
    }
  }

  lemma StepWithoutLock(s: System, a: Action, s': System)
    requires ReachableWithoutLock(s) && EnabledWithoutLock(s, a) && Apply(s, a) == s'
    ensures ReachableWithoutLock(s')
  {
    hide Apply, EnabledWithoutLock, RunsWithoutLock;
    var start: System, actions: seq<Action> :| Initial(start) && RunsWithoutLock(start, actions, s);
    RunOn(start, actions, s, a);
  }

  const NOBODY := System([], map[], map[], {})

  lemma NobodyIsReachable()
    ensures ReachableWithoutLock(NOBODY)
  {
    assert RunsWithoutLock(NOBODY, [], NOBODY);
  }

  const FIRST := LoginId(7, 0)
  const SECOND := LoginId(7, 1)

  /** Two logins of account 7 on terminal 1, each at its own stage, before any session is stored. */
  function TwoLogins(first: Login, second: Login): System {
    System([], map[], map[FIRST := first, SECOND := second], {})
  }

  lemma BothReady()
    ensures ReachableWithoutLock(TwoLogins(Ready(1), Ready(1)))
  {
    hide ReachableWithoutLock;
    var one := System([], map[], map[FIRST := Locked(1)], {});
    var w := WaitingFor(1, None);
    NobodyIsReachable();
    StepWithoutLock(NOBODY, Lock(FIRST, 1), one);
    StepWithoutLock(one, Lock(SECOND, 1), TwoLogins(Locked(1), Locked(1)));
    StepWithoutLock(TwoLogins(Locked(1), Locked(1)), Kick(FIRST), TwoLogins(w, Locked(1)));
    StepWithoutLock(TwoLogins(w, Locked(1)), Kick(SECOND), TwoLogins(w, w));
    StepWithoutLock(TwoLogins(w, w), Proceed(FIRST), TwoLogins(Ready(1), w));
    StepWithoutLock(TwoLogins(Ready(1), w), Proceed(SECOND), TwoLogins(Ready(1), Ready(1)));
  }

  /** Two sessions of account 7 on terminal 1, the second one stored over the first. */
  function TwoSessions(first: Session, logins: map<LoginId, Login>, online: Online<nat>): System {
    System([first, Session(7, 1, SECOND, false, NotStarted, false)], online, logins, {})
  }

  lemma BothStored()
    ensures var new0 := Session(7, 1, FIRST, false, NotStarted, false);
            ReachableWithoutLock(
              TwoSessions(new0, map[FIRST := HasStored(0), SECOND := HasStored(1)], map[7 := map[1 := 1]]))
  {
    hide ReachableWithoutLock;
    BothReady();
    var new0 := Session(7, 1, FIRST, false, NotStarted, false);
    var s1 := System([new0], map[7 := map[1 := 0]], map[FIRST := HasStored(0), SECOND := Ready(1)], {});
    assert Stored(map[], 7, 1, 0) == map[7 := map[1 := 0]];
    StepWithoutLock(TwoLogins(Ready(1), Ready(1)), Store(FIRST), s1);
    var s2 := TwoSessions(new0, map[FIRST := HasStored(0), SECOND := HasStored(1)], map[7 := map[1 := 1]]);
    StoredOver();
    hide Stored;
    StepWithoutLock(s1, Store(SECOND), s2);
  }

  lemma StoredOver()
    ensures var m: Online<nat> := map[7 := map[1 := 0]]; Stored(m, 7, 1, 1) == map[7 := map[1 := 1]]
  {
    var m: Online<nat> := map[7 := map[1 := 0]];
    assert m[7][1 := 1] == map[1 := 1];
    assert m[7 := map[1 := 1]] == map[7 := map[1 := 1]];
  }

  /** Without the lock two logins can both find nobody to kick and both store; when the first
  session closes, its watcher evicts the second, which is live and no longer in the table. */
  lemma NoLockEvictsLiveSession()
    ensures exists s: System ::
              && ReachableWithoutLock(s) && |s.sessions| == 2 && Live(s.sessions[1])
              && Lookup(s.online, s.sessions[1].account, s.sessions[1].terminal) == None
  {
    hide ReachableWithoutLock;
    BothStored();
    var c := Session(7, 1, FIRST, false, NotStarted, false);
    var online: Online<nat> := map[7 := map[1 := 1]];
    var s2 := TwoSessions(c, map[FIRST := HasStored(0), SECOND := HasStored(1)], online);
    var logins := map[FIRST := HasWatched, SECOND := HasStored(1)];
    var s3 := TwoSessions(c.(watcher := Waiting), logins, online);
    StepWithoutLock(s2, Watch(FIRST), s3);
    var s4 := TwoSessions(c.(watcher := Waiting, closed := true), logins, online);
    StepWithoutLock(s3, Close(0), s4);
    var s5 := TwoSessions(c.(watcher := HasRemoved, closed := true), logins, map[]);
    assert Removed(online, 7, 1) == map[];
    StepWithoutLock(s4, Remove(0), s5);
  }
}
