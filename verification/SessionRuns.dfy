/** That logins come to their end: whatever has happened before, a login can be completed, replaces
the session that it finds, and gives the lock back. */
module SessionRuns {
  import opened Options
  import opened ClientManager
  import opened Sessions

  // ----- Runs, action by action

  lemma {:induction false} RunGoesOn(s: System, run: seq<Action>, a: Action)
    requires Possible(s, run) && Enabled(After(s, run), a)
    ensures Possible(s, run + [a]) && After(s, run + [a]) == Apply(After(s, run), a)
    decreases run
  {
    hide Apply, EnabledWithoutLock, LockIsFree;
    var longer := run + [a];
    if run == [] {
      assert longer[1..] == [];
      assert After(Apply(s, a), []) == Apply(s, a);
    } else {
      RunGoesOn(Apply(s, run[0]), run[1..], a);
      assert longer[1..] == run[1..] + [a];
    }
  }

  lemma {:induction false} RunsJoin(s: System, run: seq<Action>, next: seq<Action>)
    requires Possible(s, run) && Possible(After(s, run), next)
    ensures Possible(s, run + next) && After(s, run + next) == After(After(s, run), next)
    decreases run
  {
    hide Apply, EnabledWithoutLock, LockIsFree;
    if run == [] {
      assert run + next == next;
    } else {
      RunsJoin(Apply(s, run[0]), run[1..], next);
      assert (run + next)[1..] == run[1..] + next;
    }
  }

  lemma RunStaysReachable(s: System, run: seq<Action>)
    requires Reachable(s) && Possible(s, run)
    ensures Reachable(After(s, run))
  {
    hide Possible, After;
    var start: System, actions: seq<Action> :|
      Initial(start) && Possible(start, actions) && After(start, actions) == s;
    RunsJoin(start, actions, run);
  }

  lemma OneAction(s: System, a: Action)
    requires Enabled(s, a)
    ensures Possible(s, [a]) && After(s, [a]) == Apply(s, a)
  {
    hide Apply, EnabledWithoutLock, LockIsFree;
    assert [a][1..] == [];
    assert Possible(Apply(s, a), []) && After(Apply(s, a), []) == Apply(s, a);
  }

  lemma FirstThen(s: System, a: Action, run: seq<Action>)
    requires Enabled(s, a) && Possible(Apply(s, a), run)
    ensures Possible(s, [a] + run) && After(s, [a] + run) == After(Apply(s, a), run)
  {
    hide Apply, EnabledWithoutLock, LockIsFree;
    OneAction(s, a);
    RunsJoin(s, [a], run);
  }

  /** A session keeps its place, its names, and its done signal. */
  lemma {:induction false} SessionStays(s: System, run: seq<Action>, n: nat)
    requires Possible(s, run) && n < |s.sessions|
    ensures n < |After(s, run).sessions|
    ensures var c, d := s.sessions[n], After(s, run).sessions[n];
            d.account == c.account && d.terminal == c.terminal && d.login == c.login && (c.done ==> d.done)
    decreases run
  {
    hide Lookup, Stored, Removed, LockIsFree;
    if run != [] { SessionStays(Apply(s, run[0]), run[1..], n); }
  }

  // ----- The lock

  /** The end of a login frees the lock of its account. */
  lemma UnlockFreesLock(s: System, l: LoginId)
    requires Reachable(s) && Enabled(s, Unlock(l))
    ensures LockIsFree(Apply(s, Unlock(l)), l.account)
    ensures forall m :: m != l ==> (m in s.logins <==> m in Apply(s, Unlock(l)).logins)
  {
    hide Reachable;
    ReachableInv(s);
  }

  /** A login holds the lock of its account, and of no other. */
  lemma LockIsTaken(s: System, l: LoginId, t: Terminal, acc: AccountId)
    requires Enabled(s, Lock(l, t))
    ensures LockIsFree(Apply(s, Lock(l, t)), acc) <==> acc != l.account && LockIsFree(s, acc)
  {
    var s' := Apply(s, Lock(l, t));
    assert l in s'.logins;
    assert forall m :: m in s'.logins <==> m == l || m in s.logins;
  }

  // ----- From each stage to the end

  /** The login has ended, its lock is free, and its session number n is stored, watched and found. */
  ghost predicate Completed(s: System, l: LoginId, t: Terminal, n: nat) {
    && l !in s.logins && LockIsFree(s, l.account)
    && n < |s.sessions| && s.sessions[n].account == l.account && s.sessions[n].terminal == t
    && s.sessions[n].login == l && s.sessions[n].watcher == Waiting && !s.sessions[n].done
    && Lookup(s.online, l.account, t) == Some(n)
  }

  lemma EndWatched(s: System, l: LoginId) returns (run: seq<Action>)
    requires Reachable(s) && l in s.logins && s.logins[l] == HasWatched
    ensures Possible(s, run) && After(s, run) == s.(logins := s.logins - {l}) && LockIsFree(After(s, run), l.account)
  {
    hide Reachable;
    run := [Unlock(l)];
    OneAction(s, Unlock(l));
    UnlockFreesLock(s, l);
  }

  lemma EndStored(s: System, l: LoginId, n: nat) returns (run: seq<Action>)
    requires Reachable(s) && l in s.logins && s.logins[l] == HasStored(n)
    ensures n < |s.sessions| && Possible(s, run) && Completed(After(s, run), l, s.sessions[n].terminal, n)
    ensures |After(s, run).sessions| == |s.sessions| && After(s, run).sessions[n].closed == s.sessions[n].closed
    ensures forall m: nat :: m < |s.sessions| && m != n ==> After(s, run).sessions[m] == s.sessions[m]
  {
    hide Reachable, Lookup, NoneEmpty;
    ReachableInv(s);
    assert LoginFits(s, l, s.logins[l]);
    assert SessionFits(s, n);
    var s' := Apply(s, Watch(l));
    OneAction(s, Watch(l));
    RunStaysReachable(s, [Watch(l)]);
    var rest := EndWatched(s', l);
    run := [Watch(l)] + rest;
    FirstThen(s, Watch(l), rest);
  }

  lemma EndReady(s: System, l: LoginId) returns (run: seq<Action>)
    requires Reachable(s) && l in s.logins && s.logins[l].Ready?
    ensures Possible(s, run) && Completed(After(s, run), l, s.logins[l].terminal, |s.sessions|)
    ensures |After(s, run).sessions| == |s.sessions| + 1 && !After(s, run).sessions[|s.sessions|].closed
    ensures forall m: nat :: m < |s.sessions| ==> After(s, run).sessions[m] == s.sessions[m]
  {
    hide Reachable, Lookup, NoneEmpty, Stored;
    var s' := Apply(s, Store(l));
    OneAction(s, Store(l));
    RunStaysReachable(s, [Store(l)]);
    var rest := EndStored(s', l, |s.sessions|);
    run := [Store(l)] + rest;
    FirstThen(s, Store(l), rest);
  }

  /** The victim of a waiting login can be brought to its done signal. */
  lemma {:induction false} EndWaiting(s: System, l: LoginId) returns (run: seq<Action>)
    requires Reachable(s) && l in s.logins && s.logins[l].WaitingFor?
    ensures Possible(s, run) && Completed(After(s, run), l, s.logins[l].terminal, |s.sessions|)
    ensures |After(s, run).sessions| == |s.sessions| + 1 && !After(s, run).sessions[|s.sessions|].closed
    ensures s.logins[l].victim.Some? ==>
              var v := s.logins[l].victim.value; v < |s.sessions| && After(s, run).sessions[v].done
    decreases match s.logins[l].victim
              case None => 0
              case Some(v) => if v < |s.sessions| then StepsToDone(s.sessions[v]) else 0
  {
    hide Reachable, Lookup, NoneEmpty, Removed, Completed;
    if Enabled(s, Proceed(l)) {
      var s' := Apply(s, Proceed(l));
      OneAction(s, Proceed(l));
      RunStaysReachable(s, [Proceed(l)]);
      var rest := EndReady(s', l);
      run := [Proceed(l)] + rest;
      FirstThen(s, Proceed(l), rest);
    } else {
      WaitingLoginProgresses(s, l);
      var v := s.logins[l].victim.value;
      var a := NextStep(s, v);
      var s' := Apply(s, a);
      assert s'.logins == s.logins && |s'.sessions| == |s.sessions|;
      OneAction(s, a);
      RunStaysReachable(s, [a]);
      var rest := EndWaiting(s', l);
      run := [a] + rest;
      FirstThen(s, a, rest);
    }
  }

  /** From every reachable state in which a login has kicked a victim, or found nobody to kick, some
  run lets it end: the victim is done, and the new session is in its place. */
  lemma KickedLoginCompletes(s: System, l: LoginId) returns (run: seq<Action>)
    requires Reachable(s) && l in s.logins && s.logins[l].WaitingFor?
    ensures Possible(s, run) && |After(s, run).sessions| == |s.sessions| + 1
    ensures Completed(After(s, run), l, s.logins[l].terminal, |s.sessions|)
    ensures s.logins[l].victim.Some? ==>
              var v := s.logins[l].victim.value; v < |s.sessions| && After(s, run).sessions[v].done
  {
    run := EndWaiting(s, l);
  }

  /** From every reachable state in which the lock of an account is free, some run logs it in on any
  terminal.  The session that the table held there is kicked and done; the new one takes its place
  and is live; and the lock is free again. */
  lemma LoginCanComplete(s: System, l: LoginId, t: Terminal) returns (run: seq<Action>)
    requires Reachable(s) && LockIsFree(s, l.account)
    ensures Possible(s, run)
    ensures var s' := After(s, run); var n: nat := |s.sessions|;
            && Reachable(s') && |s'.sessions| == n + 1 && LockIsFree(s', l.account)
            && s'.sessions[n].login == l && s'.sessions[n].account == l.account && s'.sessions[n].terminal == t
            && Live(s'.sessions[n]) && !s'.sessions[n].closed && Lookup(s'.online, l.account, t) == Some(n)
    ensures var before: Option<nat> := Lookup(s.online, l.account, t);
            before.Some? ==> before.value < |s.sessions| && After(s, run).sessions[before.value].done
  {
    hide Reachable, Lookup, NoneEmpty;
    ReachableInv(s);
    var s1 := Apply(s, Lock(l, t));
    OneAction(s, Lock(l, t));
    RunStaysReachable(s, [Lock(l, t)]);
    var s2 := Apply(s1, Kick(l));
    OneAction(s1, Kick(l));
    RunStaysReachable(s1, [Kick(l)]);
    assert s2.logins[l] == WaitingFor(t, Lookup(s.online, l.account, t)) && |s2.sessions| == |s.sessions|;
    var rest := EndWaiting(s2, l);
    var before: Option<nat> := Lookup(s.online, l.account, t);
    assert s2.logins[l].victim == before;
    if before.Some? {
      assert before.value < |s2.sessions|;
      assert After(s2, rest).sessions[before.value].done;
    }
    FirstThen(s1, Kick(l), rest);
    FirstThen(s, Lock(l, t), [Kick(l)] + rest);
    run := [Lock(l, t)] + ([Kick(l)] + rest);
    assert After(s, run) == After(s2, rest);
    RunStaysReachable(s, run);
  }

  /** A session of account 7 on terminal 1 is replaced by a second login. */
  lemma ReplacementHappens()
    ensures exists s: System ::
              && Reachable(s) && |s.sessions| == 2 && LockIsFree(s, 7)
              && s.sessions[0].login == FIRST && s.sessions[0].terminal == 1
              && s.sessions[0].done && s.sessions[0].closed
              && s.sessions[1].login == SECOND && s.sessions[1].terminal == 1 && Live(s.sessions[1])
              && Lookup(s.online, 7, 1) == Some(1)
  {
    hide Reachable, Lookup;
    StartReachable();
    var run1 := LoginCanComplete(NOBODY, FIRST, 1);
    var s1 := After(NOBODY, run1);
    var run2 := LoginCanComplete(s1, SECOND, 1);
    var s2 := After(s1, run2);
    SessionStays(s1, run2, 0);
    ReachableInv(s2);
    assert SessionFits(s2, 0);
    assert |s1.sessions| == 1 && Lookup(s1.online, 7, 1) == Some(0);
    assert s2.sessions[0].done && s2.sessions[0].closed;
    assert Reachable(s2) && |s2.sessions| == 2;
  }

  lemma StartReachable()
    ensures Reachable(NOBODY)
  {
    assert Possible(NOBODY, []) && After(NOBODY, []) == NOBODY && Initial(NOBODY);
  }
}
