/** Which ids the two generators hand out, as numbers: 41 bits of time in units of 2^20
nanoseconds, 10 bits of machine, and 12 bits of sequence that start at 0 in every new tick. */
module SnowflakeIds {
  import opened Snowflake
  import C = SnowflakeConcurrent

  lemma TickIsFloor(nanos: int, tick: int)
    ensures Tick(nanos) == tick <==> tick * 1_048_576 <= nanos < (tick + 1) * 1_048_576
  {
  }

  lemma IdLayout(tick: int, machine: MachineId, sn: int)
    ensures 0 <= tick < 2_199_023_255_552 ==> IdOf(tick, machine, sn) == tick * 4_194_304 + machine * 4096 + sn
    ensures IdOf(tick + 2_199_023_255_552, machine, sn) == IdOf(tick, machine, sn)
  {
  }

  // ----- Under the mutex

  /** In the tick of the last id a call counts on; in a later one it starts at 0; and with the
  sequence used up it starts at 0 in the tick that it reads after one sleep, or, if that is still
  the same, after two. */
  lemma IssuedId(s: State, r: Readings)
    requires s.Valid()
    ensures Tick(r.entry) < s.lastTimeStamp ==> Issued(s, r) == 0
    ensures Tick(r.entry) > s.lastTimeStamp ==> Issued(s, r) == IdOf(Tick(r.entry), s.machine, 0)
    ensures Tick(r.entry) == s.lastTimeStamp && s.sn < 4095 ==>
              Issued(s, r) == IdOf(s.lastTimeStamp, s.machine, s.sn + 1)
    ensures Tick(r.entry) == s.lastTimeStamp && s.sn == 4095 && Tick(r.afterOneSleep) != s.lastTimeStamp ==>
              Issued(s, r) == IdOf(Tick(r.afterOneSleep), s.machine, 0)
    ensures Tick(r.entry) == s.lastTimeStamp && s.sn == 4095 && Tick(r.afterOneSleep) == s.lastTimeStamp ==>
              Issued(s, r) == IdOf(Tick(r.afterTwoSleeps), s.machine, 0)
    ensures Issued(s, r) == 0 || Advance(s, r).Floor() == Issued(s, r)
  {
    hide IdOf, Tick;
  }

  /** The calls of a run that come in one new tick get the sequence numbers 0, 1, 2 and so on. */
  lemma NewTickCountsFromZero(s: State, tick: int, calls: seq<Readings>, k: nat)
    requires s.Valid() && s.lastTimeStamp < tick < TICKS && k < |calls| && k <= 4095
    requires forall j :: 0 <= j <= k ==> Tick(calls[j].entry) == tick
    ensures Ids(s, calls)[k] == tick * 4_194_304 + s.machine * 4096 + k
  {
    hide IdOf, Tick;
    var s1 := Advance(s, calls[0]);
    assert s1 == State(0, tick, s.machine);
    assert Issued(s, calls[0]) == IdOf(tick, s.machine, 0);
    IdLayout(tick, s.machine, k);
    if k > 0 { TickIsUsedUp(s1, calls[1..], k - 1); }
  }

  // ----- With compare and swap

  /** A thread computes the first id of a later tick, or the next one of the tick that it read, and
  sleeps exactly when the sequence of the loaded id is used up in a tick that is not past. */
  lemma ComputedId(l: int, now: int, machine: MachineId)
    requires 0 <= l && 0 <= now < TICKS
    ensures C.Decide(l, now, machine) == C.AtLoop <==> now <= l / 4_194_304 && l % 4096 == 4095
    ensures now > l / 4_194_304 ==> C.Decide(l, now, machine) == C.Computed(l, now * 4_194_304 + machine * 4096)
    ensures now <= l / 4_194_304 && l % 4096 < 4095 ==>
              C.Decide(l, now, machine) == C.Computed(l, now * 4_194_304 + machine * 4096 + l % 4096 + 1)
  {
    IdLayout(now, machine, 0);
    IdLayout(now, machine, l % 4096 + 1);
    hide IdOf;
  }

  /** The next id after l at that tick, unless l is the last of the tick. */
  function Following(l: int, now: int, machine: MachineId): int {
    if now > l / 4_194_304 then now * 4_194_304 + machine * 4096 else now * 4_194_304 + machine * 4096 + l % 4096 + 1
  }

  /** A thread that is at the loop and is not disturbed loads, reads the clock, computes, and swaps:
  it returns the following id of the present tick, unless the sequence of that tick is used up. */
  lemma UndisturbedCall(s: C.System, t: nat)
    requires C.Inv(s) && s.At(t) == C.AtLoop
    ensures var run := [C.Load(t), C.ReadClock(t), C.Compute(t), C.CompareAndSwap(t)];
            var usedUp := Tick(s.clock) == s.lastId / 4_194_304 && s.lastId % 4096 == 4095;
            && C.Possible(s, run[..3]) && (C.Possible(s, run) <==> !usedUp)
            && (!usedUp ==>
                  && C.After(s, run).returned == s.returned + [Following(s.lastId, Tick(s.clock), s.machine)]
                  && C.After(s, run).lastId == Following(s.lastId, Tick(s.clock), s.machine)
                  && C.After(s, run).clock == s.clock && C.After(s, run).At(t) == C.AtLoop)
  {
    hide Tick, C.Decide, C.Inv, Following;
    InvTells(s);
    var l, now := s.lastId, Tick(s.clock);
    ComputedId(l, now, s.machine);
    assert now % TICKS == now;
    var s1 := C.Apply(s, C.Load(t));
    var s2 := C.Apply(s1, C.ReadClock(t));
    var s3 := C.Apply(s2, C.Compute(t));
    assert s2.At(t) == C.Timed(l, now);
    assert s3.At(t) == C.Decide(l, now, s.machine);
    var run := [C.Load(t), C.ReadClock(t), C.Compute(t), C.CompareAndSwap(t)];
    assert run[..3] == [C.Load(t), C.ReadClock(t), C.Compute(t)];
    PossibleFour(s, t);
    if s3.At(t).Computed? { FollowingIs(l, now, s.machine); }
  }

  lemma FollowingIs(l: int, now: int, machine: MachineId)
    requires 0 <= l && 0 <= now < TICKS && C.Decide(l, now, machine).Computed?
    ensures C.Decide(l, now, machine) == C.Computed(l, Following(l, now, machine))
  {
    ComputedId(l, now, machine);
    hide C.Decide;
  }

  lemma InvTells(s: C.System)
    requires C.Inv(s)
    ensures 0 <= Tick(s.clock) < TICKS && 0 <= s.lastId && s.lastId / 4_194_304 <= Tick(s.clock)
  {
  }

  /** The four steps, one after the other. */
  lemma PossibleFour(s: C.System, t: nat)
    requires s.At(t) == C.AtLoop
    ensures var s3 := C.Apply(C.Apply(C.Apply(s, C.Load(t)), C.ReadClock(t)), C.Compute(t));
            var run := [C.Load(t), C.ReadClock(t), C.Compute(t), C.CompareAndSwap(t)];
            && C.Possible(s, run[..3]) && (C.Possible(s, run) <==> s3.At(t).Computed?)
            && (s3.At(t).Computed? ==> C.After(s, run) == C.Swap(s3, t))
  {
    hide Tick, C.Decide, C.Swap;
    var run := [C.Load(t), C.ReadClock(t), C.Compute(t), C.CompareAndSwap(t)];
    var s1 := C.Apply(s, C.Load(t));
    var s2 := C.Apply(s1, C.ReadClock(t));
    var s3 := C.Apply(s2, C.Compute(t));
    assert run[1..] == [C.ReadClock(t), C.Compute(t), C.CompareAndSwap(t)];
    assert run[1..][1..] == [C.Compute(t), C.CompareAndSwap(t)];
    assert run[1..][1..][1..] == [C.CompareAndSwap(t)];
    assert run[1..][1..][1..][1..] == [];
    var three := run[..3];
    assert three[1..] == [C.ReadClock(t), C.Compute(t)];
    assert three[1..][1..] == [C.Compute(t)];
    assert three[1..][1..][1..] == [];
    assert C.Possible(s3, []);
    assert C.Possible(s2, [C.Compute(t)]);
    assert C.Possible(s1, [C.ReadClock(t), C.Compute(t)]);
    assert C.Possible(s3, [C.CompareAndSwap(t)]) <==> s3.At(t).Computed? by {
      if s3.At(t).Computed? { assert C.Possible(C.Swap(s3, t), []); }
    }
    assert C.Possible(s2, run[1..][1..]) <==> s3.At(t).Computed?;
    assert C.Possible(s1, run[1..]) <==> s3.At(t).Computed?;
    if s3.At(t).Computed? {
      assert C.After(C.Swap(s3, t), []) == C.Swap(s3, t);
      assert C.After(s3, [C.CompareAndSwap(t)]) == C.Swap(s3, t);
      assert C.After(s2, run[1..][1..]) == C.Swap(s3, t);
      assert C.After(s1, run[1..]) == C.Swap(s3, t);
    }
  }

  /** Time can pass as long as the 41 bits last, and does so for all threads alike. */
  lemma ClockMovesOn(s: C.System, n: nat)
    requires Tick(s.clock + n) < 2_199_023_255_552
    ensures C.Enabled(s, C.Elapse(n))
    ensures C.Apply(s, C.Elapse(n)).clock == s.clock + n && C.Apply(s, C.Elapse(n)).threads == s.threads
    ensures C.Apply(s, C.Elapse(n)).lastId == s.lastId && C.Apply(s, C.Elapse(n)).returned == s.returned
  {
  }

  // ----- What every returned id tells

  predicate ThreadTells(s: C.System, th: C.Thread) {
    match th
    case AtLoop => true
    case Loaded(l) => 0 <= l
    case Timed(l, now) => 0 <= l && 0 <= now <= Tick(s.clock)
    case Computed(l, n) => Tells(n, s.machine, Tick(s.clock))
  }

  ghost predicate AllTell(s: C.System) {
    && 0 <= s.lastId && 0 <= Tick(s.clock) < TICKS
    && (forall id :: id in s.returned ==> Tells(id, s.machine, Tick(s.clock)))
    && (forall t: nat :: ThreadTells(s, s.At(t)))
  }

  /** The id names the machine, and a tick up to the present one. */
  predicate Tells(id: int, machine: MachineId, tick: int) {
    id / 4096 % 1024 == machine && 0 <= id / 4_194_304 <= tick
  }

  lemma LayoutTells(tick: int, machine: MachineId, x: int)
    requires 0 <= tick && 0 <= x < 4096
    ensures Tells(tick * 4_194_304 + machine * 4096 + x, machine, tick)
  {
    var q := tick * 1024 + machine;
    var id := tick * 4_194_304 + machine * 4096 + x;
    assert id == q * 4096 + x;
    assert id / 4096 == q by { QuotientOf4096(q, x); }
    assert q % 1024 == machine && q / 1024 == tick by { QuotientOf1024(tick, machine); }
    assert id / 4_194_304 == tick by { QuotientOf4194304(tick, machine * 4096 + x); }
  }

  lemma QuotientOf4096(q: int, x: int)
    requires 0 <= x < 4096
    ensures (q * 4096 + x) / 4096 == q
  {
  }

  lemma QuotientOf1024(q: int, x: int)
    requires 0 <= x < 1024
    ensures (q * 1024 + x) / 1024 == q && (q * 1024 + x) % 1024 == x
  {
  }

  lemma QuotientOf4194304(q: int, x: int)
    requires 0 <= x < 4_194_304
    ensures (q * 4_194_304 + x) / 4_194_304 == q
  {
  }

  lemma ComputedTells(l: int, now: int, machine: MachineId)
    requires 0 <= l && 0 <= now < TICKS && C.Decide(l, now, machine).Computed?
    ensures Tells(C.Decide(l, now, machine).newId, machine, now)
  {
    ComputedId(l, now, machine);
    hide C.Decide, Tells;
    LayoutTells(now, machine, 0);
    if l % 4096 < 4095 { LayoutTells(now, machine, l % 4096 + 1); }
  }

  lemma MoveTells(s: C.System, t: nat, th: C.Thread)
    requires AllTell(s) && ThreadTells(s, th)
    ensures AllTell(s.Move(t, th))
  {
    hide Tells, Tick;
    var s' := s.Move(t, th);
    forall u: nat ensures ThreadTells(s', s'.At(u)) {
      assert ThreadTells(s, s.At(u));
    }
  }

  lemma TellsLater(id: int, machine: MachineId, tick: int, later: int)
    requires Tells(id, machine, tick) && tick <= later
    ensures Tells(id, machine, later)
  {
  }

  lemma ElapseTells(s: C.System, n: nat)
    requires AllTell(s) && C.Enabled(s, C.Elapse(n))
    ensures AllTell(C.Apply(s, C.Elapse(n)))
  {
    var s' := C.Apply(s, C.Elapse(n));
    TicksOrdered(s.clock, s'.clock);
    hide Tells, Tick;
    forall id | id in s'.returned ensures Tells(id, s'.machine, Tick(s'.clock)) {
      TellsLater(id, s.machine, Tick(s.clock), Tick(s'.clock));
    }
    forall u: nat ensures ThreadTells(s', s'.At(u)) {
      assert ThreadTells(s, s.At(u));
      if s.At(u).Computed? { TellsLater(s.At(u).newId, s.machine, Tick(s.clock), Tick(s'.clock)); }
    }
  }

  lemma ComputeTells(s: C.System, t: nat)
    requires AllTell(s) && s.At(t).Timed?
    ensures ThreadTells(s, C.Decide(s.At(t).localLastId, s.At(t).now, s.machine))
  {
    hide Tells, Tick, C.Decide;
    assert ThreadTells(s, s.At(t));
    var l, now := s.At(t).localLastId, s.At(t).now;
    var th := C.Decide(l, now, s.machine);
    DecideShape(l, now, s.machine);
    if th.Computed? {
      ComputedTells(l, now, s.machine);
      TellsLater(th.newId, s.machine, now, Tick(s.clock));
    }
  }

  lemma DecideShape(l: int, now: int, machine: MachineId)
    ensures C.Decide(l, now, machine).AtLoop? || C.Decide(l, now, machine).Computed?
  {
    hide IdOf;
  }

  lemma SwapTells(s: C.System, t: nat)
    requires C.Inv(s) && AllTell(s) && s.At(t).Computed?
    ensures AllTell(C.Swap(s, t))
  {
    C.SwapKeeps(s, t);
    InvTells(C.Swap(s, t));
    hide Tells, Tick, C.Inv;
    assert ThreadTells(s, s.At(t));
    var s' := C.Swap(s, t);
    forall u: nat ensures ThreadTells(s', s'.At(u)) {
      assert ThreadTells(s, s.At(u));
    }
  }

  lemma ActionTells(s: C.System, a: C.Action)
    requires C.Inv(s) && AllTell(s) && C.Enabled(s, a)
    ensures AllTell(C.Apply(s, a))
  {
    InvTells(s);
    assert Tick(s.clock) % TICKS == Tick(s.clock);
    hide Tells, Tick, C.Inv, C.Decide, C.Swap;
    match a
    case Elapse(n) => ElapseTells(s, n);
    case Load(t) => MoveTells(s, t, C.Loaded(s.lastId));
    case ReadClock(t) =>
      assert ThreadTells(s, s.At(t));
      MoveTells(s, t, C.Timed(s.At(t).localLastId, Tick(s.clock) % TICKS));
    case Compute(t) =>
      ComputeTells(s, t);
      MoveTells(s, t, C.Decide(s.At(t).localLastId, s.At(t).now, s.machine));
    case CompareAndSwap(t) => SwapTells(s, t);
  }

  lemma TicksOrdered(a: int, b: int)
    requires a <= b
    ensures Tick(a) <= Tick(b)
  {
  }

  lemma {:induction false} RunTells(s: C.System, actions: seq<C.Action>)
    requires C.Inv(s) && AllTell(s) && C.Possible(s, actions)
    ensures AllTell(C.After(s, actions)) && C.After(s, actions).machine == s.machine
    decreases actions
  {
    if actions != [] {
      C.ActionKeeps(s, actions[0]);
      ActionTells(s, actions[0]);
      assert C.Apply(s, actions[0]).machine == s.machine;
      hide C.Inv, C.Apply, C.Enabled, AllTell;
      RunTells(C.Apply(s, actions[0]), actions[1..]);
    }
  }

  /** Every id that is ever returned names the machine, and a tick that had come by then. */
  lemma ReturnedIdsTell(s: C.System, actions: seq<C.Action>, id: int)
    requires C.Initial(s) && C.Possible(s, actions) && id in C.After(s, actions).returned
    ensures id / 4096 % 1024 == s.machine && 0 <= id / 4_194_304 <= Tick(C.After(s, actions).clock)
  {
    C.InitialInv(s);
    assert AllTell(s);
    hide Tick, C.Inv, C.After, C.Possible;
    RunTells(s, actions);
  }
}
