/** `getSnowflakeIdConcurrent`: the generator without a lock, as threads that interleave.  A
thread loads the last id, reads the clock, works out a new id and tries to swap it in. */
module SnowflakeConcurrent {
  import opened Snowflake

  /** Where a thread stands in the loop, with its local variables. */
  datatype Thread =
    | AtLoop
    | Loaded(localLastId: int)
    | Timed(localLastId: int, now: int)
    | Computed(localLastId: int, newId: int)

  /** `returned` lists the results of all threads in the order of their swaps. */
  datatype System = System(
    lastId: int, clock: int, machine: MachineId, threads: map<nat, Thread>, returned: seq<int>)
  {
    function At(t: nat): Thread { if t in threads then threads[t] else AtLoop }

    function Move(t: nat, thread: Thread): System { this.(threads := threads[t := thread]) }
  }

  datatype Action =
    | Elapse(nanos: nat)
    | Load(thread: nat)
    | ReadClock(thread: nat)
    | Compute(thread: nat)
    | CompareAndSwap(thread: nat)

  predicate Enabled(s: System, a: Action) {
    match a
    case Elapse(n) => Tick(s.clock + n) < TICKS
    case Load(t) => s.At(t).AtLoop?
    case ReadClock(t) => s.At(t).Loaded?
    case Compute(t) => s.At(t).Timed?
    case CompareAndSwap(t) => s.At(t).Computed?
  }

  /** The branches between the clock and the swap; a thread that sleeps starts over. */
  function Decide(localLastId: int, now: int, machine: MachineId): Thread {
    var seqNo := SeqFromId(localLastId);
    if now > TimeFromId(localLastId) then Computed(localLastId, IdOf(now, machine, 0))
    else if seqNo >= 4095 then AtLoop
    else Computed(localLastId, IdOf(now, machine, seqNo + 1))
  }

  function Swap(s: System, t: nat): System
    requires s.At(t).Computed?
  {
    var th := s.At(t);
    if s.lastId == th.localLastId then
      s.Move(t, AtLoop).(lastId := th.newId, returned := s.returned + [th.newId])
    else s.Move(t, AtLoop)
  }

  function Apply(s: System, a: Action): System
    requires Enabled(s, a)
  {
    match a
    case Elapse(n) => s.(clock := s.clock + n)
    case Load(t) => s.Move(t, Loaded(s.lastId))
    case ReadClock(t) => s.Move(t, Timed(s.At(t).localLastId, Tick(s.clock) % TICKS))
    case Compute(t) => s.Move(t, Decide(s.At(t).localLastId, s.At(t).now, s.machine))
    case CompareAndSwap(t) => Swap(s, t)
  }

  predicate Initial(s: System) {
    s.lastId == 0 && 0 <= Tick(s.clock) < TICKS && s.threads == map[] && s.returned == []
  }

  // ----- The invariant

  /** An id that was made at or before the present tick, by this machine; or 0. */
  predicate Past(s: System, id: int) {
    0 <= id && TimeFromId(id) <= Tick(s.clock) && MachineFromId(id) <= s.machine
  }

  predicate ThreadFits(s: System, th: Thread) {
    match th
    case AtLoop => true
    case Loaded(l) => Past(s, l) && l <= s.lastId
    case Timed(l, now) => Past(s, l) && l <= s.lastId && TimeFromId(l) <= now <= Tick(s.clock)
    case Computed(l, n) => 0 <= l <= s.lastId && Past(s, n) && l < n
  }

  predicate Increasing(ids: seq<int>) {
    forall j, k :: 0 <= j < k < |ids| ==> ids[j] < ids[k]
  }

  ghost predicate Inv(s: System) {
    && 0 <= Tick(s.clock) < TICKS && Past(s, s.lastId)
    && (forall t: nat :: t in s.threads ==> ThreadFits(s, s.threads[t]))
    && Increasing(s.returned)
    && (forall id :: id in s.returned ==> 0 < id <= s.lastId)
    && (if s.returned == [] then s.lastId == 0 else s.returned[|s.returned| - 1] == s.lastId)
  }

  lemma IdParts(id: int)
    requires 0 <= id
    ensures id == TimeFromId(id) * 0x40_0000 + MachineFromId(id) * 0x1000 + SeqFromId(id)
    ensures 0 <= MachineFromId(id) < 1024 && 0 <= SeqFromId(id) < 0x1000 && 0 <= TimeFromId(id)
  {
    var q := id / 0x1000;
    assert q / 1024 == id / 0x40_0000;
  }

  /** What makes the swap safe: unless it goes to sleep, a thread computes an id above the one
  it loaded exactly when the clock it read is not behind that id's time. */
  lemma ComputedIdIsGreaterIff(l: int, now: int, machine: MachineId)
    requires 0 <= l && 0 <= now < TICKS && MachineFromId(l) <= machine
    requires Decide(l, now, machine).Computed?
    ensures l < Decide(l, now, machine).newId <==> TimeFromId(l) <= now
  {
    IdParts(l);
  }

  lemma ComputedIdIsPast(l: int, now: int, s: System)
    requires 0 <= l && 0 <= now <= Tick(s.clock) < TICKS
    requires Decide(l, now, s.machine).Computed?
    ensures Past(s, Decide(l, now, s.machine).newId)
  {
    IdDecodes(now, s.machine, 0);
    var seqNo := SeqFromId(l);
    if seqNo < 4095 { IdDecodes(now, s.machine, seqNo + 1); }
  }

  lemma InitialInv(s: System)
    requires Initial(s)
    ensures Inv(s)
  {
  }

  lemma MoveKeeps(s: System, t: nat, th: Thread)
    requires Inv(s) && ThreadFits(s, th)
    ensures Inv(s.Move(t, th))
  {
    hide TimeFromId, MachineFromId, Tick;
    var s' := s.Move(t, th);
    assert ThreadFits(s', th);
    forall u: nat | u in s'.threads ensures ThreadFits(s', s'.threads[u]) {
      if u != t { assert ThreadFits(s, s.threads[u]); }
    }
  }

  lemma ElapseKeeps(s: System, n: nat)
    requires Inv(s) && Enabled(s, Elapse(n))
    ensures Inv(Apply(s, Elapse(n)))
  {
    hide TimeFromId, MachineFromId;
    var s' := Apply(s, Elapse(n));
    assert Tick(s.clock) <= Tick(s'.clock);
    hide Tick;
    forall u: nat | u in s'.threads ensures ThreadFits(s', s'.threads[u]) {
      assert ThreadFits(s, s.threads[u]);
    }
  }

  lemma SwapKeeps(s: System, t: nat)
    requires Inv(s) && s.At(t).Computed?
    ensures Inv(Swap(s, t)) && s.lastId <= Swap(s, t).lastId
    ensures Swap(s, t).returned == s.returned || Swap(s, t).returned == s.returned + [Swap(s, t).lastId]
    ensures Swap(s, t).returned == s.returned ==> exists id :: id in s.returned && s.At(t).localLastId < id
  {
    hide TimeFromId, MachineFromId, Tick;
    var th := s.At(t);
    assert ThreadFits(s, th);
    var s' := Swap(s, t);
    forall u: nat | u in s'.threads ensures ThreadFits(s', s'.threads[u]) {
      if u != t { assert ThreadFits(s, s.threads[u]); }
    }
    if s.lastId != th.localLastId {
      assert s.returned[|s.returned| - 1] in s.returned;
    }
  }

  lemma ComputeKeeps(s: System, t: nat)
    requires Inv(s) && s.At(t).Timed?
    ensures Inv(Apply(s, Compute(t)))
  {
    var l, now := s.At(t).localLastId, s.At(t).now;
    assert ThreadFits(s, s.At(t));
    IdParts(l);
    hide TimeFromId, MachineFromId, SeqFromId, IdOf, Tick;
    var th := Decide(l, now, s.machine);
    if th.Computed? {
      ComputedIdIsGreaterIff(l, now, s.machine);
      ComputedIdIsPast(l, now, s);
    }
    MoveKeeps(s, t, th);
  }

  /** Every action keeps the invariant, and no action lowers the last id. */
  lemma ActionKeeps(s: System, a: Action)
    requires Inv(s) && Enabled(s, a)
    ensures Inv(Apply(s, a)) && s.lastId <= Apply(s, a).lastId
    ensures s.returned <= Apply(s, a).returned
  {
    hide TimeFromId, MachineFromId, SeqFromId, IdOf, Tick, Decide;
    match a
    case Elapse(n) => ElapseKeeps(s, n);
    case Load(t) => MoveKeeps(s, t, Loaded(s.lastId));
    case ReadClock(t) =>
      assert ThreadFits(s, s.At(t));
      assert Tick(s.clock) % TICKS == Tick(s.clock);
      MoveKeeps(s, t, Timed(s.At(t).localLastId, Tick(s.clock) % TICKS));
    case Compute(t) => ComputeKeeps(s, t);
    case CompareAndSwap(t) => SwapKeeps(s, t);
  }

  // ----- Runs

  /** The actions can happen in this order. */
  predicate Possible(s: System, actions: seq<Action>)
    decreases actions
  {
    actions == [] || (Enabled(s, actions[0]) && Possible(Apply(s, actions[0]), actions[1..]))
  }

  function After(s: System, actions: seq<Action>): System
    requires Possible(s, actions)
    decreases actions
  {
    if actions == [] then s else After(Apply(s, actions[0]), actions[1..])
  }

  lemma {:induction false} RunKeeps(s: System, actions: seq<Action>)
    requires Inv(s) && Possible(s, actions)
    ensures Inv(After(s, actions)) && s.lastId <= After(s, actions).lastId
    ensures s.returned <= After(s, actions).returned
    decreases actions
  {
    hide Inv, Apply, Enabled;
    if actions != [] {
      ActionKeeps(s, actions[0]);
      RunKeeps(Apply(s, actions[0]), actions[1..]);
    }
  }

  /** In every interleaving of any number of threads the returned ids increase in the order of
  the swaps, so that no two of them are equal, and the last of them is the shared last id. */
  lemma ReturnedIdsIncrease(s: System, actions: seq<Action>, j: nat, k: nat)
    requires Initial(s) && Possible(s, actions)
    requires j < k < |After(s, actions).returned|
    ensures var s' := After(s, actions);
            0 < s'.returned[j] < s'.returned[k] <= s'.lastId
  {
    hide Apply, Enabled, After, Possible, ThreadFits, Past, Tick;
    InitialInv(s);
    RunKeeps(s, actions);
    var s' := After(s, actions);
    assert s'.returned[j] in s'.returned && s'.returned[k] in s'.returned;
  }

  /** A thread fails to swap only if some thread succeeded after it loaded. */
  lemma FailedSwapMeansProgress(s: System, actions: seq<Action>, t: nat)
    requires Initial(s) && Possible(s, actions) && After(s, actions).At(t).Computed?
    requires Swap(After(s, actions), t).returned == After(s, actions).returned
    ensures exists id :: id in After(s, actions).returned && After(s, actions).At(t).localLastId < id
  {
    hide Inv, Apply, Enabled, Swap, Tick;
    InitialInv(s);
    RunKeeps(s, actions);
    SwapKeeps(After(s, actions), t);
  }
}
