/** `GetSnowflakeId`: ids of 41 bits of time, 10 bits of machine and 12 bits of sequence,
handed out under a mutex.  The readings of the clock, in nanoseconds since 1970, are
parameters of a call. */
module Snowflake {
  const TICKS := 0x200_0000_0000
  const MILLISECOND := 1_000_000

  type MachineId = m: int | 0 <= m < 1024

  /** `x >> 20` on an int64: the quotient rounded down. */
  function Tick(nanos: int): int { nanos / 0x10_0000 }

  /** `(tick & 0x1FFFFFFFFFF) << 22 | machineID | sn`.  The parts have no bit in common as long
  as sn stays below 4096, so that `|` is addition (PartsAreDisjoint). */
  function IdOf(tick: int, machine: MachineId, sn: int): int {
    tick % 0x200_0000_0000 * 0x40_0000 + machine * 0x1000 + sn
  }

  /** The id arithmetic on machine words, for comparison with IdOf. */
  lemma PartsAreDisjoint(tick: bv64, machineID: bv64, sn: bv64)
    requires tick < 0x200_0000_0000 && machineID & 0x3F_F000 == machineID && sn & 0xFFF == sn
    ensures (tick << 22) | machineID | sn == (tick << 22) + machineID + sn
    ensures ((tick << 22) | machineID | sn) >> 22 == tick
    ensures ((tick << 22) | machineID | sn) & 0xFFF == sn
  {
  }

  function SeqFromId(id: int): int { id % 0x1000 }

  function TimeFromId(id: int): int { id / 0x40_0000 }

  function MachineFromId(id: int): int { id / 0x1000 % 1024 }

  // ----- One call

  /** The three times a call may read the clock: on entry, after one sleep and after two. */
  datatype Readings = Readings(entry: int, afterOneSleep: int, afterTwoSleeps: int) {
    /** Each sleep of a millisecond takes at least a millisecond of the clock, and the 41 bits
    of time have not run out. */
    predicate Regular() {
      && 0 <= Tick(entry) < TICKS && Tick(afterOneSleep) < TICKS && Tick(afterTwoSleeps) < TICKS
      && entry + MILLISECOND <= afterOneSleep
      && afterOneSleep + MILLISECOND <= afterTwoSleeps
    }
  }

  datatype State = State(sn: int, lastTimeStamp: int, machine: MachineId) {
    predicate Valid() { 0 <= sn <= 4095 && 0 <= lastTimeStamp < TICKS }

    /** The id handed out last, or a number below all that will be. */
    function Floor(): int { IdOf(lastTimeStamp, machine, sn) }
  }

  /** What a call does to the state. */
  function Advance(s: State, r: Readings): State {
    var cur := Tick(r.entry);
    if cur < s.lastTimeStamp then s
    else if cur > s.lastTimeStamp then s.(lastTimeStamp := cur, sn := 0)
    else if s.sn < 4095 then s.(sn := s.sn + 1)
    else s.(lastTimeStamp := AfterSleeping(s.lastTimeStamp, r), sn := 0)
  }

  /** The tick that a call settles on when the sequence of the last tick has run out. */
  function AfterSleeping(last: int, r: Readings): int {
    if Tick(r.afterOneSleep) == last then Tick(r.afterTwoSleeps) else Tick(r.afterOneSleep)
  }

  predicate ClockWentBack(s: State, r: Readings) { Tick(r.entry) < s.lastTimeStamp }

  function Issued(s: State, r: Readings): int {
    if ClockWentBack(s, r) then 0 else Advance(s, r).Floor()
  }

  class Generator {
    var sn: int
    var lastTimeStamp: int
    var machine: MachineId

    function Contents(): State
      reads this
    {
      State(sn, lastTimeStamp, machine)
    }

    constructor (now: int)
      ensures Contents() == State(0, Tick(now), 666)
    {
      sn, lastTimeStamp, machine := 0, Tick(now), 666;
    }

    method SetMachineId(mid: MachineId)
      modifies this
      ensures Contents() == old(Contents()).(machine := mid)
    {
      machine := mid;
    }

    method GetSnowflakeId(r: Readings) returns (id: int)
      modifies this
      ensures Contents() == Advance(old(Contents()), r) && id == Issued(old(Contents()), r)
    {
      var curTimeStamp := Tick(r.entry);
      if curTimeStamp == lastTimeStamp {
        sn := sn + 1;
        if sn > 4095 {
          curTimeStamp := Tick(r.afterOneSleep);
          if lastTimeStamp == curTimeStamp {
            curTimeStamp := Tick(r.afterTwoSleeps);
          }
          lastTimeStamp := curTimeStamp;
          sn := 0;
        }
        return IdOf(curTimeStamp, machine, sn);
      }
      if curTimeStamp > lastTimeStamp {
        lastTimeStamp := curTimeStamp;
        sn := 0;
        return IdOf(curTimeStamp, machine, sn);
      }
      return 0;
    }
  }

  // ----- Ids

  /** Time, machine and sequence can be read back from an id, which fits 63 bits. */
  lemma IdDecodes(tick: int, machine: MachineId, sn: int)
    requires 0 <= tick < TICKS && 0 <= sn <= 4095
    ensures var id := IdOf(tick, machine, sn);
            && TimeFromId(id) == tick && MachineFromId(id) == machine && SeqFromId(id) == sn
            && 0 <= id < 0x8000_0000_0000_0000
  {
    var id := IdOf(tick, machine, sn);
    assert id / 0x1000 == tick * 1024 + machine;
  }

  /** Ids of one machine are ordered as their times, and within a time as their sequences. */
  lemma IdsOrdered(t0: int, n0: int, t1: int, n1: int, machine: MachineId)
    requires 0 <= t0 < TICKS && 0 <= t1 < TICKS && 0 <= n0 <= 4095 && 0 <= n1 <= 4095
    ensures IdOf(t0, machine, n0) < IdOf(t1, machine, n1) <==> t0 < t1 || (t0 == t1 && n0 < n1)
  {
  }

  /** Two sleeps always reach a later tick, for a tick is shorter than two milliseconds; one
  sleep need not. */
  lemma TwoSleepsCrossATick(r: Readings)
    requires r.Regular()
    ensures Tick(r.entry) <= Tick(r.afterOneSleep) && Tick(r.entry) < Tick(r.afterTwoSleeps)
  {
  }

  // ----- Calls

  /** An id is above everything handed out before and becomes the new floor; a failed call
  changes nothing; and no id is 0. */
  lemma CallKeepsOrder(s: State, r: Readings)
    requires s.Valid() && r.Regular()
    ensures Advance(s, r).Valid() && Advance(s, r).machine == s.machine
    ensures Issued(s, r) == 0 <==> ClockWentBack(s, r)
    ensures ClockWentBack(s, r) ==> Advance(s, r) == s
    ensures !ClockWentBack(s, r) ==> s.Floor() < Issued(s, r) == Advance(s, r).Floor()
  {
    hide IdOf, Tick;
    var s' := Advance(s, r);
    TwoSleepsCrossATick(r);
    IdsOrdered(s.lastTimeStamp, s.sn, s'.lastTimeStamp, s'.sn, s.machine);
    IdDecodes(s.lastTimeStamp, s.machine, s.sn);
  }

  /** Without the assumption on sleeps, a call that has run out of sequence numbers hands out a
  greater id exactly when the tick it settles on is a later one. */
  lemma ExhaustedCallIncreasesIff(s: State, r: Readings)
    requires s.Valid() && s.sn == 4095 && Tick(r.entry) == s.lastTimeStamp
    requires 0 <= AfterSleeping(s.lastTimeStamp, r) < TICKS
    ensures s.Floor() < Issued(s, r) <==> s.lastTimeStamp < AfterSleeping(s.lastTimeStamp, r)
  {
    IdsOrdered(s.lastTimeStamp, s.sn, AfterSleeping(s.lastTimeStamp, r), 0, s.machine);
  }

  // ----- Runs

  /** What the calls of a run return, one after the other. */
  function Ids(s: State, calls: seq<Readings>): (ids: seq<int>)
    ensures |ids| == |calls|
    decreases calls
  {
    if calls == [] then [] else [Issued(s, calls[0])] + Ids(Advance(s, calls[0]), calls[1..])
  }

  ghost predicate AllRegular(calls: seq<Readings>) {
    forall r :: r in calls ==> r.Regular()
  }

  lemma {:induction false} IdsAboveFloor(s: State, calls: seq<Readings>, k: nat)
    requires s.Valid() && AllRegular(calls) && k < |calls|
    ensures Ids(s, calls)[k] == 0 || s.Floor() < Ids(s, calls)[k]
    decreases calls
  {
    hide Issued, Advance;
    CallKeepsOrder(s, calls[0]);
    if k > 0 { IdsAboveFloor(Advance(s, calls[0]), calls[1..], k - 1); }
  }

  /** The ids of a run increase, whatever the clock does between the calls. */
  lemma {:induction false} IdsIncrease(s: State, calls: seq<Readings>, j: nat, k: nat)
    requires s.Valid() && AllRegular(calls) && j < k < |calls|
    requires Ids(s, calls)[j] != 0 && Ids(s, calls)[k] != 0
    ensures Ids(s, calls)[j] < Ids(s, calls)[k]
    decreases calls
  {
    hide Issued, Advance;
    var s' := Advance(s, calls[0]);
    CallKeepsOrder(s, calls[0]);
    if j == 0 {
      IdsAboveFloor(s', calls[1..], k - 1);
    } else {
      IdsIncrease(s', calls[1..], j - 1, k - 1);
    }
  }

  /** Every id of a run names the machine and a tick during its call. */
  lemma {:induction false} IdsTell(s: State, calls: seq<Readings>, k: nat)
    requires s.Valid() && AllRegular(calls) && k < |calls| && Ids(s, calls)[k] != 0
    ensures var id := Ids(s, calls)[k];
            && MachineFromId(id) == s.machine && 0 <= SeqFromId(id) <= 4095
            && Tick(calls[k].entry) <= TimeFromId(id) <= Tick(calls[k].afterTwoSleeps)
    decreases calls
  {
    hide IdOf, TimeFromId, SeqFromId, MachineFromId;
    var s' := Advance(s, calls[0]);
    CallKeepsOrder(s, calls[0]);
    if k == 0 {
      IdDecodes(s'.lastTimeStamp, s'.machine, s'.sn);
      TwoSleepsCrossATick(calls[0]);
      assert Tick(calls[0].afterOneSleep) <= Tick(calls[0].afterTwoSleeps);
    } else {
      IdsTell(s', calls[1..], k - 1);
    }
  }

  /** A tick is used up before any call sleeps: as long as calls come in the same tick, the
  sequence numbers follow one another, up to 4095. */
  lemma {:induction false} TickIsUsedUp(s: State, calls: seq<Readings>, k: nat)
    requires s.Valid() && k < |calls| && s.sn + 1 + k <= 4095
    requires forall j :: 0 <= j <= k ==> Tick(calls[j].entry) == s.lastTimeStamp
    ensures Ids(s, calls)[k] == IdOf(s.lastTimeStamp, s.machine, s.sn + 1 + k)
    decreases calls
  {
    hide IdOf, Tick;
    if k > 0 { TickIsUsedUp(Advance(s, calls[0]), calls[1..], k - 1); }
  }

  lemma NextSequence(sn: int)
    requires 0 <= sn <= 4095
    ensures (sn + 1) % 4096 == if sn < 4095 then sn + 1 else 0
  {
  }

  lemma SequenceGoesOn(n: int, k: int)
    requires 0 <= n <= 4096
    ensures (n % 4096 + k) % 4096 == (n + k) % 4096
  {
    if n == 4096 { SequenceRepeats(k); }
  }

  lemma SequenceRepeats(n: int)
    ensures (n + 4096) % 4096 == n % 4096
  {
  }

  /** If the clock stands still, sleeps included, the sequence starts over in the same tick. */
  lemma {:induction false} StoppedClock(s: State, calls: seq<Readings>, k: nat)
    requires s.Valid() && k < |calls|
    requires forall r :: r in calls ==>
               Tick(r.entry) == s.lastTimeStamp && AfterSleeping(s.lastTimeStamp, r) == s.lastTimeStamp
    ensures Ids(s, calls)[k] == IdOf(s.lastTimeStamp, s.machine, (s.sn + 1 + k) % 4096)
    decreases calls
  {
    hide IdOf, Tick;
    var n := s.sn + 1;
    NextSequence(s.sn);
    assert Advance(s, calls[0]).sn == n % 4096;
    if k > 0 {
      StoppedClock(Advance(s, calls[0]), calls[1..], k - 1);
      SequenceGoesOn(n, k);
    }
  }

  /** With all readings equal an id comes again after 4096 calls. */
  lemma EqualTimesRepeatIds(nanos: int, calls: seq<Readings>, k: nat)
    requires 0 <= Tick(nanos) < TICKS && k + 4096 < |calls|
    requires forall r :: r in calls ==> r == Readings(nanos, nanos, nanos)
    ensures var s := State(0, Tick(nanos), 666); Ids(s, calls)[k] == Ids(s, calls)[k + 4096]
  {
    var s := State(0, Tick(nanos), 666);
    assert s.Valid();
    hide IdOf, Tick, Ids;
    StoppedClock(s, calls, k);
    StoppedClock(s, calls, k + 4096);
    SequenceRepeats(1 + k);
  }
}
