/** `RotatingFileHandler`: a log file that is renamed away when it has grown, behind a chain of
numbered backups of which the oldest is overwritten. */
module RotatingLog {
  /** What a file holds. */
  type Content = seq<bv8>

  /** The log file is number 0, the backup `name.i` is number i. */
  type Disk = map<nat, Content>

  // ----- What the operations do

  /** `os.Rename`, whose errors are ignored: nothing happens if there is no such file. */
  function Renamed(d: Disk, from: nat, to: nat): Disk
    requires from != to
  {
    if from in d then (d - {from})[to := d[from]] else d
  }

  /** The loop over the backups, from number i down to 1. */
  function BackupsRenamed(d: Disk, i: nat): Disk
    decreases i
  {
    if i == 0 then d else BackupsRenamed(Renamed(d, i, i + 1), i - 1)
  }

  predicate MustRoll(d: Disk, maxBytes: int, backupCount: int)
    requires 0 in d
  {
    0 < maxBytes <= |d[0]| && backupCount > 0
  }

  function RolledOver(d: Disk, maxBytes: int, backupCount: int): (r: Disk)
    requires 0 in d
    ensures 0 in r
  {
    if MustRoll(d, maxBytes, backupCount) then
      Renamed(BackupsRenamed(d, backupCount - 1), 0, 1)[0 := []]
    else d
  }

  function Written(d: Disk, maxBytes: int, backupCount: int, p: Content): Disk
    requires 0 in d
  {
    var r := RolledOver(d, maxBytes, backupCount);
    r[0 := r[0] + p]
  }

  class RotatingFileHandler {
    const maxBytes: int
    const backupCount: int
    var disk: Disk

    constructor (d: Disk, maxBytes: int, backupCount: int)
      ensures this.maxBytes == maxBytes && this.backupCount == backupCount
      ensures disk == if 0 in d then d else d[0 := []]
    {
      this.maxBytes, this.backupCount := maxBytes, backupCount;
      disk := if 0 in d then d else d[0 := []];
    }

    method Rename(from: nat, to: nat)
      requires from != to
      modifies this
      ensures disk == Renamed(old(disk), from, to)
    {
      if from in disk {
        var content := disk[from];
        disk := disk - {from};
        disk := disk[to := content];
      }
    }

    method DoRollover()
      requires 0 in disk
      modifies this
      ensures disk == RolledOver(old(disk), maxBytes, backupCount)
    {
      if maxBytes <= 0 {
        return;
      } else if |disk[0]| < maxBytes {
        return;
      }
      if backupCount > 0 {
        var i := backupCount - 1;
        while i > 0
          invariant 0 <= i && BackupsRenamed(disk, i) == BackupsRenamed(old(disk), backupCount - 1)
        {
          Rename(i, i + 1);
          i := i - 1;
        }
        Rename(0, 1);
        disk := disk[0 := []];
      }
    }

    method Write(p: Content)
      requires 0 in disk
      modifies this
      ensures disk == Written(old(disk), maxBytes, backupCount, p)
    {
      DoRollover();
      disk := disk[0 := disk[0] + p];
    }
  }

  // ----- One rotation, whatever files there are

  /** The number of the file that is number j after the loop from i down. */
  function Origin(d: Disk, i: nat, j: nat): nat {
    if 2 <= j <= i then j - 1 else if 1 <= i && j == i + 1 && i in d then i else j
  }

  lemma {:induction false} LoopAt(d: Disk, i: nat, j: nat)
    ensures var r := BackupsRenamed(d, i);
            if i >= 1 && j == 1 then j !in r
            else (j in r <==> Origin(d, i, j) in d) && (j in r ==> r[j] == d[Origin(d, i, j)])
    decreases i
  {
    if i > 0 {
      LoopAt(Renamed(d, i, i + 1), i - 1, j);
    }
  }

  /** The number under which file j was kept before a rotation. */
  function Before(d: Disk, n: nat, j: nat): nat
    requires j >= 1
  {
    if j < n || (j == n && n - 1 in d) then j - 1 else j
  }

  lemma RolloverAt(d: Disk, maxBytes: int, n: nat, j: nat)
    requires 0 in d && MustRoll(d, maxBytes, n)
    ensures var r := RolledOver(d, maxBytes, n);
            && r[0] == []
            && (j >= 1 ==> (j in r <==> Before(d, n, j) in d) && (j in r ==> r[j] == d[Before(d, n, j)]))
  {
    hide BackupsRenamed;
    LoopAt(d, n - 1, 0);
    LoopAt(d, n - 1, j);
  }

  /** A rotation keeps every file under some number, except the last backup when there is one
  below it to take its place. */
  lemma RotationLosesOnlyLast(d: Disk, maxBytes: int, n: nat, o: nat)
    requires 0 in d && MustRoll(d, maxBytes, n) && o in d
    ensures var r := RolledOver(d, maxBytes, n);
            (exists j: nat :: 1 <= j && j in r && Before(d, n, j) == o && r[j] == d[o])
            <==> !(o == n && n - 1 in d)
  {
    var r := RolledOver(d, maxBytes, n);
    hide RolledOver;
    if o != n || n - 1 !in d {
      var j: nat := if o < n then o + 1 else o;
      assert Before(d, n, j) == o;
      RolloverAt(d, maxBytes, n, j);
    }
  }

  /** A write to a log of at least maxBytes, where there are backups at all, leaves the new bytes
  alone in the log and what it held in the first backup; any other write adds to the log and
  touches nothing else. */
  lemma WriteRollsIff(d: Disk, maxBytes: int, n: int, p: Content)
    requires 0 in d
    ensures maxBytes > 0 && n > 0 && |d[0]| >= maxBytes ==>
              var r := Written(d, maxBytes, n, p); r[0] == p && 1 in r && r[1] == d[0]
    ensures !(maxBytes > 0 && n > 0 && |d[0]| >= maxBytes) ==> Written(d, maxBytes, n, p) == d[0 := d[0] + p]
  {
    if maxBytes > 0 && n > 0 && |d[0]| >= maxBytes { RolloverAt(d, maxBytes, n, 1); }
  }

  /** So the log stays shorter than maxBytes and the last write together. */
  lemma LogStaysShort(d: Disk, maxBytes: int, n: int, p: Content)
    requires 0 in d && maxBytes > 0 && n > 0
    ensures |Written(d, maxBytes, n, p)[0]| < maxBytes + |p|
  {
    WriteRollsIff(d, maxBytes, n, p);
    hide Written;
  }

  // ----- What the log holds

  /** The files are the log and the backups 1 to k. */
  ghost predicate Contiguous(d: Disk, k: nat) {
    forall j: nat :: j in d <==> j <= k
  }

  /** The files from number k down to the log, one after the other. */
  function Log(d: Disk, k: nat): Content
    requires forall j: nat :: j <= k ==> j in d
  {
    if k == 0 then d[0] else d[k] + Log(d, k - 1)
  }

  lemma {:induction false} LogShifts(d: Disk, r: Disk, k: nat)
    requires forall j: nat :: j <= k ==> j in d
    requires (forall j: nat :: j <= k + 1 ==> j in r) && r[0] == []
    requires forall j: nat :: 1 <= j <= k + 1 ==> r[j] == d[j - 1]
    ensures Log(r, k + 1) == Log(d, k)
  {
    if k > 0 { LogShifts(d, r, k - 1); }
    else { assert Log(r, 1) == r[1] + Log(r, 0); }
  }

  /** How many backups there are after a write. */
  function NextCount(d: Disk, k: nat, maxBytes: int, n: nat): nat
    requires 0 in d
  {
    if MustRoll(d, maxBytes, n) && k < n then k + 1 else k
  }

  /** What a write pushes out: the oldest backup if all slots are taken and the log is full. */
  function Dropped(d: Disk, k: nat, maxBytes: int, n: nat): Content
    requires 0 in d && k in d
  {
    if MustRoll(d, maxBytes, n) && k == n then d[k] else []
  }

  lemma RolloverKeepsLog(d: Disk, k: nat, maxBytes: int, n: nat)
    requires Contiguous(d, k) && k <= n
    ensures var r := RolledOver(d, maxBytes, n);
            var k' := NextCount(d, k, maxBytes, n);
            Contiguous(r, k') && Dropped(d, k, maxBytes, n) + Log(r, k') == Log(d, k)
  {
    var r := RolledOver(d, maxBytes, n);
    var k' := NextCount(d, k, maxBytes, n);
    if MustRoll(d, maxBytes, n) {
      forall j: nat ensures (j in r <==> j <= k') && (1 <= j <= k' ==> r[j] == d[j - 1]) && r[0] == [] {
        RolloverAt(d, maxBytes, n, j);
      }
      hide RolledOver;
      LogShifts(d, r, k' - 1);
      LogDropsLast(d, k, n);
    }
  }

  /** A write appends its bytes and drops no more than the oldest backup. */
  lemma WriteAppends(d: Disk, k: nat, maxBytes: int, n: nat, p: Content)
    requires Contiguous(d, k) && k <= n
    ensures var r := Written(d, maxBytes, n, p);
            var k' := NextCount(d, k, maxBytes, n);
            Contiguous(r, k') && Dropped(d, k, maxBytes, n) + Log(r, k') == Log(d, k) + p
  {
    hide RolledOver, MustRoll, Log;
    RolloverKeepsLog(d, k, maxBytes, n);
    var r0 := RolledOver(d, maxBytes, n);
    var k' := NextCount(d, k, maxBytes, n);
    var first := Dropped(d, k, maxBytes, n);
    LogOfAppend(r0, k', p);
    assert first + (Log(r0, k') + p) == first + Log(r0, k') + p;
  }

  lemma LogDropsLast(d: Disk, k: nat, n: nat)
    requires Contiguous(d, k) && 0 < n
    ensures k >= 1 ==> Log(d, k) == d[k] + Log(d, k - 1)
  {
  }

  lemma {:induction false} LogOfAppend(d: Disk, k: nat, p: Content)
    requires forall j: nat :: j <= k ==> j in d
    ensures Log(d[0 := d[0] + p], k) == Log(d, k) + p
  {
    if k > 0 {
      LogOfAppend(d, k - 1, p);
      assert d[k] + (Log(d, k - 1) + p) == d[k] + Log(d, k - 1) + p;
    }
  }

  // ----- Runs of writes

  function AfterWrites(d: Disk, maxBytes: int, n: nat, ps: seq<Content>): Disk
    requires 0 in d
    decreases ps
  {
    if ps == [] then d else AfterWrites(Written(d, maxBytes, n, ps[0]), maxBytes, n, ps[1..])
  }

  function Concat(ps: seq<Content>): Content { if ps == [] then [] else ps[0] + Concat(ps[1..]) }

  /** The backups are as large as the log has to be before it becomes one. */
  ghost predicate BackupsFull(d: Disk, k: nat, maxBytes: int)
    requires forall j: nat :: j <= k ==> j in d
  {
    forall j: nat :: 1 <= j <= k ==> |d[j]| >= maxBytes
  }

  lemma WriteKeepsFull(d: Disk, k: nat, maxBytes: int, n: nat, p: Content)
    requires Contiguous(d, k) && k <= n && BackupsFull(d, k, maxBytes)
    requires Contiguous(Written(d, maxBytes, n, p), NextCount(d, k, maxBytes, n))
    ensures BackupsFull(Written(d, maxBytes, n, p), NextCount(d, k, maxBytes, n), maxBytes)
  {
    var k' := NextCount(d, k, maxBytes, n);
    var r := Written(d, maxBytes, n, p);
    forall j: nat | 1 <= j <= k' ensures |r[j]| >= maxBytes {
      if MustRoll(d, maxBytes, n) { RolloverAt(d, maxBytes, n, j); }
    }
  }

  lemma {:induction false} LogSize(d: Disk, k: nat, maxBytes: int)
    requires (forall j: nat :: j <= k ==> j in d) && BackupsFull(d, k, maxBytes)
    ensures |Log(d, k)| >= k * maxBytes
  {
    if k > 0 {
      LogSize(d, k - 1, maxBytes);
      assert k * maxBytes == (k - 1) * maxBytes + maxBytes;
    }
  }

  /** Whatever was written and rotated, the backups from oldest to newest and the log hold a
  suffix of it; bytes are lost only when all slots are taken. */
  lemma {:induction false} RunKeepsSuffix(d: Disk, k: nat, maxBytes: int, n: nat, ps: seq<Content>)
    returns (k': nat, lost: Content)
    requires Contiguous(d, k) && k <= n && maxBytes > 0
    ensures var r := AfterWrites(d, maxBytes, n, ps);
            && Contiguous(r, k') && k <= k' <= n
            && Log(d, k) + Concat(ps) == lost + Log(r, k')
            && (lost == [] || k' == n)
            && (BackupsFull(d, k, maxBytes) ==> BackupsFull(r, k', maxBytes))
    decreases ps
  {
    hide Written, Log, MustRoll, BackupsFull;
    if ps == [] {
      k', lost := k, [];
    } else {
      var d1, k1 := Written(d, maxBytes, n, ps[0]), NextCount(d, k, maxBytes, n);
      WriteAppends(d, k, maxBytes, n, ps[0]);
      if BackupsFull(d, k, maxBytes) { WriteKeepsFull(d, k, maxBytes, n, ps[0]); }
      var rest;
      k', rest := RunKeepsSuffix(d1, k1, maxBytes, n, ps[1..]);
      var first := Dropped(d, k, maxBytes, n);
      lost := first + rest;
      var r := AfterWrites(d, maxBytes, n, ps);
      assert Log(d, k) + (ps[0] + Concat(ps[1..])) == Log(d, k) + ps[0] + Concat(ps[1..]);
      assert first + Log(d1, k1) + Concat(ps[1..]) == first + (Log(d1, k1) + Concat(ps[1..]));
      assert first + (rest + Log(r, k')) == first + rest + Log(r, k');
    }
  }

  /** Starting without backups, the files hold all that was written, or its last part of at
  least n * maxBytes bytes. */
  lemma KeepsEnough(d: Disk, maxBytes: int, n: nat, ps: seq<Content>) returns (k: nat, lost: Content)
    requires Contiguous(d, 0) && maxBytes > 0
    ensures var r := AfterWrites(d, maxBytes, n, ps);
            && Contiguous(r, k) && d[0] + Concat(ps) == lost + Log(r, k)
            && (lost == [] || |Log(r, k)| >= n * maxBytes)
  {
    k, lost := RunKeepsSuffix(d, 0, maxBytes, n, ps);
    LogSize(AfterWrites(d, maxBytes, n, ps), k, maxBytes);
  }
}
