/**
 Fat32WriteFATEntry under fat_lock as a state machine: any number of threads, any interleaving
 of their atomic steps, disk and buffer failures included. The machine keeps a log of the calls
 in the order in which they acquired the lock, with the number of FAT copies each one reached.
 */
module FatLock {
  import opened Machine
  import opened FatDisk

  datatype Geometry = Geometry(reserved: nat, fatSize: nat, numFats: nat)

  datatype Thread =
    | Idle
    | Acquiring(cluster: nat, value: nat)             // before the atomic test-and-set
    | Waiting(cluster: nat, value: nat)               // in the inner loop on lock->locked
    | Reading(cluster: nat, value: nat, copy: nat)    // at the head of the loop over the copies
    | Writing(cluster: nat, value: nat, copy: nat, buf: Sector)
    | Releasing(copy: nat)
  {
    predicate Holds() { Reading? || Writing? || Releasing? }
  }

  datatype Write = Write(cluster: nat, value: nat, done: nat)

  datatype Sys = Sys(locked: bool, threads: seq<Thread>, disk: seq<Sector>, log: seq<Write>, faults: nat)

  datatype Action = Call(cluster: nat, value: nat) | TestAndSet | Probe | Read(ok: bool) | LoopExit | WriteBack(ok: bool) | Release

  // ----- where an entry lives

  /** The FATs lie on the disk, and neither an entry's byte offset nor its sector number leaves 32 bits. */
  ghost predicate Fits(g: Geometry, disk: seq<Sector>) {
    && g.reserved + g.numFats * g.fatSize <= |disk|
    && Addressable(g)
  }

  predicate Addressable(g: Geometry) {
    g.fatSize * BPS <= TWO32 && g.reserved + g.numFats * g.fatSize <= TWO32
  }

  predicate InFat(g: Geometry, cluster: nat) { cluster * 4 < g.fatSize * BPS }

  function Base(g: Geometry, copy: nat): nat { g.reserved + copy * g.fatSize }

  function SectorOff(cluster: nat): nat { cluster * 4 / BPS }

  function InSectorOff(cluster: nat): (o: nat)
    ensures o + 4 <= BPS && o % 4 == 0
  {
    DivMod(cluster, 128);
    DivUnique(cluster * 4, BPS, cluster / 128, cluster % 128 * 4);
    cluster * 4 % BPS
  }

  /** The sector and the byte offset as the code computes them, in 32-bit words. */
  function CodeSector(g: Geometry, copy: nat, cluster: nat): nat {
    U32(Base(g, copy) + U32(cluster * 4) / BPS)
  }

  function CodeOffset(cluster: nat): (o: nat)
    ensures o + 4 <= BPS
  {
    ModDiv(cluster, 0x4000_0000, 1);
    ModDiv(cluster * 4, 0x80_0000, BPS);
    assert U32(cluster * 4) % BPS == InSectorOff(cluster);
    U32(cluster * 4) % BPS
  }

  lemma CodeParts(g: Geometry, copy: nat, cluster: nat)
    ensures CodeOffset(cluster) == U32(cluster * 4) % BPS
    ensures CodeSector(g, copy, cluster) == U32(g.reserved + copy * g.fatSize + U32(cluster * 4) / BPS)
  {
  }

  ghost predicate FindsEntry(g: Geometry, copy: nat, cluster: nat) {
    CodeSector(g, copy, cluster) == Base(g, copy) + SectorOff(cluster) && CodeOffset(cluster) == InSectorOff(cluster)
  }

  lemma CodeAddress(g: Geometry, copy: nat, cluster: nat)
    requires Addressable(g) && copy < g.numFats && InFat(g, cluster)
    ensures FindsEntry(g, copy, cluster)
  {
    hide U32;
    LastSector(g, copy);
    DivBound(cluster * 4, g.fatSize, BPS);
    U32Small(cluster * 4);
    U32Small(Base(g, copy) + SectorOff(cluster));
  }

  lemma LastSector(g: Geometry, copy: nat)
    requires copy < g.numFats
    ensures Base(g, copy) + g.fatSize <= g.reserved + g.numFats * g.fatSize
    ensures copy == g.numFats - 1 ==> Base(g, copy) + g.fatSize == g.reserved + g.numFats * g.fatSize
  {
    assert (copy + 1) * g.fatSize == copy * g.fatSize + g.fatSize;
    MulMonotone(copy + 1, g.numFats, g.fatSize);
  }

  /** The 32-bit computation finds every entry of every mirror exactly when the FATs are addressable. */
  lemma EntriesFoundExactlyWhen(g: Geometry)
    requires g.numFats > 0 && g.fatSize > 0
    ensures (forall copy: nat, cluster: nat | copy < g.numFats && InFat(g, cluster) :: FindsEntry(g, copy, cluster))
       <==> Addressable(g)
  {
    if Addressable(g) {
      forall copy: nat, cluster: nat | copy < g.numFats && InFat(g, cluster) ensures FindsEntry(g, copy, cluster) {
        CodeAddress(g, copy, cluster);
      }
    } else if g.fatSize * BPS > TWO32 {
      // entry 2^30 starts at byte 2^32 of the FAT, which the code takes for byte 0
      assert InFat(g, 0) && InFat(g, 0x4000_0000);
      assert CodeSector(g, 0, 0x4000_0000) == CodeSector(g, 0, 0);
      assert !(FindsEntry(g, 0, 0x4000_0000) && FindsEntry(g, 0, 0));
    } else {
      var copy: nat, cluster: nat := g.numFats - 1, g.fatSize * 128 - 1;
      LastSector(g, copy);
      DivUnique(cluster * 4, BPS, g.fatSize - 1, BPS - 4);
      assert InFat(g, cluster) && !FindsEntry(g, copy, cluster);
    }
  }

  lemma CurSector(g: Geometry, disk: seq<Sector>, copy: nat, cluster: nat)
    requires Fits(g, disk) && copy < g.numFats && InFat(g, cluster)
    ensures SectorOff(cluster) < g.fatSize
    ensures Base(g, copy) + g.fatSize <= |disk|
  {
    DivBound(cluster * 4, g.fatSize, BPS);
    LastSector(g, copy);
  }

  lemma CurInFat(g: Geometry, disk: seq<Sector>, copy: nat, cluster: nat)
    requires Fits(g, disk) && copy < g.numFats && InFat(g, cluster)
    ensures var cur := Base(g, copy) + SectorOff(cluster);
      g.reserved <= cur < g.reserved + g.numFats * g.fatSize && cur < |disk|
  {
    CurSector(g, disk, copy, cluster);
    LastSector(g, copy);
  }

  /** One copy of the FAT, as the sectors it occupies. */
  function Copy(g: Geometry, disk: seq<Sector>, copy: nat): seq<Sector>
    requires Base(g, copy) + g.fatSize <= |disk|
  {
    disk[Base(g, copy)..Base(g, copy) + g.fatSize]
  }

  /** The effect of one completed write on one copy. */
  function Updated(fat: seq<Sector>, cluster: nat, value: nat): (r: seq<Sector>)
    ensures |r| == |fat|
  {
    if SectorOff(cluster) < |fat| then
      fat[SectorOff(cluster) := Modify(fat[SectorOff(cluster)], InSectorOff(cluster), value)]
    else fat
  }

  /** A copy after the logged writes that got past it, in acquisition order. */
  function Replay(fat: seq<Sector>, log: seq<Write>, copy: nat): (r: seq<Sector>)
    ensures |r| == |fat|
  {
    if log == [] then fat
    else
      var w := log[|log| - 1];
      var before := Replay(fat, log[..|log| - 1], copy);
      if w.done > copy then Updated(before, w.cluster, w.value) else before
  }

  // ----- steps

  ghost predicate Enabled(g: Geometry, s: Sys, i: nat, a: Action) {
    i < |s.threads| &&
    match a
    case Call(c, _) => s.threads[i].Idle? && InFat(g, c)
    case TestAndSet => s.threads[i].Acquiring?
    case Probe => s.threads[i].Waiting?
    case Read(_) => s.threads[i].Reading? && s.threads[i].copy < g.numFats
    case LoopExit => s.threads[i].Reading? && s.threads[i].copy >= g.numFats
    case WriteBack(_) => s.threads[i].Writing?
    case Release => s.threads[i].Releasing?
  }

  function Goto(s: Sys, i: nat, t: Thread): Sys
    requires i < |s.threads|
  {
    s.(threads := s.threads[i := t])
  }

  ghost function Step(g: Geometry, s: Sys, i: nat, a: Action): Sys
    requires Enabled(g, s, i, a)
  {
    var t := s.threads[i];
    match a
    case Call(c, v) => Goto(s, i, Acquiring(c, v))
    case TestAndSet =>
      if s.locked then Goto(s, i, Waiting(t.cluster, t.value))
      else Goto(s, i, Reading(t.cluster, t.value, 0)).(locked := true, log := s.log + [Write(t.cluster, t.value, 0)])
    case Probe => if s.locked then s else Goto(s, i, Acquiring(t.cluster, t.value))
    case Read(ok) =>
      var cur := CodeSector(g, t.copy, t.cluster);
      if ok && cur < |s.disk| then
        Goto(s, i, Writing(t.cluster, t.value, t.copy, Modify(s.disk[cur], CodeOffset(t.cluster), t.value)))
      else Goto(s, i, Releasing(t.copy)).(faults := s.faults + 1)
    case LoopExit => Goto(s, i, Releasing(t.copy))
    case WriteBack(ok) =>
      var cur := CodeSector(g, t.copy, t.cluster);
      if ok && cur < |s.disk| && s.log != [] then
        var last := |s.log| - 1;
        Goto(s, i, Reading(t.cluster, t.value, t.copy + 1))
          .(disk := s.disk[cur := t.buf], log := s.log[last := s.log[last].(done := t.copy + 1)])
      else Goto(s, i, Releasing(t.copy)).(faults := s.faults + 1)
    case Release => Goto(s, i, Idle).(locked := false)
  }

  // ----- the invariant

  ghost predicate AtMostOneHolder(s: Sys) {
    && (forall i, j | 0 <= i < |s.threads| && 0 <= j < |s.threads| && s.threads[i].Holds() && s.threads[j].Holds() :: i == j)
    && (s.locked <==> exists i :: 0 <= i < |s.threads| && s.threads[i].Holds())
  }

  /** What the thread inside the critical section knows about log and disk. */
  ghost predicate HolderOk(g: Geometry, s: Sys, t: Thread) {
    s.log != [] &&
    var w := s.log[|s.log| - 1];
    match t
    case Reading(c, v, copy) => w == Write(c, v, copy) && copy <= g.numFats
    case Writing(c, v, copy, buf) =>
      && w == Write(c, v, copy) && copy < g.numFats && Fits(g, s.disk) && InFat(g, c)
      && Base(g, copy) + SectorOff(c) < |s.disk|
      && buf == Modify(s.disk[Base(g, copy) + SectorOff(c)], InSectorOff(c), v)
    case Releasing(copy) => w.done == copy && (s.faults == 0 ==> copy == g.numFats)
    case _ => true
  }

  ghost predicate ThreadsInFat(g: Geometry, s: Sys) {
    forall i | 0 <= i < |s.threads| ::
      match s.threads[i]
      case Acquiring(c, _) => InFat(g, c)
      case Waiting(c, _) => InFat(g, c)
      case Reading(c, _, _) => InFat(g, c)
      case Writing(c, _, _, _) => InFat(g, c)
      case _ => true
  }

  /** Every copy is the initial copy with the writes that reached it replayed; other sectors are untouched. */
  ghost predicate DiskIsReplay(g: Geometry, disk0: seq<Sector>, s: Sys) {
    && Fits(g, disk0) && |s.disk| == |disk0|
    && (forall copy: nat | copy < g.numFats :: CopyIsReplay(g, disk0, s, copy))
    && forall x | 0 <= x < |disk0| && !(g.reserved <= x < g.reserved + g.numFats * g.fatSize) :: s.disk[x] == disk0[x]
  }

  ghost predicate CopyIsReplay(g: Geometry, disk0: seq<Sector>, s: Sys, copy: nat)
    requires |s.disk| == |disk0|
  {
    && Base(g, copy) + g.fatSize <= |disk0|
    && Copy(g, s.disk, copy) == Replay(Copy(g, disk0, copy), s.log, copy)
  }

  /** Without faults every write that left the critical section reached every copy. */
  ghost predicate LogComplete(g: Geometry, s: Sys) {
    && (forall k | 0 <= k < |s.log| :: InFat(g, s.log[k].cluster) && s.log[k].done <= g.numFats)
    && (s.faults == 0 ==> forall k | 0 <= k < |s.log| :: s.log[k].done == g.numFats || (k == |s.log| - 1 && s.locked))
  }

  ghost predicate Inv(g: Geometry, disk0: seq<Sector>, s: Sys) {
    && AtMostOneHolder(s) && ThreadsInFat(g, s) && LogComplete(g, s)
    && DiskIsReplay(g, disk0, s)
    && forall i | 0 <= i < |s.threads| && s.threads[i].Holds() :: HolderOk(g, s, s.threads[i])
  }

  // ----- each step keeps the invariant

  lemma SameDiskSameReplay(g: Geometry, disk0: seq<Sector>, s: Sys, r: Sys, copy: nat)
    requires |s.disk| == |disk0| && CopyIsReplay(g, disk0, s, copy) && r.disk == s.disk && r.log == s.log
    ensures CopyIsReplay(g, disk0, r, copy)
  {
  }

  /** A step that only moves thread i, in or out of the critical section or not at all. */
  lemma MoveOutside(g: Geometry, disk0: seq<Sector>, s: Sys, i: nat, t: Thread)
    requires Inv(g, disk0, s) && i < |s.threads| && !s.threads[i].Holds() && !t.Holds()
    requires ThreadsInFat(g, Goto(s, i, t))
    ensures Inv(g, disk0, Goto(s, i, t))
  {
    var r := Goto(s, i, t);
    hide Replay, Modify, Base, InSectorOff, SectorOff, InFat, CopyIsReplay;
    assert forall j | 0 <= j < |s.threads| && j != i :: r.threads[j] == s.threads[j];
    forall copy: nat | copy < g.numFats ensures CopyIsReplay(g, disk0, r, copy) {
      SameDiskSameReplay(g, disk0, s, r, copy);
    }
    assert r.locked <==> exists j :: 0 <= j < |r.threads| && r.threads[j].Holds() by {
      if s.locked {
        var j :| 0 <= j < |s.threads| && s.threads[j].Holds();
        assert r.threads[j].Holds();
      }
    }
  }

  lemma ReplayNewEntry(fat: seq<Sector>, log: seq<Write>, w: Write, copy: nat)
    ensures Replay(fat, log + [w], copy)
         == if w.done > copy then Updated(Replay(fat, log, copy), w.cluster, w.value) else Replay(fat, log, copy)
  {
    assert (log + [w])[..|log|] == log;
  }

  lemma AcquireKeeps(g: Geometry, disk0: seq<Sector>, s: Sys, i: nat)
    requires Inv(g, disk0, s) && Enabled(g, s, i, TestAndSet) && !s.locked
    ensures Inv(g, disk0, Step(g, s, i, TestAndSet))
  {
    var t := s.threads[i];
    var w := Write(t.cluster, t.value, 0);
    var r := Step(g, s, i, TestAndSet);
    assert r.threads[i].Holds();
    assert forall j | 0 <= j < |s.threads| && j != i :: !r.threads[j].Holds();
    forall copy: nat | copy < g.numFats ensures CopyIsReplay(g, disk0, r, copy) {
      assert CopyIsReplay(g, disk0, s, copy);
      ReplayNewEntry(Copy(g, disk0, copy), s.log, w, copy);
    }
  }

  /** A step inside the critical section that touches neither disk nor log. */
  lemma MoveInside(g: Geometry, disk0: seq<Sector>, s: Sys, i: nat, t: Thread, faults: nat)
    requires Inv(g, disk0, s) && i < |s.threads| && s.threads[i].Holds() && t.Holds() && faults >= s.faults
    ensures var r := Goto(s, i, t).(faults := faults);
      ThreadsInFat(g, r) && HolderOk(g, r, t) ==> Inv(g, disk0, r)
  {
    var r := Goto(s, i, t).(faults := faults);
    assert r.threads[i].Holds();
    assert forall j | 0 <= j < |s.threads| && j != i :: r.threads[j] == s.threads[j];
    forall copy: nat | copy < g.numFats ensures CopyIsReplay(g, disk0, r, copy) {
      assert CopyIsReplay(g, disk0, s, copy);
    }
  }

  lemma ReleaseKeeps(g: Geometry, disk0: seq<Sector>, s: Sys, i: nat)
    requires Inv(g, disk0, s) && Enabled(g, s, i, Release)
    ensures Inv(g, disk0, Step(g, s, i, Release))
  {
    var r := Step(g, s, i, Release);
    assert HolderOk(g, s, s.threads[i]) && s.locked;
    assert forall j | 0 <= j < |s.threads| && j != i :: r.threads[j] == s.threads[j] && !r.threads[j].Holds();
    forall copy: nat | copy < g.numFats ensures CopyIsReplay(g, disk0, r, copy) {
      assert CopyIsReplay(g, disk0, s, copy);
    }
  }

  lemma StoreInSlice(disk: seq<Sector>, lo: nat, n: nat, x: nat, buf: Sector)
    requires lo + n <= |disk| && x < |disk|
    ensures disk[x := buf][lo..lo + n] == if lo <= x < lo + n then disk[lo..lo + n][x - lo := buf] else disk[lo..lo + n]
  {
  }

  /** Storing one sector of one copy changes that copy at that sector and no other copy. */
  lemma StoreInCopy(g: Geometry, disk: seq<Sector>, copy: nat, cluster: nat, buf: Sector, other: nat)
    requires Fits(g, disk) && copy < g.numFats && other < g.numFats && InFat(g, cluster)
    ensures Base(g, other) + g.fatSize <= |disk| && Base(g, copy) + SectorOff(cluster) < |disk|
    ensures SectorOff(cluster) < g.fatSize
    ensures var d := disk[Base(g, copy) + SectorOff(cluster) := buf];
      Copy(g, d, other) == if other == copy then Copy(g, disk, copy)[SectorOff(cluster) := buf] else Copy(g, disk, other)
  {
    CurSector(g, disk, copy, cluster);
    CurSector(g, disk, other, cluster);
    CopiesApart(g, copy, other);
    hide Base, SectorOff;
    StoreInSlice(disk, Base(g, other), g.fatSize, Base(g, copy) + SectorOff(cluster), buf);
  }

  lemma CopiesApart(g: Geometry, copy: nat, other: nat)
    ensures copy != other ==> Base(g, copy) + g.fatSize <= Base(g, other) || Base(g, other) + g.fatSize <= Base(g, copy)
  {
    if other < copy { MulMonotone(other + 1, copy, g.fatSize); }
    if copy < other { MulMonotone(copy + 1, other, g.fatSize); }
  }

  /** One more copy reached: the replay of that copy gains the write, the replay of the others does not. */
  lemma ReplayOneMoreCopy(fat: seq<Sector>, log: seq<Write>, copy: nat)
    requires log != []
    ensures var n := |log| - 1;
            var w := log[n];
            var log' := log[n := w.(done := w.done + 1)];
      Replay(fat, log', copy) == if copy == w.done then Updated(Replay(fat, log, copy), w.cluster, w.value) else Replay(fat, log, copy)
  {
    var n := |log| - 1;
    var before, w := log[..n], log[n];
    assert log == before + [w];
    assert log[n := w.(done := w.done + 1)] == before + [w.(done := w.done + 1)];
    ReplayNewEntry(fat, before, w, copy);
    ReplayNewEntry(fat, before, w.(done := w.done + 1), copy);
  }

  lemma WriteBackKeepsCopies(g: Geometry, disk0: seq<Sector>, s: Sys, t: Thread, r: Sys, other: nat)
    requires t.Writing? && HolderOk(g, s, t) && other < g.numFats && |s.disk| == |disk0| && CopyIsReplay(g, disk0, s, other)
    requires var n := |s.log| - 1;
      && r.disk == s.disk[Base(g, t.copy) + SectorOff(t.cluster) := t.buf]
      && r.log == s.log[n := s.log[n].(done := t.copy + 1)]
    ensures CopyIsReplay(g, disk0, r, other)
  {
    hide Replay, Modify, SectorOff, InSectorOff, Base, Fits, InFat;
    StoreInCopy(g, s.disk, t.copy, t.cluster, t.buf, other);
    ReplayOneMoreCopy(Copy(g, disk0, other), s.log, other);
    if other == t.copy {
      assert Copy(g, s.disk, other)[SectorOff(t.cluster)] == s.disk[Base(g, other) + SectorOff(t.cluster)];
    }
  }

  /** What a successful write-back stores and logs, in terms of the holder's sector. */
  lemma WriteBackStep(g: Geometry, disk0: seq<Sector>, s: Sys, i: nat)
    requires Inv(g, disk0, s) && Enabled(g, s, i, WriteBack(true))
    ensures var t, r := s.threads[i], Step(g, s, i, WriteBack(true));
            var cur := Base(g, t.copy) + SectorOff(t.cluster);
            var n := |s.log| - 1;
      && HolderOk(g, s, t) && g.reserved <= cur < g.reserved + g.numFats * g.fatSize && cur < |s.disk|
      && r.disk == s.disk[cur := t.buf] && r.log == s.log[n := s.log[n].(done := t.copy + 1)]
  {
    hide DiskIsReplay, LogComplete, AtMostOneHolder, Modify, Base, SectorOff, InSectorOff, CodeSector, CodeOffset;
    var t := s.threads[i];
    assert HolderOk(g, s, t);
    CurInFat(g, s.disk, t.copy, t.cluster);
    CodeAddress(g, t.copy, t.cluster);
  }

  lemma WriteBackKeepsDisk(g: Geometry, disk0: seq<Sector>, s: Sys, i: nat)
    requires Inv(g, disk0, s) && Enabled(g, s, i, WriteBack(true))
    ensures DiskIsReplay(g, disk0, Step(g, s, i, WriteBack(true)))
  {
    hide Step, HolderOk, Replay, SectorOff, InSectorOff, Modify, Base, Fits, CopyIsReplay, AtMostOneHolder, LogComplete, ThreadsInFat;
    var r := Step(g, s, i, WriteBack(true));
    WriteBackStep(g, disk0, s, i);
    forall copy: nat | copy < g.numFats ensures CopyIsReplay(g, disk0, r, copy) {
      WriteBackKeepsCopies(g, disk0, s, s.threads[i], r, copy);
    }
  }

  lemma WriteBackKeeps(g: Geometry, disk0: seq<Sector>, s: Sys, i: nat)
    requires Inv(g, disk0, s) && Enabled(g, s, i, WriteBack(true))
    ensures Inv(g, disk0, Step(g, s, i, WriteBack(true)))
  {
    var t := s.threads[i];
    var r := Step(g, s, i, WriteBack(true));
    WriteBackKeepsDisk(g, disk0, s, i);
    CodeAddress(g, t.copy, t.cluster);
    assert HolderOk(g, s, t) && s.locked && r.threads[i].Holds();
    hide DiskIsReplay, SectorOff, InSectorOff, Modify, Base, InFat;
    assert forall j | 0 <= j < |s.threads| && j != i :: r.threads[j] == s.threads[j];
  }

  lemma ReadKeeps(g: Geometry, disk0: seq<Sector>, s: Sys, i: nat, ok: bool)
    requires Inv(g, disk0, s) && Enabled(g, s, i, Read(ok))
    ensures Inv(g, disk0, Step(g, s, i, Read(ok)))
  {
    var t := s.threads[i];
    assert HolderOk(g, s, t);
    CurInFat(g, s.disk, t.copy, t.cluster);
    CodeAddress(g, t.copy, t.cluster);
    hide DiskIsReplay, InSectorOff, Modify, LogComplete, Base, SectorOff, CodeSector, CodeOffset;
    var cur := Base(g, t.copy) + SectorOff(t.cluster);
    var u := if ok then Writing(t.cluster, t.value, t.copy, Modify(s.disk[cur], InSectorOff(t.cluster), t.value))
             else Releasing(t.copy);
    MoveInside(g, disk0, s, i, u, if ok then s.faults else s.faults + 1);
  }

  lemma StepKeepsInv(g: Geometry, disk0: seq<Sector>, s: Sys, i: nat, a: Action)
    requires Inv(g, disk0, s) && Enabled(g, s, i, a)
    ensures Inv(g, disk0, Step(g, s, i, a))
  {
    hide DiskIsReplay, LogComplete, AtMostOneHolder, Fits, Modify, Base, SectorOff, InSectorOff, CodeSector, CodeOffset;
    var t := s.threads[i];
    match a
    case Call(c, v) => MoveOutside(g, disk0, s, i, Acquiring(c, v));
    case TestAndSet =>
      if s.locked {
        MoveOutside(g, disk0, s, i, Waiting(t.cluster, t.value));
      } else {
        AcquireKeeps(g, disk0, s, i);
      }
    case Probe => if !s.locked { MoveOutside(g, disk0, s, i, Acquiring(t.cluster, t.value)); }
    case Read(ok) => ReadKeeps(g, disk0, s, i, ok);
    case LoopExit =>
      assert HolderOk(g, s, t);
      MoveInside(g, disk0, s, i, Releasing(t.copy), s.faults);
    case WriteBack(ok) =>
      assert HolderOk(g, s, t);
      if ok {
        WriteBackKeeps(g, disk0, s, i);
      } else {
        MoveInside(g, disk0, s, i, Releasing(t.copy), s.faults + 1);
      }
    case Release => ReleaseKeeps(g, disk0, s, i);
  }

  // ----- whole runs

  function Start(n: nat, disk0: seq<Sector>): Sys {
    Sys(false, seq(n, _ => Idle), disk0, [], 0)
  }

  ghost predicate Run(g: Geometry, s: Sys, steps: seq<(nat, Action)>, r: Sys)
    decreases |steps|
  {
    if steps == [] then s == r
    else Enabled(g, s, steps[0].0, steps[0].1) && Run(g, Step(g, s, steps[0].0, steps[0].1), steps[1..], r)
  }

  lemma {:induction false} RunKeepsInv(g: Geometry, disk0: seq<Sector>, s: Sys, steps: seq<(nat, Action)>, r: Sys)
    requires Inv(g, disk0, s) && Run(g, s, steps, r)
    ensures Inv(g, disk0, r)
    decreases |steps|
  {
    hide Inv;
    if steps != [] {
      StepKeepsInv(g, disk0, s, steps[0].0, steps[0].1);
      RunKeepsInv(g, disk0, Step(g, s, steps[0].0, steps[0].1), steps[1..], r);
    }
  }

  lemma StartInv(g: Geometry, n: nat, disk0: seq<Sector>)
    requires Fits(g, disk0)
    ensures Inv(g, disk0, Start(n, disk0))
  {
    var s := Start(n, disk0);
    forall copy: nat | copy < g.numFats ensures CopyIsReplay(g, disk0, s, copy) {
      MulMonotone(copy + 1, g.numFats, g.fatSize);
    }
  }

  /** Main result, failures included: mutual exclusion, and every mirror is its own replay of the log. */
  lemma UpdatesAreSerialised(g: Geometry, n: nat, disk0: seq<Sector>, steps: seq<(nat, Action)>, r: Sys)
    requires Fits(g, disk0) && Run(g, Start(n, disk0), steps, r)
    ensures forall i, j | 0 <= i < |r.threads| && 0 <= j < |r.threads| && r.threads[i].Holds() && r.threads[j].Holds() :: i == j
    ensures |r.disk| == |disk0| && forall copy: nat | copy < g.numFats :: CopyIsReplay(g, disk0, r, copy)
    ensures forall x | 0 <= x < |disk0| && !(g.reserved <= x < g.reserved + g.numFats * g.fatSize) :: r.disk[x] == disk0[x]
  {
    StartInv(g, n, disk0);
    RunKeepsInv(g, disk0, Start(n, disk0), steps, r);
  }

  /** All logged writes applied in acquisition order. */
  function ApplyAll(fat: seq<Sector>, log: seq<Write>): (r: seq<Sector>)
    ensures |r| == |fat|
  {
    if log == [] then fat
    else
      var w := log[|log| - 1];
      Updated(ApplyAll(fat, log[..|log| - 1]), w.cluster, w.value)
  }

  lemma {:induction false} ReplayComplete(g: Geometry, fat: seq<Sector>, log: seq<Write>, copy: nat)
    requires copy < g.numFats && forall k | 0 <= k < |log| :: log[k].done == g.numFats
    ensures Replay(fat, log, copy) == ApplyAll(fat, log)
  {
    if log != [] {
      ReplayComplete(g, fat, log[..|log| - 1], copy);
    }
  }

  /** With no disk error, whenever the lock is free mirrors that agreed still agree, and equal the serial result. */
  lemma MirrorsAgree(g: Geometry, n: nat, disk0: seq<Sector>, steps: seq<(nat, Action)>, r: Sys, copy: nat, other: nat)
    requires Fits(g, disk0) && Run(g, Start(n, disk0), steps, r) && r.faults == 0 && !r.locked
    requires copy < g.numFats && other < g.numFats
    ensures |r.disk| == |disk0| && Base(g, copy) + g.fatSize <= |disk0| && Base(g, other) + g.fatSize <= |disk0|
    ensures Copy(g, r.disk, copy) == ApplyAll(Copy(g, disk0, copy), r.log)
    ensures Copy(g, disk0, copy) == Copy(g, disk0, other) ==> Copy(g, r.disk, copy) == Copy(g, r.disk, other)
  {
    StartInv(g, n, disk0);
    RunKeepsInv(g, disk0, Start(n, disk0), steps, r);
    assert CopyIsReplay(g, disk0, r, copy) && CopyIsReplay(g, disk0, r, other);
    ReplayComplete(g, Copy(g, disk0, copy), r.log, copy);
    ReplayComplete(g, Copy(g, disk0, other), r.log, other);
  }

  // ----- the effect of one write on the entries

  function FatEntry(fat: seq<Sector>, cluster: nat): nat
    requires SectorOff(cluster) < |fat|
  {
    U32At(fat[SectorOff(cluster)], InSectorOff(cluster))
  }

  /** A write changes the low 28 bits of the named entry and leaves every other entry alone. */
  lemma UpdateIsOneEntry(fat: seq<Sector>, cluster: nat, value: nat, other: nat)
    requires SectorOff(cluster) < |fat| && SectorOff(other) < |fat|
    ensures var e := FatEntry(Updated(fat, cluster, value), other);
      if other == cluster then e / LOW28 == FatEntry(fat, cluster) / LOW28 && e % LOW28 == value % LOW28
      else e == FatEntry(fat, other)
  {
    var s := fat[SectorOff(cluster)];
    var v := NewEntry(U32At(s, InSectorOff(cluster)), value);
    DivMod(cluster * 4, BPS);
    DivMod(other * 4, BPS);
    if SectorOff(other) == SectorOff(cluster) {
      SetU32Reads(s, InSectorOff(cluster), v, InSectorOff(other));
    }
  }

  /** The value an entry ends up with: the last logged write to it, upper four bits as before. */
  function LastValue(log: seq<Write>, cluster: nat): Option<nat> {
    if log == [] then None
    else if log[|log| - 1].cluster == cluster then Some(log[|log| - 1].value % LOW28)
    else LastValue(log[..|log| - 1], cluster)
  }

  lemma {:induction false} SerialEntry(g: Geometry, fat: seq<Sector>, log: seq<Write>, cluster: nat)
    requires |fat| == g.fatSize && InFat(g, cluster) && forall k | 0 <= k < |log| :: InFat(g, log[k].cluster)
    ensures SectorOff(cluster) < g.fatSize
    ensures var e := FatEntry(ApplyAll(fat, log), cluster);
      && e / LOW28 == FatEntry(fat, cluster) / LOW28
      && e % LOW28 == LastValue(log, cluster).GetOr(FatEntry(fat, cluster) % LOW28)
  {
    DivBound(cluster * 4, g.fatSize, BPS);
    if log != [] {
      var w, before := log[|log| - 1], log[..|log| - 1];
      DivBound(w.cluster * 4, g.fatSize, BPS);
      SerialEntry(g, fat, before, cluster);
      UpdateIsOneEntry(ApplyAll(fat, before), w.cluster, w.value, cluster);
    }
  }

  /** Main result on entries: in every quiescent state of a fault-free run each copy holds the last logged values. */
  lemma QuiescentEntries(g: Geometry, n: nat, disk0: seq<Sector>, steps: seq<(nat, Action)>, r: Sys, copy: nat, cluster: nat)
    requires Fits(g, disk0) && Run(g, Start(n, disk0), steps, r) && r.faults == 0 && !r.locked
    requires copy < g.numFats && InFat(g, cluster)
    ensures |r.disk| == |disk0| && Base(g, copy) + g.fatSize <= |disk0| && SectorOff(cluster) < g.fatSize
    ensures var e, e0 := FatEntry(Copy(g, r.disk, copy), cluster), FatEntry(Copy(g, disk0, copy), cluster);
      && e / LOW28 == e0 / LOW28
      && e % LOW28 == LastValue(r.log, cluster).GetOr(e0 % LOW28)
  {
    MirrorsAgree(g, n, disk0, steps, r, copy, copy);
    StartInv(g, n, disk0);
    RunKeepsInv(g, disk0, Start(n, disk0), steps, r);
    hide Run, DiskIsReplay, AtMostOneHolder, ThreadsInFat, Replay, InSectorOff, Modify;
    SerialEntry(g, Copy(g, disk0, copy), r.log, cluster);
  }
}
