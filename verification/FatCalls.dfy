/**
 What a run of Fat32WriteFATEntry calls leaves in the FATs, read off the list of its steps: the
 requests of the threads in the order in which they got the lock.
 */
module FatCalls {
  import opened Machine
  import opened FatDisk
  import opened FatLock

  type Steps = seq<(nat, Action)>

  datatype Request = Request(cluster: nat, value: nat)

  // ----- what the list of steps says

  /** The arguments of the last call that thread i made. */
  function LastCall(steps: Steps, i: nat): Option<Request> {
    if steps == [] then None
    else
      var (j, a) := steps[|steps| - 1];
      if j == i && a.Call? then Some(Request(a.cluster, a.value)) else LastCall(steps[..|steps| - 1], i)
  }

  /** A test-and-set leaves the lock taken, a release leaves it free. */
  predicate Taken(steps: Steps) {
    steps != [] &&
    var a := steps[|steps| - 1].1;
    a.TestAndSet? || (!a.Release? && Taken(steps[..|steps| - 1]))
  }

  /** The calls in the order in which they got the lock. */
  function Requests(steps: Steps): seq<Request> {
    if steps == [] then []
    else
      var before, (i, a) := steps[..|steps| - 1], steps[|steps| - 1];
      if a.TestAndSet? && !Taken(before) && LastCall(before, i).Some? then Requests(before) + [LastCall(before, i).value]
      else Requests(before)
  }

  /** No disk command and no allocation failed. */
  predicate AllWell(steps: Steps) {
    forall k | 0 <= k < |steps| :: steps[k].1 != Read(false) && steps[k].1 != WriteBack(false)
  }

  /** The value that the last request for a cluster asked for. */
  function LastAsked(rs: seq<Request>, cluster: nat): Option<nat> {
    if rs == [] then None
    else if rs[|rs| - 1].cluster == cluster then Some(rs[|rs| - 1].value)
    else LastAsked(rs[..|rs| - 1], cluster)
  }

  // ----- the log says the same

  ghost predicate SameAs(log: seq<Write>, rs: seq<Request>) {
    |log| == |rs| && forall k | 0 <= k < |log| :: log[k].cluster == rs[k].cluster && log[k].value == rs[k].value
  }

  /** A thread inside a call works on the arguments of that call. */
  ghost predicate OnItsCall(t: Thread, call: Option<Request>) {
    match t
    case Acquiring(c, v) => call == Some(Request(c, v))
    case Waiting(c, v) => call == Some(Request(c, v))
    case Reading(c, v, _) => call == Some(Request(c, v))
    case Writing(c, v, _, _) => call == Some(Request(c, v))
    case _ => true
  }

  ghost predicate Explained(s: Sys, steps: Steps) {
    && s.locked == Taken(steps)
    && SameAs(s.log, Requests(steps))
    && (forall i | 0 <= i < |s.threads| :: OnItsCall(s.threads[i], LastCall(steps, i)))
    && (AllWell(steps) ==> s.faults == 0)
  }

  lemma Snoc(steps: Steps, i: nat, a: Action)
    ensures var more := steps + [(i, a)];
      && Taken(more) == (a.TestAndSet? || (!a.Release? && Taken(steps)))
      && Requests(more) == (if a.TestAndSet? && !Taken(steps) && LastCall(steps, i).Some? then Requests(steps) + [LastCall(steps, i).value] else Requests(steps))
      && (forall j :: LastCall(more, j) == if j == i && a.Call? then Some(Request(a.cluster, a.value)) else LastCall(steps, j))
      && (AllWell(more) ==> AllWell(steps) && a != Read(false) && a != WriteBack(false))
  {
    var more := steps + [(i, a)];
    assert more[..|more| - 1] == steps && more[|more| - 1] == (i, a);
    if AllWell(more) {
      forall k | 0 <= k < |steps| ensures steps[k].1 != Read(false) && steps[k].1 != WriteBack(false) {
        assert steps[k] == more[k];
      }
    }
  }

  lemma StepExplained(g: Geometry, disk0: seq<Sector>, s: Sys, steps: Steps, i: nat, a: Action)
    requires Inv(g, disk0, s) && Enabled(g, s, i, a) && Explained(s, steps)
    ensures Explained(Step(g, s, i, a), steps + [(i, a)])
  {
    hide DiskIsReplay, LogComplete, AtMostOneHolder, Modify, CodeSector, CodeOffset, Requests, Taken, LastCall, AllWell;
    Snoc(steps, i, a);
    var t, r := s.threads[i], Step(g, s, i, a);
    match a
    case Read(ok) => HolderFinds(g, disk0, s, i);
    case WriteBack(ok) => HolderFinds(g, disk0, s, i);
    case _ =>
  }

  /** The sector that the thread in the critical section reads or writes is on the disk. */
  lemma HolderFinds(g: Geometry, disk0: seq<Sector>, s: Sys, i: nat)
    requires Inv(g, disk0, s) && i < |s.threads| && (s.threads[i].Reading? || s.threads[i].Writing?)
    ensures s.log != []
    ensures var t := s.threads[i]; t.copy < g.numFats ==> CodeSector(g, t.copy, t.cluster) < |s.disk|
    ensures s.threads[i].Writing? ==> s.threads[i].copy < g.numFats
  {
    hide Modify, CodeSector, CodeOffset, Replay, CopyIsReplay, LogComplete, AtMostOneHolder;
    var t := s.threads[i];
    assert HolderOk(g, s, t);
    if t.copy < g.numFats {
      CurInFat(g, s.disk, t.copy, t.cluster);
      CodeAddress(g, t.copy, t.cluster);
    }
  }

  lemma {:induction false} RunExplained(g: Geometry, disk0: seq<Sector>, s: Sys, done: Steps, steps: Steps, r: Sys)
    requires Inv(g, disk0, s) && Explained(s, done) && Run(g, s, steps, r)
    ensures Inv(g, disk0, r) && Explained(r, done + steps)
    decreases |steps|
  {
    hide Inv, Explained;
    if steps == [] {
      assert done + steps == done;
    } else {
      var (i, a) := steps[0];
      StepKeepsInv(g, disk0, s, i, a);
      StepExplained(g, disk0, s, done, i, a);
      assert done + [(i, a)] + steps[1..] == done + steps;
      RunExplained(g, disk0, Step(g, s, i, a), done + [(i, a)], steps[1..], r);
    }
  }

  /** Main result, failures included: the log lists the calls in the order in which they got the lock, and the lock is as the steps left it. */
  lemma LogIsRequests(g: Geometry, n: nat, disk0: seq<Sector>, steps: Steps, r: Sys)
    requires Fits(g, disk0) && Run(g, Start(n, disk0), steps, r)
    ensures Inv(g, disk0, r) && r.locked == Taken(steps)
    ensures SameAs(r.log, Requests(steps)) && (AllWell(steps) ==> r.faults == 0)
  {
    StartInv(g, n, disk0);
    hide Inv, Run, OnItsCall;
    assert Explained(Start(n, disk0), []) by { StartExplained(n, disk0); }
    RunExplained(g, disk0, Start(n, disk0), [], steps, r);
    assert [] + steps == steps;
  }

  lemma StartExplained(n: nat, disk0: seq<Sector>)
    ensures Explained(Start(n, disk0), [])
  {
  }

  lemma {:induction false} LastLoggedIsLastAsked(log: seq<Write>, rs: seq<Request>, cluster: nat)
    requires SameAs(log, rs)
    ensures LastValue(log, cluster) == match LastAsked(rs, cluster) case None => None case Some(v) => Some(v % LOW28)
  {
    if log != [] {
      LastLoggedIsLastAsked(log[..|log| - 1], rs[..|rs| - 1], cluster);
    }
  }

  /** Entry cluster of a mirror holds what was asked for in its low 28 bits, its upper four as at the start. */
  ghost predicate HoldsAsked(g: Geometry, disk0: seq<Sector>, disk: seq<Sector>, copy: nat, cluster: nat, asked: Option<nat>) {
    var at := g.reserved + copy * g.fatSize;
    && |disk| == |disk0| && at + g.fatSize <= |disk0| && 4 * cluster + 4 <= 512 * g.fatSize
    && var e, e0 := FatWord(disk[at..at + g.fatSize], cluster), FatWord(disk0[at..at + g.fatSize], cluster);
       && e / 0x1000_0000 == e0 / 0x1000_0000
       && e % 0x1000_0000 == match asked case None => e0 % 0x1000_0000 case Some(v) => v % 0x1000_0000
  }

  /** Main result on entries: whenever the lock is free and nothing has failed, every mirror holds what the last call for each entry asked for. */
  lemma CallsReachEveryMirror(g: Geometry, n: nat, disk0: seq<Sector>, steps: Steps, r: Sys, copy: nat, cluster: nat)
    requires Fits(g, disk0) && Run(g, Start(n, disk0), steps, r) && AllWell(steps) && !Taken(steps)
    requires copy < g.numFats && 4 * cluster + 4 <= 512 * g.fatSize
    ensures HoldsAsked(g, disk0, r.disk, copy, cluster, LastAsked(Requests(steps), cluster))
  {
    hide Inv, Run, Fits, AllWell, Taken, Requests, FatEntry, FatWord, LastValue, LastAsked;
    LogIsRequests(g, n, disk0, steps, r);
    QuiescentEntries(g, n, disk0, steps, r, copy, cluster);
    LastLoggedIsLastAsked(r.log, Requests(steps), cluster);
    EntryIsWord(Copy(g, r.disk, copy), cluster);
    EntryIsWord(Copy(g, disk0, copy), cluster);
  }

  lemma EntryIsWord(fat: seq<Sector>, cluster: nat)
    requires 4 * cluster + 4 <= 512 * |fat|
    ensures SectorOff(cluster) < |fat| && FatEntry(fat, cluster) == FatWord(fat, cluster)
  {
    WordInSector(fat, cluster);
  }

  // ----- a call can always be completed

  lemma {:induction false} RunSnoc(g: Geometry, s: Sys, steps: Steps, m: Sys, i: nat, a: Action)
    requires Run(g, s, steps, m) && Enabled(g, m, i, a)
    ensures Run(g, s, steps + [(i, a)], Step(g, m, i, a))
    decreases |steps|
  {
    hide Step, Enabled;
    var more := steps + [(i, a)];
    if steps == [] {
      assert more[1..] == [];
    } else {
      assert more[1..] == steps[1..] + [(i, a)];
      RunSnoc(g, Step(g, s, steps[0].0, steps[0].1), steps[1..], m, i, a);
    }
  }

  /** The steps of a call by thread i up to its k-th mirror, and all of them for n mirrors. */
  function CallUpTo(i: nat, c: nat, v: nat, k: nat): Steps {
    if k == 0 then [(i, Call(c, v)), (i, TestAndSet)] else CallUpTo(i, c, v, k - 1) + [(i, Read(true)), (i, WriteBack(true))]
  }

  function WholeCall(i: nat, c: nat, v: nat, n: nat): Steps { CallUpTo(i, c, v, n) + [(i, LoopExit), (i, Release)] }

  /** One more step of a run that keeps the invariant. */
  lemma OneMore(g: Geometry, disk0: seq<Sector>, s: Sys, steps: Steps, m: Sys, i: nat, a: Action)
    requires Inv(g, disk0, m) && Run(g, s, steps, m) && Enabled(g, m, i, a)
    ensures Inv(g, disk0, Step(g, m, i, a)) && Run(g, s, steps + [(i, a)], Step(g, m, i, a))
  {
    hide Inv, Run, Step, Enabled;
    StepKeepsInv(g, disk0, m, i, a);
    RunSnoc(g, s, steps, m, i, a);
  }

  lemma {:induction false} CallRuns(g: Geometry, disk0: seq<Sector>, s: Sys, i: nat, c: nat, v: nat, k: nat) returns (m: Sys)
    requires Inv(g, disk0, s) && i < |s.threads| && s.threads[i].Idle? && !s.locked && InFat(g, c) && k <= g.numFats
    ensures Inv(g, disk0, m) && Run(g, s, CallUpTo(i, c, v, k), m)
    ensures i < |m.threads| && m.threads[i] == Reading(c, v, k) && m.faults == s.faults
  {
    hide Inv, Run, Modify, CodeSector, CodeOffset;
    if k == 0 {
      assert Run(g, s, [], s) by { EmptyRun(g, s); }
      assert [] + [(i, Call(c, v))] == [(i, Call(c, v))];
      OneMore(g, disk0, s, [], s, i, Call(c, v));
      m := Step(g, s, i, Call(c, v));
      OneMore(g, disk0, s, [(i, Call(c, v))], m, i, TestAndSet);
      m := Step(g, m, i, TestAndSet);
      assert [(i, Call(c, v))] + [(i, TestAndSet)] == CallUpTo(i, c, v, 0);
    } else {
      m := CallRuns(g, disk0, s, i, c, v, k - 1);
      var steps := CallUpTo(i, c, v, k - 1);
      HolderFinds(g, disk0, m, i);
      OneMore(g, disk0, s, steps, m, i, Read(true));
      m := Step(g, m, i, Read(true));
      HolderFinds(g, disk0, m, i);
      OneMore(g, disk0, s, steps + [(i, Read(true))], m, i, WriteBack(true));
      m := Step(g, m, i, WriteBack(true));
      assert steps + [(i, Read(true))] + [(i, WriteBack(true))] == CallUpTo(i, c, v, k);
    }
  }

  lemma EmptyRun(g: Geometry, s: Sys)
    ensures Run(g, s, [], s)
  {
  }

  /** From every state with a free lock a call of an idle thread runs to its end without a failure. */
  lemma CallCompletes(g: Geometry, disk0: seq<Sector>, s: Sys, i: nat, c: nat, v: nat) returns (r: Sys)
    requires Inv(g, disk0, s) && i < |s.threads| && s.threads[i].Idle? && !s.locked && 4 * c + 4 <= 512 * g.fatSize
    ensures Run(g, s, WholeCall(i, c, v, g.numFats), r) && AllWell(WholeCall(i, c, v, g.numFats))
    ensures Inv(g, disk0, r) && !r.locked && i < |r.threads| && r.threads[i].Idle? && r.faults == s.faults
  {
    hide Inv, Run, AllWell;
    var m := CallRuns(g, disk0, s, i, c, v, g.numFats);
    var steps := CallUpTo(i, c, v, g.numFats);
    OneMore(g, disk0, s, steps, m, i, LoopExit);
    r := Step(g, m, i, LoopExit);
    OneMore(g, disk0, s, steps + [(i, LoopExit)], r, i, Release);
    r := Step(g, r, i, Release);
    assert steps + [(i, LoopExit)] + [(i, Release)] == WholeCall(i, c, v, g.numFats);
    WellSoFar(i, c, v, g.numFats);
    assert AllWell(WholeCall(i, c, v, g.numFats)) by { WellAfter(steps, [(i, LoopExit), (i, Release)]); }
  }

  lemma {:induction false} WellSoFar(i: nat, c: nat, v: nat, k: nat)
    ensures AllWell(CallUpTo(i, c, v, k))
  {
    if k > 0 {
      WellSoFar(i, c, v, k - 1);
      WellAfter(CallUpTo(i, c, v, k - 1), [(i, Read(true)), (i, WriteBack(true))]);
    }
  }

  lemma WellAfter(steps: Steps, more: Steps)
    requires AllWell(steps) && forall k | 0 <= k < |more| :: more[k].1 != Read(false) && more[k].1 != WriteBack(false)
    ensures AllWell(steps + more)
  {
  }
}
