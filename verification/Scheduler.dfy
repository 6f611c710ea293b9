/** The cooperative scheduler of kernel/scheduler: what a run of dotask calls, as a function of the pool. */
module Scheduler {
  import opened Machine

  const POOL_SIZE: nat := 64
  const ROUNDS: nat := 10

  datatype Level = Running | Ready | Waiting | Terminated | Priority

  /** A task as createtask is given it; function 0 is the null pointer. */
  datatype Entry = Entry(level: Level, fn: nat)

  datatype Task = Task(pid: nat, level: Level, timeslice: nat, next: Option<nat>, fn: nat)

  /** Task i of n: numbered from 1 and linked to its successor. */
  predicate Linked(t: Task, i: nat, n: nat) {
    t.pid == i + 1 && t.timeslice == 5 && t.next == if i + 1 < n then Some(i + 1) else None
  }

  function EntryOf(t: Task): Entry { Entry(t.level, t.fn) }

  function EntriesOf(ts: seq<Task>): (es: seq<Entry>)
    ensures |es| == |ts| && forall i | 0 <= i < |ts| :: es[i] == EntryOf(ts[i])
  {
    seq(|ts|, i requires 0 <= i < |ts| => EntryOf(ts[i]))
  }

  const UNUSED: Task := Task(0, Running, 0, None, 0)

  // ----- the priority pass

  predicate Urgent(e: Entry) { e.level == Priority && e.fn != 0 }

  function AfterPass(e: Entry): Entry { if Urgent(e) then e.(level := Terminated) else e }

  function TwiceOf(e: Entry): seq<nat> { if Urgent(e) then [e.fn, e.fn] else [] }

  function Twice(es: seq<Entry>, k: nat): seq<nat>
    requires k <= |es|
  {
    if k == 0 then [] else Twice(es, k - 1) + TwiceOf(es[k - 1])
  }

  /** Calls of the priority pass: each urgent function twice, provided the function of the head task is listed. */
  function PriorityCalls(es: seq<Entry>, listed: seq<nat>): seq<nat> {
    if es != [] && es[0].fn in listed then Twice(es, |es|) else []
  }

  // ----- the walk

  predicate Blocks(e: Entry) { e.level in {Running, Terminated, Priority} || e.fn == 0 }

  /** How far the walk gets from task i: to the first blocking task, the end of the pool, or ten tasks. */
  function ReachFrom(es: seq<Entry>, i: nat): (r: nat)
    requires i <= |es| && i <= ROUNDS
    ensures i <= r <= |es| && r <= ROUNDS
    ensures forall j | i <= j < r :: !Blocks(es[j])
    ensures r == ROUNDS || r == |es| || Blocks(es[r])
    decreases |es| - i
  {
    if i == ROUNDS || i == |es| || Blocks(es[i]) then i else ReachFrom(es, i + 1)
  }

  /** The listed functions of the first k tasks, in pool order. */
  function WalkCalls(es: seq<Entry>, listed: seq<nat>, k: nat): seq<nat>
    requires k <= |es|
  {
    if k == 0 then [] else WalkCalls(es, listed, k - 1) + if es[k - 1].fn in listed then [es[k - 1].fn] else []
  }

  /** Everything one run calls, in order. */
  function Trace(es: seq<Entry>, listed: seq<nat>): seq<nat> {
    PriorityCalls(es, listed) + WalkCalls(es, listed, ReachFrom(es, 0))
  }

  function AfterRun(es: seq<Entry>): seq<Entry> {
    seq(|es|, i requires 0 <= i < |es| => AfterPass(es[i]))
  }

  // ----- the calls of a run, position by position

  ghost predicate Rising(s: seq<nat>) { forall j, k | 0 <= j < k < |s| :: s[j] < s[k] }

  /** Exactly the tasks among the first k that are urgent: level TASK_PRIORITY, and not null. */
  ghost predicate AreUrgent(es: seq<Entry>, k: nat, urgent: seq<nat>) {
    && Rising(urgent) && (forall i | i in urgent :: i < k <= |es|)
    && forall i: nat | i < k <= |es| :: i in urgent <==> es[i].level == Priority && es[i].fn != 0
  }

  /** Exactly the tasks among the first k that the walk reaches and may call. */
  ghost predicate AreWalked(es: seq<Entry>, listed: seq<nat>, k: nat, walked: seq<nat>) {
    && Rising(walked) && (forall i | i in walked :: i < k <= |es|)
    && forall i: nat | i < k <= |es| :: i in walked <==> es[i].fn in listed
  }

  lemma RisingSnoc(s: seq<nat>, x: nat)
    requires Rising(s) && forall i | i in s :: i < x
    ensures Rising(s + [x]) && forall i :: i in s + [x] <==> i in s || i == x
  {
    forall j, k | 0 <= j < k < |s + [x]| ensures (s + [x])[j] < (s + [x])[k] {
      assert s[j] in s;
    }
  }

  /** Two calls in a row for each of the tasks named. */
  ghost predicate CalledTwice(es: seq<Entry>, urgent: seq<nat>, calls: seq<nat>) {
    |calls| == 2 * |urgent| && forall i: nat | i < |calls| :: i / 2 < |urgent| && urgent[i / 2] < |es| && calls[i] == es[urgent[i / 2]].fn
  }

  ghost predicate CalledOnce(es: seq<Entry>, walked: seq<nat>, calls: seq<nat>) {
    |calls| == |walked| && forall i: nat | i < |calls| :: walked[i] < |es| && calls[i] == es[walked[i]].fn
  }

  lemma CalledTwiceSnoc(es: seq<Entry>, urgent: seq<nat>, calls: seq<nat>, x: nat)
    requires CalledTwice(es, urgent, calls) && x < |es|
    ensures CalledTwice(es, urgent + [x], calls + [es[x].fn, es[x].fn])
  {
    var more, us := calls + [es[x].fn, es[x].fn], urgent + [x];
    forall i: nat | i < |more| ensures i / 2 < |us| && us[i / 2] < |es| && more[i] == es[us[i / 2]].fn {
      if i >= |calls| { assert i / 2 == |urgent|; }
    }
  }

  lemma CalledOnceSnoc(es: seq<Entry>, walked: seq<nat>, calls: seq<nat>, x: nat)
    requires CalledOnce(es, walked, calls) && x < |es|
    ensures CalledOnce(es, walked + [x], calls + [es[x].fn])
  {
  }

  lemma NobodyYet(es: seq<Entry>, listed: seq<nat>)
    ensures AreUrgent(es, 0, []) && CalledTwice(es, [], Twice(es, 0))
    ensures AreWalked(es, listed, 0, []) && CalledOnce(es, [], WalkCalls(es, listed, 0))
  {
  }

  lemma AreUrgentSnoc(es: seq<Entry>, k: nat, urgent: seq<nat>)
    requires k < |es| && AreUrgent(es, k, urgent)
    ensures AreUrgent(es, k + 1, if es[k].level == Priority && es[k].fn != 0 then urgent + [k] else urgent)
  {
    RisingSnoc(urgent, k);
    hide Rising;
  }

  lemma AreWalkedSnoc(es: seq<Entry>, listed: seq<nat>, k: nat, walked: seq<nat>)
    requires k < |es| && AreWalked(es, listed, k, walked)
    ensures AreWalked(es, listed, k + 1, if es[k].fn in listed then walked + [k] else walked)
  {
    RisingSnoc(walked, k);
    hide Rising;
  }

  lemma TwiceNext(es: seq<Entry>, k: nat)
    requires k < |es|
    ensures Twice(es, k + 1)
      == if es[k].level == Priority && es[k].fn != 0 then Twice(es, k) + [es[k].fn, es[k].fn] else Twice(es, k)
  {
    assert Twice(es, k) + [] == Twice(es, k);
  }

  lemma WalkNext(es: seq<Entry>, listed: seq<nat>, k: nat)
    requires k < |es|
    ensures WalkCalls(es, listed, k + 1)
      == if es[k].fn in listed then WalkCalls(es, listed, k) + [es[k].fn] else WalkCalls(es, listed, k)
  {
    assert WalkCalls(es, listed, k) + [] == WalkCalls(es, listed, k);
  }

  lemma {:induction false} TwiceIs(es: seq<Entry>, k: nat) returns (urgent: seq<nat>)
    requires k <= |es|
    ensures AreUrgent(es, k, urgent) && CalledTwice(es, urgent, Twice(es, k))
    decreases k
  {
    hide AreUrgent, CalledTwice, Twice;
    NobodyYet(es, []);
    if k == 0 {
      urgent := [];
    } else {
      var before := TwiceIs(es, k - 1);
      AreUrgentSnoc(es, k - 1, before);
      CalledTwiceSnoc(es, before, Twice(es, k - 1), k - 1);
      var urgentNow := es[k - 1].level == Priority && es[k - 1].fn != 0;
      TwiceNext(es, k - 1);
      urgent := if urgentNow then before + [k - 1] else before;
    }
  }

  lemma {:induction false} WalkIs(es: seq<Entry>, listed: seq<nat>, k: nat) returns (walked: seq<nat>)
    requires k <= |es|
    ensures AreWalked(es, listed, k, walked) && CalledOnce(es, walked, WalkCalls(es, listed, k))
    decreases k
  {
    hide AreWalked, CalledOnce, WalkCalls, AreUrgent, CalledTwice, Twice;
    NobodyYet(es, listed);
    if k == 0 {
      walked := [];
    } else {
      var before := WalkIs(es, listed, k - 1);
      AreWalkedSnoc(es, listed, k - 1, before);
      CalledOnceSnoc(es, before, WalkCalls(es, listed, k - 1), k - 1);
      WalkNext(es, listed, k - 1);
      walked := if es[k - 1].fn in listed then before + [k - 1] else before;
    }
  }

  /** How far a run walks: every task before is ready or waiting and not null, and ten tasks, the end or another task stop it. */
  ghost predicate WalksTo(es: seq<Entry>, k: nat) {
    && k <= |es| && k <= 10
    && (forall i | 0 <= i < k :: (es[i].level == Ready || es[i].level == Waiting) && es[i].fn != 0)
    && (k < 10 && k < |es| ==> (es[k].level != Ready && es[k].level != Waiting) || es[k].fn == 0)
  }

  /**
   Main result on the order of calls: first every urgent function twice in pool order, if the head of
   the pool is listed, then the listed functions of the tasks that the walk reaches, once each.
   */
  lemma CallsOfRun(es: seq<Entry>, listed: seq<nat>)
    returns (urgent: seq<nat>, walked: seq<nat>, k: nat, first: seq<nat>, then': seq<nat>)
    ensures AreUrgent(es, |es|, urgent) && WalksTo(es, k) && AreWalked(es, listed, k, walked)
    ensures Trace(es, listed) == first + then'
    ensures if es != [] && es[0].fn in listed then CalledTwice(es, urgent, first) else first == []
    ensures CalledOnce(es, walked, then')
  {
    hide AreUrgent, AreWalked, CalledTwice, CalledOnce, Twice, WalkCalls;
    k := ReachFrom(es, 0);
    assert forall e :: Blocks(e) <==> (e.level != Ready && e.level != Waiting) || e.fn == 0;
    hide Blocks;
    urgent := TwiceIs(es, |es|);
    walked := WalkIs(es, listed, k);
    first, then' := PriorityCalls(es, listed), WalkCalls(es, listed, k);
  }

  /** The pool after a run: urgent tasks have become terminated, and nothing else has changed. */
  lemma PoolAfterRun(es: seq<Entry>, i: nat)
    requires i < |es|
    ensures |AfterRun(es)| == |es| && AfterRun(es)[i].fn == es[i].fn
    ensures AfterRun(es)[i].level == if es[i].level == Priority && es[i].fn != 0 then Terminated else es[i].level
  {
  }

  lemma OneTask(t: Task)
    ensures Urgent(EntryOf(t)) <==> t.level == Priority && t.fn != 0
    ensures t.level != Priority ==> AfterPass(EntryOf(t)) == EntryOf(t) && TwiceOf(EntryOf(t)) == []
  {
  }

  lemma TwiceStart(es: seq<Entry>)
    ensures Twice(es, 0) == []
  {
  }

  lemma TwiceStep(es: seq<Entry>, j: nat, before: seq<nat>)
    requires j < |es|
    ensures before + Twice(es, j + 1) == (before + Twice(es, j)) + TwiceOf(es[j])
  {
  }

  lemma {:induction false} TwiceOfCalm(es: seq<Entry>, k: nat)
    requires k <= |es| && forall i | 0 <= i < k :: !Urgent(es[i])
    ensures Twice(es, k) == []
    decreases k
  {
    if k > 0 { TwiceOfCalm(es, k - 1); }
  }

  lemma {:induction false} WalkDependsOnFunctions(es: seq<Entry>, fs: seq<Entry>, listed: seq<nat>, k: nat)
    requires k <= |es| && k <= |fs| && forall i | 0 <= i < k :: es[i].fn == fs[i].fn
    ensures WalkCalls(es, listed, k) == WalkCalls(fs, listed, k)
    decreases k
  {
    if k > 0 { WalkDependsOnFunctions(es, fs, listed, k - 1); }
  }

  /** The longest prefix is unique: any k with the three defining facts is where the walk ends. */
  lemma {:induction false} ReachIsLongest(es: seq<Entry>, i: nat, k: nat)
    requires i <= k <= |es| && k <= ROUNDS && (forall j | i <= j < k :: !Blocks(es[j]))
    requires k == ROUNDS || k == |es| || Blocks(es[k])
    ensures ReachFrom(es, i) == k
    decreases k - i
  {
    if i < k { ReachIsLongest(es, i + 1, k); }
  }

  // ----- round by round

  /** The task the walk stands at when round i starts: task i, or the blocking task it will not leave. */
  function Cursor(es: seq<Entry>, i: nat): Option<nat> {
    var at := if i < ReachFrom(es, 0) then i else ReachFrom(es, 0);
    if at < |es| || i == 0 then Some(at) else None
  }

  /** The calls made before round i runs its own task. */
  function CallsBy(es: seq<Entry>, listed: seq<nat>, i: nat): seq<nat> {
    PriorityCalls(es, listed) + WalkCalls(es, listed, if i < ReachFrom(es, 0) then i else ReachFrom(es, 0))
  }

  /** Round i is reached only past a runnable task or a blocking task that does not end the rounds. */
  predicate Going(es: seq<Entry>, i: nat) {
    var reach := ReachFrom(es, 0);
    reach < i ==> reach < |es| && (AfterPass(es[reach]).level == Terminated || es[reach].fn == 0)
  }

  /** The head's function is what the priority pass of round 0 asks for; an empty pool has a null head. */
  lemma FirstPass(es: seq<Entry>, listed: seq<nat>, head: Task)
    requires 0 !in listed && if es == [] then head == UNUSED else EntryOf(head) == es[0]
    ensures CallsBy(es, listed, 0) == if head.fn in listed then Twice(es, |es|) else []
  {
    TwiceStart(es);
  }

  lemma StartOfRun(es: seq<Entry>)
    ensures Cursor(es, 0) == Some(0) && Going(es, 0)
  {
  }

  lemma SpentPass(es: seq<Entry>)
    ensures forall e | e in AfterRun(es) :: !Urgent(e)
    ensures Twice(AfterRun(es), |AfterRun(es)|) == [] && AfterRun(AfterRun(es)) == AfterRun(es)
  {
    TwiceOfCalm(AfterRun(es), |es|);
  }

  /** A Running task at position i, or the end of the pool, ends the run with all calls made. */
  lemma RunningStops(es: seq<Entry>, listed: seq<nat>, i: nat)
    requires i < ROUNDS && (i < |es| ==> AfterPass(es[i]).level == Running)
    ensures CallsBy(es, listed, i) == Trace(es, listed)
  {
    forall j | 0 <= j < ReachFrom(es, 0) ensures AfterPass(es[j]).level != Running {
      assert !Blocks(es[j]);
    }
  }

  lemma RoundsStop(es: seq<Entry>, listed: seq<nat>)
    ensures CallsBy(es, listed, ROUNDS) == Trace(es, listed)
  {
  }

  lemma CursorInside(es: seq<Entry>, i: nat)
    requires Cursor(es, i).Some? && |es| <= POOL_SIZE
    ensures Cursor(es, i).value < POOL_SIZE
  {
  }

  lemma FunctionKept(e: Entry)
    ensures AfterPass(e).fn == e.fn
  {
  }

  /** What round i does at the task t of its cursor. */
  lemma Round(es: seq<Entry>, listed: seq<nat>, i: nat, before: seq<nat>)
    requires i < |es| && i < ROUNDS && AfterPass(es[i]).level != Running && Going(es, i)
    ensures Cursor(es, i).Some? && Cursor(es, i).value < |es| && Going(es, i + 1)
    ensures var at := Cursor(es, i).value;
      var skipped := AfterPass(es[at]).level == Terminated || es[at].fn == 0;
      && Cursor(es, i + 1) == (if skipped then Cursor(es, i) else if at + 1 < |es| then Some(at + 1) else None)
      && before + CallsBy(es, listed, i + 1)
         == (before + CallsBy(es, listed, i)) + if !skipped && es[at].fn in listed then [es[at].fn] else []
  {
    var reach := ReachFrom(es, 0);
    if i < reach { assert !Blocks(es[i]); }
    if reach > 0 { assert !Blocks(es[0]); }
  }

  /** A second run repeats the walk and nothing else: priority tasks are spent. */
  lemma SecondRunOnlyWalks(es: seq<Entry>, listed: seq<nat>)
    ensures Trace(AfterRun(es), listed) == WalkCalls(es, listed, ReachFrom(es, 0))
    ensures AfterRun(AfterRun(es)) == AfterRun(es)
  {
    var next, k := AfterRun(es), ReachFrom(es, 0);
    TwiceOfCalm(next, |next|);
    assert forall i | 0 <= i < |es| :: Blocks(next[i]) <==> Blocks(es[i]);
    ReachIsLongest(next, 0, k);
    WalkDependsOnFunctions(es, next, listed, k);
    assert Trace(next, listed) == [] + WalkCalls(next, listed, k);
  }

  /** Tasks behind a blocking task never run as normal tasks, however often dotask is called. */
  lemma BlockedTailIsIgnored(es: seq<Entry>, more: seq<Entry>, listed: seq<nat>)
    requires exists b :: 0 <= b < |es| && Blocks(es[b])
    ensures WalkCalls(es + more, listed, ReachFrom(es + more, 0)) == WalkCalls(es, listed, ReachFrom(es, 0))
  {
    var k := ReachFrom(es, 0);
    assert k < |es| || k == ROUNDS;
    assert forall j | 0 <= j < |es| :: (es + more)[j] == es[j];
    ReachIsLongest(es + more, 0, k);
    WalkDependsOnFunctions(es, es + more, listed, k);
  }

  /** A walk serves the whole pool exactly when it has at most ten tasks and none of them blocks. */
  lemma WholePoolExactlyWhen(es: seq<Entry>)
    ensures ReachFrom(es, 0) == |es| <==> |es| <= ROUNDS && forall e | e in es :: !Blocks(e)
  {
    if |es| <= ROUNDS && forall e | e in es :: !Blocks(e) { ReachIsLongest(es, 0, |es|); }
  }
}

/** createtask, is_function_valid and dotask as code over the pool and its Next chain. */
module SchedulerCode {
  import opened Machine
  import opened Scheduler

  class TaskScheduler {
    const pool: array<Task>
    const functions: seq<nat>    // FunctionList
    var count: nat
    var called: seq<nat>          // functions called so far, oldest first

    ghost predicate Valid()
      reads this, pool
    {
      && pool.Length == POOL_SIZE && count <= POOL_SIZE && 0 !in functions
      && (forall i: nat | i < count :: Linked(pool[i], i, count))
      && forall i: nat | count <= i < POOL_SIZE :: pool[i] == UNUSED
    }

    ghost function Value(): seq<Entry>
      requires count <= pool.Length
      reads this, pool
    {
      EntriesOf(pool[..count])
    }

    constructor (list: seq<nat>)
      requires 0 !in list
      ensures Valid() && Value() == [] && called == [] && functions == list && fresh(pool)
    {
      pool := new Task[POOL_SIZE](_ => UNUSED);
      functions, count, called := list, 0, [];
    }

    /** A full pool ignores the request. */
    method CreateTask(fn: nat, level: Level)
      requires Valid()
      modifies this`count, pool
      ensures Valid()
      ensures Value() == if old(count) < 64 then old(Value()) + [Entry(level, fn)] else old(Value())
    {
      if count >= POOL_SIZE { return; }
      pool[count] := pool[count].(pid := count + 1, level := level, timeslice := 5, fn := fn);
      if count == 0 {
        pool[count] := pool[count].(next := None);
      } else {
        pool[count - 1] := pool[count - 1].(next := Some(count));
      }
      count := count + 1;
    }

    method IsFunctionValid(f: nat) returns (valid: bool)
      ensures valid <==> f in functions
    {
      for i := 0 to |functions|
        invariant f !in functions[..i]
      {
        if functions[i] == f { return true; }
      }
      valid := false;
    }

    /** Both rounds over one priority task; `current` is the task the walk stands at. */
    method RunUrgent(j: nat, current: Option<nat>)
      requires Valid() && j < count && pool[j].level == Priority
      requires (pool[j].fn != 0 ==> current.Some?) && (current.Some? ==> current.value < POOL_SIZE)
      modifies this`called, pool
      ensures Valid() && forall i | 0 <= i < POOL_SIZE && i != j :: pool[i] == old(pool[i])
      ensures pool[j].fn == old(pool[j].fn) && EntryOf(pool[j]) == AfterPass(EntryOf(old(pool[j])))
      ensures called == old(called)
        + if current.Some? && old(pool[current.value].fn) in functions then TwiceOf(EntryOf(old(pool[j]))) else []
    {
      ghost var me := pool[j];
      for k: nat := 0 to 2
        invariant Valid() && forall i | 0 <= i < POOL_SIZE && i != j :: pool[i] == old(pool[i])
        invariant pool[j] == if me.fn == 0 || k == 0 then me else me.(level := Terminated)
        invariant called == old(called) + if me.fn != 0 && old(pool[current.value].fn) in functions then seq(k, _ => me.fn) else []
      {
        if pool[j].fn == 0 { continue; }
        var valid := IsFunctionValid(pool[current.value].fn);
        if valid {
          called := called + [pool[j].fn];
        }
        pool[j] := pool[j].(level := Terminated);
      }
    }

    /** The loop over all priority tasks that starts every round. */
    method PriorityPass(current: Option<nat>)
      requires Valid()
      requires current.None? ==> forall e | e in Value() :: !Urgent(e)
      requires current.Some? ==> current.value < POOL_SIZE
      modifies this`called, pool
      ensures Valid() && Value() == AfterRun(old(Value()))
      ensures current.Some? ==> pool[current.value].fn == old(pool[current.value].fn)
      ensures called == old(called)
        + if current.Some? && old(pool[current.value].fn) in functions then Twice(old(Value()), |old(Value())|) else []
    {
      hide Linked, Urgent, AfterPass, TwiceOf, EntryOf, Twice;
      ghost var es, before := Value(), called;
      assert before + [] == before && Twice(es, 0) == [] by { TwiceStart(es); }
      ghost var go := current.Some? && pool[current.value].fn in functions;
      for j := 0 to count
        invariant Valid()
        invariant forall i | 0 <= i < count :: EntryOf(pool[i]) == if i < j then AfterPass(es[i]) else es[i]
        invariant current.Some? ==> pool[current.value].fn == old(pool[current.value].fn)
        invariant called == before + if go then Twice(es, j) else []
      {
        assert EntryOf(pool[j]) == es[j] && es[j] in es;
        OneTask(pool[j]);
        ghost var sofar := called;
        TwiceStep(es, j, before);
        if pool[j].level == Priority {
          RunUrgent(j, current);
        }
        assert called == sofar + if go then TwiceOf(es[j]) else [];
      }
    }

    /** The part of a round that runs the current task; a terminated or null task keeps the walk where it is. */
    method RunCurrent(at: nat) returns (stays: bool)
      requires Valid() && at < POOL_SIZE
      modifies this`called
      ensures Valid() && Value() == old(Value())
      ensures stays <==> pool[at].level == Terminated || pool[at].fn == 0
      ensures called == old(called) + if !stays && pool[at].fn in functions then [pool[at].fn] else []
    {
      if pool[at].level == Terminated { return true; }
      if pool[at].fn == 0 { return true; }
      var valid := IsFunctionValid(pool[at].fn);
      if valid {
        called := called + [pool[at].fn];
      }
      stays := false;
    }

    /** What the invariant and the abstract pool say about slot j. */
    lemma Slot(j: nat)
      requires Valid() && j < POOL_SIZE
      ensures pool.Length == POOL_SIZE && |Value()| == count <= POOL_SIZE && 0 !in functions
      ensures if j < count then
                Value()[j] == EntryOf(pool[j]) && pool[j].next == if j + 1 < count then Some(j + 1) else None
              else
                pool[j] == UNUSED
    {
    }

    /** Round i of a run; `called` held before at its start, es is the pool the run began with. */
    method RunRound(i: nat, current: Option<nat>, ghost es: seq<Entry>, ghost before: seq<nat>)
      returns (stop: bool, next: Option<nat>)
      requires Valid() && Value() == (if i == 0 then es else AfterRun(es)) && i < ROUNDS
      requires current == Cursor(es, i) && Going(es, i)
      requires called == before + if i == 0 then [] else CallsBy(es, functions, i)
      modifies this`called, pool
      ensures Valid() && Value() == AfterRun(es)
      ensures stop ==> called == before + Trace(es, functions)
      ensures !stop ==> next == Cursor(es, i + 1) && Going(es, i + 1) && called == before + CallsBy(es, functions, i + 1)
    {
      hide Valid, Value, Urgent, Twice, CallsBy, Cursor, Going, Trace, AfterPass;
      Slot(0);
      if i == 0 { FirstPass(es, functions, pool[0]); StartOfRun(es); }
      SpentPass(es);
      if current.Some? { CursorInside(es, i); Slot(current.value); }
      PriorityPass(current);
      assert called == before + CallsBy(es, functions, i);
      Slot(i);
      if pool[i].level == Running {
        RunningStops(es, functions, i);
        return true, current;
      }
      Round(es, functions, i, before);
      FunctionKept(es[current.value]);
      Slot(current.value);
      var stays := RunCurrent(current.value);
      Slot(current.value);
      stop, next := false, if stays then current else pool[current.value].next;
    }

    /** One run: exactly the calls of Trace, and the priority tasks end up terminated. */
    method DoTask()
      requires Valid()
      modifies this`called, pool
      ensures Valid() && Value() == AfterRun(old(Value()))
      ensures called == old(called) + Trace(old(Value()), functions)
    {
      hide Valid, Value, CallsBy, Cursor, Going, Trace, AfterRun;
      Slot(0);
      ghost var es, before := Value(), called;
      StartOfRun(es);
      var current: Option<nat> := Some(0);
      for i: nat := 0 to ROUNDS
        invariant Valid() && Value() == if i == 0 then es else AfterRun(es)
        invariant current == Cursor(es, i) && Going(es, i)
        invariant called == before + if i == 0 then [] else CallsBy(es, functions, i)
      {
        var stop: bool;
        stop, current := RunRound(i, current, es, before);
        if stop { return; }
      }
      RoundsStop(es, functions);
    }
  }
}
