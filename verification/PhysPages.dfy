/** The next-fit page bitmap of kernel/memory/malloc.c: one step, and whole runs. */
module PhysPages {
  import opened Machine

  const TRACKED: nat := 8192
  const BASE: nat := 0x10_0000  // base_phys_addr

  datatype State = State(used: seq<bool>, last: nat)

  ghost predicate Valid(s: State) { |s.used| == TRACKED && s.last <= TRACKED }

  /** The lowest clear bit in [lo, hi). */
  function Scan(used: seq<bool>, lo: nat, hi: nat): (r: Option<nat>)
    requires lo <= hi <= |used|
    ensures r.Some? ==> lo <= r.value < hi && !used[r.value]
    ensures forall i | lo <= i < (if r.Some? then r.value else hi) :: used[i]
    decreases hi - lo
  {
    if lo == hi then None else if !used[lo] then Some(lo) else Scan(used, lo + 1, hi)
  }

  /** Where palloc_page looks: from the last position up, then from the bottom. */
  function Pick(s: State): Option<nat>
    requires Valid(s)
  {
    if Scan(s.used, s.last, TRACKED).Some? then Scan(s.used, s.last, TRACKED) else Scan(s.used, 0, s.last)
  }

  function Take(s: State): State
    requires Valid(s)
  {
    if Pick(s).None? then s else State(s.used[Pick(s).value := true], Pick(s).value + 1)
  }

  /** The two scans together miss nothing. */
  lemma PickIsComplete(s: State)
    requires Valid(s)
    ensures Pick(s).None? <==> forall i | 0 <= i < TRACKED :: s.used[i]
    ensures Pick(s).Some? ==> Pick(s).value < TRACKED && !s.used[Pick(s).value]
    ensures Valid(Take(s))
  {
  }

  /** Next fit: the lowest free page from the last position on, or, if there is none, the lowest of all. */
  lemma PickIsNextFit(s: State)
    requires Valid(s) && Pick(s).Some?
    ensures var i := Pick(s).value;
      && i < 8192 && !s.used[i]
      && (i >= s.last ==> forall j | s.last <= j < i :: s.used[j])
      && (i < s.last ==> (forall j | s.last <= j < 8192 :: s.used[j]) && forall j | 0 <= j < i :: s.used[j])
      && Take(s).last == i + 1 && |Take(s).used| == |s.used|
      && forall j | 0 <= j < 8192 :: Take(s).used[j] <==> s.used[j] || j == i
  {
  }

  /** The page whose bit free_phys_page clears, through uintptr_t and int. */
  function FreedIndex(addr: nat): Option<nat> {
    if addr < BASE then None
    else
      var index := ToInt32((addr - BASE) / PAGE);
      if 0 <= index < TRACKED then Some(index) else None
  }

  function Free(s: State, addr: nat): State
    requires Valid(s)
  {
    if FreedIndex(addr).None? then s else s.(used := s.used[FreedIndex(addr).value := false])
  }

  /** The conversion to int is harmless exactly when the page number does not alias a tracked one. */
  lemma FreesOwnPageExactlyWhen(addr: nat)
    requires addr >= BASE
    ensures var q := (addr - BASE) / PAGE;
      (FreedIndex(addr) == if q < TRACKED then Some(q) else None)
      <==> (q < TWO32 || q % TWO32 >= TRACKED)
  {
    var q := (addr - BASE) / PAGE;
    if q < TWO32 { DivUnique(q, TWO32, 0, q); }
  }

  /** Any address inside a page that was handed out gives that page back, and no other. */
  lemma PageGivenBack(s: State, i: nat, rest: nat)
    requires Valid(s) && i < 8192 && rest < 0x1000
    ensures var t := Free(s, 0x10_0000 + i * 0x1000 + rest);
      && t.last == s.last && |t.used| == |s.used|
      && forall j | 0 <= j < 8192 :: t.used[j] <==> s.used[j] && j != i
  {
    var addr := 0x10_0000 + i * 0x1000 + rest;
    DivUnique(addr - BASE, PAGE, i, rest);
    FreesOwnPageExactlyWhen(addr);
  }

  /** Freeing an address 2^44 above the first tracked page clears the bit of that page. */
  lemma FreeAliasesPageZero()
    ensures FreedIndex(BASE + 0x1000_0000_0000) == Some(0)
  {
    DivUnique(0x1000_0000_0000, PAGE, TWO32, 0);
  }

  // ----- runs

  datatype Op = Alloc | FreePage(addr: nat)

  function Step(s: State, op: Op): State
    requires Valid(s)
  {
    match op
    case Alloc => Take(s)
    case FreePage(addr) => Free(s, addr)
  }

  function Run(s: State, ops: seq<Op>): (r: State)
    requires Valid(s)
    ensures Valid(r)
    decreases |ops|
  {
    if ops == [] then s else Run(Step(s, ops[0]), ops[1..])
  }

  /** The page handed out by the k-th operation of a run, if it was a successful allocation. */
  function HandedOut(s: State, ops: seq<Op>, k: nat): Option<nat>
    requires Valid(s) && k < |ops|
    decreases k
  {
    if k == 0 then (if ops[0].Alloc? then Pick(s) else None) else HandedOut(Step(s, ops[0]), ops[1..], k - 1)
  }

  predicate Frees(op: Op, i: nat) { op.FreePage? && FreedIndex(op.addr) == Some(i) }

  /** A page in use is not handed out as long as nobody frees it: this is what a reservation is worth. */
  lemma {:induction false} UsedPageStaysOut(s: State, ops: seq<Op>, i: nat, k: nat)
    requires Valid(s) && i < TRACKED && s.used[i] && k < |ops|
    requires forall m | 0 <= m < k :: !Frees(ops[m], i)
    ensures HandedOut(s, ops, k) != Some(i)
    decreases k
  {
    if k > 0 {
      assert !Frees(ops[0], i);
      assert forall m | 0 <= m < k - 1 :: ops[1..][m] == ops[m + 1];
      UsedPageStaysOut(Step(s, ops[0]), ops[1..], i, k - 1);
    }
  }

  /** No page is handed out twice without a free of that page in between. */
  lemma {:induction false} NoDoubleHandOut(s: State, ops: seq<Op>, j: nat, k: nat, i: nat)
    requires Valid(s) && j < k < |ops|
    requires HandedOut(s, ops, j) == Some(i) && HandedOut(s, ops, k) == Some(i)
    ensures exists m :: j < m < k && Frees(ops[m], i)
    decreases j
  {
    var rest := ops[1..];
    assert forall m | 0 <= m < |rest| :: rest[m] == ops[m + 1];
    if j > 0 {
      NoDoubleHandOut(Step(s, ops[0]), rest, j - 1, k - 1, i);
      var m :| j - 1 < m < k - 1 && Frees(rest[m], i);
      assert Frees(ops[m + 1], i);
    } else if forall m | 0 <= m < k - 1 :: !Frees(rest[m], i) {
      UsedPageStaysOut(Step(s, ops[0]), rest, i, k - 1);
    } else {
      var m :| 0 <= m < k - 1 && Frees(rest[m], i);
      assert Frees(ops[m + 1], i);
    }
  }

  // ----- reservations

  /** The bit that a reservation loop sets for addr: addresses below BASE wrap past the end. */
  function ReservedIndex(addr: nat): nat { U64(addr - BASE) / PAGE }

  /** Some step of `for (addr = start; addr < end; addr += PAGE_SIZE)` lands on page i. */
  ghost predicate Touches(start: nat, end: nat, i: nat) {
    exists k: nat :: start + k * PAGE < end && ReservedIndex(start + k * PAGE) == i
  }

  lemma ReservedIndexOf(addr: nat, i: nat)
    requires addr < TWO64 && i < TRACKED
    ensures ReservedIndex(addr) == i <==> addr / PAGE == BASE / PAGE + i
  {
    DivMod(addr, PAGE);
    if addr >= BASE {
      DivUnique(addr - BASE, TWO64, 0, addr - BASE);
      DivUnique(addr - BASE, PAGE, addr / PAGE - BASE / PAGE, addr % PAGE);
    } else {
      DivUnique(addr - BASE, TWO64, -1, TWO64 + addr - BASE);
      DivMonotone(TWO64 - BASE, TWO64 + addr - BASE, PAGE);
      DivMonotone(addr, BASE - 1, PAGE);
    }
  }

  /** A reservation loop reserves a run of whole pages, one per step. */
  lemma TouchesRun(start: nat, end: nat, i: nat)
    requires start <= end <= TWO64 && i < TRACKED
    ensures Touches(start, end, i)
       <==> start / PAGE <= BASE / PAGE + i < start / PAGE + Steps(end - start, PAGE)
  {
    var n, first, target := Steps(end - start, PAGE), start / PAGE, BASE / PAGE + i;
    forall k: nat ensures start + k * PAGE < end ==> (ReservedIndex(start + k * PAGE) == i <==> first + k == target)
    {
      DivMod(start, PAGE);
      DivUnique(start + k * PAGE, PAGE, first + k, start % PAGE);
      if start + k * PAGE < end { ReservedIndexOf(start + k * PAGE, i); }
    }
    forall k: nat ensures start + k * PAGE < end <==> k < n {
      StepIndex(end - start, k);
    }
    if first <= target < first + n {
      var k: nat := target - first;
      assert start + k * PAGE < end && ReservedIndex(start + k * PAGE) == i;
    }
  }

  lemma StepIndex(size: nat, k: nat)
    ensures k * PAGE < size <==> k < Steps(size, PAGE)
  {
    DivBound(size + PAGE - 1, k + 1, PAGE);
  }

  /** Is the tracked page that holds address a reserved by the loop over [start, end)? */
  ghost predicate Reserved(start: nat, end: nat, a: nat)
    requires a >= BASE
  {
    Touches(start, end, (a - BASE) / PAGE)
  }

  /** Every tracked page that overlaps [start, end) is reserved exactly when the misaligned head fits. */
  lemma ReservationCovers(start: nat, end: nat)
    requires BASE <= start <= end <= BASE + TRACKED * PAGE
    ensures (forall a | start <= a < end :: Reserved(start, end, a))
       <==> (start == end || start % PAGE + (end - start) <= Steps(end - start, PAGE) * PAGE)
  {
    var size := end - start;
    forall a | start <= a < start + size ensures Reserved(start, end, a) <==> Visited(start, size, PAGE, a) {
      DivMod(a, PAGE);
      DivUnique(a - BASE, PAGE, a / PAGE - BASE / PAGE, a % PAGE);
      DivBound(a - BASE, TRACKED, PAGE);
      DivMonotone(start, a, PAGE);
      TouchesRun(start, end, (a - BASE) / PAGE);
    }
    hide Reserved;
    StepCoverage(start, size, PAGE);
  }
}
