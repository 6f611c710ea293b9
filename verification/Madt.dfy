/** The MADT record walk and the interrupt override lookup of acpi/madt.c. */
module Madt {
  import opened Machine
  import opened FatDisk

  const MAX_ISO: nat := 24
  const ENTRIES: nat := 44      // ACPI header, local APIC address, flags
  const SLACK: nat := 12        // the longest record structure read through a cast

  datatype Iso = Iso(irq: byte, gsi: nat, flags: nat)

  datatype Ioapic = Ioapic(id: byte, addr: nat, gsiBase: nat)

  datatype Cpu = Cpu(processor: byte, apic: byte, isBsp: bool)

  /** The other globals: the I/O APIC, its address once more, slot 0 of the CPU list, and the boot CPU's APIC id. */
  datatype Globals = Globals(ioapic: Ioapic, address: nat, cpu0: Cpu, bsp: byte)

  datatype State = State(isos: seq<Iso>, globals: Globals)

  /** The records of ACPI section 5.2.12 that the walker tells apart. */
  datatype Record =
    | Lapic(processor: byte, apic: byte, flags: nat)
    | IoApic(id: byte, addr: nat, base: nat)
    | Override(bus: byte, irq: byte, gsi: nat, polarity: nat)
    | Unknown(kind: byte, body: seq<byte>)
  {
    predicate WellFormed() {
      match this
      case Lapic(_, _, flags) => flags < TWO32
      case IoApic(_, addr, base) => addr < TWO32 && base < TWO32
      case Override(_, _, gsi, polarity) => gsi < TWO32 && polarity < 0x1_0000
      case Unknown(kind, body) => kind > 2 && |body| <= 253
    }
  }

  function Encode(r: Record): (s: seq<byte>)
    requires r.WellFormed()
    ensures 2 <= |s| < 256 && s[1] == |s|
  {
    match r
    case Lapic(processor, apic, flags) => [0, 8, processor, apic] + Word(flags)
    case IoApic(id, addr, base) => [1, 12, id, 0] + Word(addr) + Word(base)
    case Override(bus, irq, gsi, polarity) => [2, 10, bus, irq] + Word(gsi) + [Byte(polarity, 0), Byte(polarity, 1)]
    case Unknown(kind, body) => [kind, 2 + |body|] + body
  }

  predicate AllWellFormed(rs: seq<Record>) { forall r | r in rs :: r.WellFormed() }

  function EncodeAll(rs: seq<Record>): seq<byte>
    requires AllWellFormed(rs)
  {
    if rs == [] then [] else Encode(rs[0]) + EncodeAll(rs[1..])
  }

  // ----- the walker

  /** Does the walk stop at offset at instead of stepping over a record? */
  predicate Stops(m: seq<byte>, at: nat, end: nat)
    requires end + SLACK <= |m|
  {
    at >= end || m[at + 1] < 2 || at + m[at + 1] as int > end
  }

  /** What the record at offset at does to the tables. */
  function StepRecord(s: State, m: seq<byte>, at: nat): State
    requires at + SLACK <= |m|
  {
    if m[at] == 0 then
      if m[at + 4] % 2 == 1 then s.(globals := s.globals.(cpu0 := Cpu(m[at + 2], m[at + 3], m[at + 3] == s.globals.bsp))) else s
    else if m[at] == 1 then
      var addr := U32At(m, at + 4);
      var ioapic := Ioapic(m[at + 2], addr, if addr == 0xFEC0_0000 then 0 else U32At(m, at + 8));
      s.(globals := s.globals.(ioapic := ioapic, address := addr))
    else if m[at] == 2 && |s.isos| < MAX_ISO then
      s.(isos := s.isos + [Iso(m[at + 3], U32At(m, at + 4), U16At(m, at + 8))])
    else s
  }

  function ParseFrom(s: State, m: seq<byte>, at: nat, end: nat): State
    requires end + SLACK <= |m|
    decreases end - at
  {
    if Stops(m, at, end) then s else ParseFrom(StepRecord(s, m, at), m, at + m[at + 1] as int, end)
  }

  /** The offset where the walk ends: never past the end, and short of it only at a bad header. */
  function StopsAt(m: seq<byte>, at: nat, end: nat): (p: nat)
    requires end + SLACK <= |m| && at <= end
    ensures at <= p <= end && Stops(m, p, end)
    decreases end - at
  {
    if Stops(m, at, end) then at else StopsAt(m, at + m[at + 1] as int, end)
  }

  // ----- what the records mean

  function OverrideOf(r: Record): seq<Iso> {
    if r.Override? then [Iso(r.irq, r.gsi, r.polarity)] else []
  }

  predicate EnabledCpu(r: Record) { r.Lapic? && r.flags % 2 == 1 }

  function CpuOf(r: Record, bsp: byte): Cpu
    requires r.Lapic?
  {
    Cpu(r.processor, r.apic, r.apic == bsp)
  }

  function Heard(r: Record, g: Globals): Globals {
    if EnabledCpu(r) then g.(cpu0 := CpuOf(r, g.bsp))
    else if r.IoApic? then g.(ioapic := Ioapic(r.id, r.addr, if r.addr == 0xFEC0_0000 then 0 else r.base), address := r.addr)
    else g
  }

  function Overrides(rs: seq<Record>): seq<Iso> {
    if rs == [] then [] else OverrideOf(rs[0]) + Overrides(rs[1..])
  }

  function HeardAll(rs: seq<Record>, g: Globals): Globals {
    if rs == [] then g else HeardAll(rs[1..], Heard(rs[0], g))
  }

  function LastCpu(rs: seq<Record>): Option<Record> {
    if rs == [] then None
    else if EnabledCpu(rs[|rs| - 1]) then Some(rs[|rs| - 1])
    else LastCpu(rs[..|rs| - 1])
  }

  function LastIoApic(rs: seq<Record>): Option<Record> {
    if rs == [] then None
    else if rs[|rs| - 1].IoApic? then Some(rs[|rs| - 1])
    else LastIoApic(rs[..|rs| - 1])
  }

  lemma {:induction false} HeardSnoc(rs: seq<Record>, r: Record, g: Globals)
    ensures HeardAll(rs + [r], g) == Heard(r, HeardAll(rs, g))
    decreases |rs|
  {
    hide Heard;
    if rs == [] {
      assert (rs + [r])[1..] == [] && (rs + [r])[0] == r;
    } else {
      assert (rs + [r])[1..] == rs[1..] + [r];
      HeardSnoc(rs[1..], r, Heard(rs[0], g));
    }
  }

  /** The CPU count never advances, so that of all enabled CPUs and of all I/O APICs only the last is kept. */
  lemma {:induction false} OnlyTheLastIsKept(rs: seq<Record>, g: Globals)
    ensures var h := HeardAll(rs, g);
      && h.bsp == g.bsp
      && h.cpu0 == (match LastCpu(rs) case None => g.cpu0 case Some(r) => if r.Lapic? then CpuOf(r, g.bsp) else g.cpu0)
      && h.address == (match LastIoApic(rs) case None => g.address case Some(r) => if r.IoApic? then r.addr else g.address)
    decreases |rs|
  {
    if rs != [] {
      var before, r := rs[..|rs| - 1], rs[|rs| - 1];
      OnlyTheLastIsKept(before, g);
      HeardSnoc(before, r, g);
      assert before + [r] == rs;
    }
  }

  function Capped<T>(s: seq<T>): seq<T> { s[..Min(MAX_ISO, |s|)] }

  lemma FirstByteParity(flags: nat)
    ensures Word(flags)[0] % 2 == flags % 2
  {
    ModDiv(flags, 0x80, 2);
  }

  lemma LapicRead(m: seq<byte>, at: nat, processor: byte, apic: byte, flags: nat)
    requires flags < TWO32 && LiesAt(m, at, [0, 8, processor, apic] + Word(flags))
    ensures m[at] == 0 && m[at + 2] == processor && m[at + 3] == apic && m[at + 4] % 2 == flags % 2
  {
    hide Word;
    BytesAt(m, at, [0, 8, processor, apic] + Word(flags));
    FirstByteParity(flags);
  }

  lemma IoApicRead(m: seq<byte>, at: nat, id: byte, addr: nat, base: nat)
    requires addr < TWO32 && base < TWO32 && LiesAt(m, at, [1, 12, id, 0] + Word(addr) + Word(base))
    ensures m[at] == 1 && m[at + 2] == id && U32At(m, at + 4) == addr && U32At(m, at + 8) == base
  {
    hide U32At, Word;
    PartLiesAt(m, at, [1, 12, id, 0] + Word(addr), Word(base));
    PartLiesAt(m, at, [1, 12, id, 0], Word(addr));
    BytesAt(m, at, [1, 12, id, 0]);
    WordAt(m, at + 4, addr);
    WordAt(m, at + 8, base);
  }

  lemma OverrideRead(m: seq<byte>, at: nat, bus: byte, irq: byte, gsi: nat, polarity: nat)
    requires gsi < TWO32 && polarity < 0x1_0000
    requires LiesAt(m, at, [2, 10, bus, irq] + Word(gsi) + [Byte(polarity, 0), Byte(polarity, 1)])
    ensures m[at] == 2 && m[at + 3] == irq && U32At(m, at + 4) == gsi && U16At(m, at + 8) == polarity
  {
    hide U32At, Word, Byte;
    PartLiesAt(m, at, [2, 10, bus, irq] + Word(gsi), [Byte(polarity, 0), Byte(polarity, 1)]);
    PartLiesAt(m, at, [2, 10, bus, irq], Word(gsi));
    BytesAt(m, at, [2, 10, bus, irq]);
    BytesAt(m, at + 8, [Byte(polarity, 0), Byte(polarity, 1)]);
    WordAt(m, at + 4, gsi);
    HalfBytes(polarity);
  }

  /** One encoded record is read back as itself. */
  lemma StepReadsRecord(s: State, m: seq<byte>, at: nat, r: Record)
    requires r.WellFormed() && LiesAt(m, at, Encode(r)) && at + SLACK <= |m| && |s.isos| <= MAX_ISO
    ensures StepRecord(s, m, at) == State(Capped(s.isos + OverrideOf(r)), Heard(r, s.globals))
  {
    hide U32At, U16At, Word, Byte, LiesAt;
    assert Capped(s.isos + []) == s.isos;
    match r
    case Lapic(processor, apic, flags) => LapicRead(m, at, processor, apic, flags);
    case IoApic(id, addr, base) => IoApicRead(m, at, id, addr, base);
    case Override(bus, irq, gsi, polarity) => OverrideRead(m, at, bus, irq, gsi, polarity);
    case Unknown(kind, body) => BytesAt(m, at, [kind, 2 + |body|] + body);
  }

  /** What a list of records does to the tables: overrides in order up to the cap, the last I/O APIC wins. */
  function Meaning(s: State, rs: seq<Record>): State {
    State(Capped(s.isos + Overrides(rs)), HeardAll(rs, s.globals))
  }

  lemma CapTwice<T>(a: seq<T>, b: seq<T>, c: seq<T>)
    ensures Capped(Capped(a + b) + c) == Capped(a + (b + c))
  {
    assert a + (b + c) == (a + b) + c;
    var ab := a + b;
    assert Capped(Capped(ab) + c) == Capped(ab + c);
  }

  lemma MeaningOfCons(s: State, rs: seq<Record>)
    requires rs != [] && |s.isos| <= MAX_ISO
    ensures Meaning(State(Capped(s.isos + OverrideOf(rs[0])), Heard(rs[0], s.globals)), rs[1..]) == Meaning(s, rs)
  {
    hide Capped, OverrideOf, Heard;
    CapTwice(s.isos, OverrideOf(rs[0]), Overrides(rs[1..]));
  }

  /** The walk steps over encoded records one by one and goes on behind them. */
  lemma {:induction false} WalkReadsRecords(s: State, m: seq<byte>, at: nat, end: nat, rs: seq<Record>)
    requires AllWellFormed(rs) && LiesAt(m, at, EncodeAll(rs)) && at + |EncodeAll(rs)| <= end && end + SLACK <= |m|
    requires |s.isos| <= MAX_ISO
    ensures ParseFrom(s, m, at, end) == ParseFrom(Meaning(s, rs), m, at + |EncodeAll(rs)|, end)
    ensures StopsAt(m, at, end) == StopsAt(m, at + |EncodeAll(rs)|, end)
    decreases |rs|
  {
    hide StepRecord, Encode, Overrides, HeardAll, Meaning, OverrideOf, Heard, LiesAt;
    if rs == [] {
      EmptyMeaning(s);
    } else {
      var r, rest := rs[0], rs[1..];
      PartLiesAt(m, at, Encode(r), EncodeAll(rest));
      BytesAt(m, at, Encode(r));
      StepReadsRecord(s, m, at, r);
      MeaningOfCons(s, rs);
      WalkReadsRecords(StepRecord(s, m, at), m, at + |Encode(r)|, end, rest);
    }
  }

  lemma EmptyMeaning(s: State)
    requires |s.isos| <= MAX_ISO
    ensures Meaning(s, []) == s
  {
    assert s.isos + [] == s.isos;
  }

  /** Whether a table ends after its records or breaks off at a bad header, the walk recovers exactly the records. */
  lemma ParseRecoversRecords(s: State, m: seq<byte>, end: nat, rs: seq<Record>)
    requires AllWellFormed(rs) && LiesAt(m, ENTRIES, EncodeAll(rs)) && end + SLACK <= |m|
    requires var behind := ENTRIES + |EncodeAll(rs)|; behind <= end && Stops(m, behind, end)
    requires |s.isos| <= MAX_ISO
    ensures ParseFrom(s, m, ENTRIES, end) == Meaning(s, rs) && StopsAt(m, ENTRIES, end) == ENTRIES + |EncodeAll(rs)|
  {
    WalkReadsRecords(s, m, ENTRIES, end, rs);
  }

  // ----- the lookup

  /** The position of the first override for irq at or after position i. */
  function FirstFor(isos: seq<Iso>, irq: byte, i: nat): (r: Option<nat>)
    requires i <= |isos|
    ensures r.Some? ==> i <= r.value < |isos| && isos[r.value].irq == irq
    ensures forall j | i <= j < (if r.Some? then r.value else |isos|) :: isos[j].irq != irq
    decreases |isos| - i
  {
    if i == |isos| then None else if isos[i].irq == irq then Some(i) else FirstFor(isos, irq, i + 1)
  }

  function GsiFor(isos: seq<Iso>, irq: byte): nat {
    match FirstFor(isos, irq, 0)
    case Some(k) => isos[k].gsi
    case None => irq
  }

  // ----- a whole table

  /** The fields before the records, besides signature and length (ACPI sections 5.2.6 and 5.2.12). */
  datatype Preamble = Preamble(revision: byte, checksum: byte, ids: seq<byte>, oemRevision: nat, creator: nat, creatorRevision: nat,
                               lapicAddress: nat, flags: nat)
  {
    predicate Ok() { |ids| == 14 }
  }

  function EncodePreamble(h: Preamble, length: nat): (s: seq<byte>)
    requires h.Ok()
    ensures |s| == 44
  {
    [0x41, 0x50, 0x49, 0x43] + Word(length)
    + ([h.revision, h.checksum] + h.ids + Word(h.oemRevision) + Word(h.creator) + Word(h.creatorRevision) + Word(h.lapicAddress) + Word(h.flags))
  }

  function EncodeTable(h: Preamble, rs: seq<Record>): seq<byte>
    requires h.Ok() && AllWellFormed(rs)
  {
    EncodePreamble(h, 44 + |EncodeAll(rs)|) + EncodeAll(rs)
  }

  lemma LengthField(m: seq<byte>, h: Preamble, length: nat)
    requires h.Ok() && length < TWO32 && LiesAt(m, 0, EncodePreamble(h, length))
    ensures U32At(m, 4) == length
  {
    hide Word, U32At;
    var front: seq<byte> := [0x41, 0x50, 0x49, 0x43];
    PartLiesAt(m, 0, front + Word(length),
      [h.revision, h.checksum] + h.ids + Word(h.oemRevision) + Word(h.creator) + Word(h.creatorRevision) + Word(h.lapicAddress) + Word(h.flags));
    PartLiesAt(m, 0, front, Word(length));
    WordAt(m, 4, length);
  }

  /** A whole table in memory, header and length included, is parsed to its records. */
  lemma TableRecovered(s: State, m: seq<byte>, h: Preamble, rs: seq<Record>)
    requires h.Ok() && AllWellFormed(rs) && |EncodeTable(h, rs)| < TWO32 && |s.isos| <= MAX_ISO
    requires LiesAt(m, 0, EncodeTable(h, rs)) && |EncodeTable(h, rs)| + SLACK <= |m|
    ensures U32At(m, 4) == |EncodeTable(h, rs)| && ParseFrom(s, m, 44, |EncodeTable(h, rs)|) == Meaning(s, rs)
  {
    hide EncodePreamble, EncodeAll, U32At, Meaning, LiesAt, AllWellFormed;
    PartLiesAt(m, 0, EncodePreamble(h, 44 + |EncodeAll(rs)|), EncodeAll(rs));
    LengthField(m, h, 44 + |EncodeAll(rs)|);
    ParseRecoversRecords(s, m, 44 + |EncodeAll(rs)|, rs);
  }

  /** The interrupt that the first override record for an IRQ moves it to. */
  function FirstOverride(rs: seq<Record>, irq: byte): Option<nat> {
    if rs == [] then None
    else if rs[0].Override? && rs[0].irq == irq then Some(rs[0].gsi)
    else FirstOverride(rs[1..], irq)
  }

  lemma {:induction false} LookupOfOverrides(rs: seq<Record>, irq: byte)
    ensures GsiFor(Overrides(rs), irq) == FirstOverride(rs, irq).GetOr(irq)
  {
    if rs != [] {
      LookupOfOverrides(rs[1..], irq);
      var one, rest := OverrideOf(rs[0]), Overrides(rs[1..]);
      if rs[0].Override? {
        if rs[0].irq != irq {
          assert FirstFor(one + rest, irq, 0) == FirstFor(one + rest, irq, 1);
          FirstForShift(one + rest, irq, 1);
          assert (one + rest)[1..] == rest;
        }
      } else {
        assert one + rest == rest;
      }
    }
  }

  lemma {:induction false} FirstForShift(isos: seq<Iso>, irq: byte, i: nat)
    requires 1 <= i <= |isos|
    ensures FirstFor(isos, irq, i) == match FirstFor(isos[1..], irq, i - 1) case None => None case Some(k) => Some(k + 1)
    decreases |isos| - i
  {
    if i < |isos| { FirstForShift(isos, irq, i + 1); }
  }

  /** Parsed from a fresh state, a table with at most 24 overrides answers every IRQ by its first override record. */
  lemma TableAnswers(m: seq<byte>, h: Preamble, rs: seq<Record>, g: Globals, irq: byte)
    requires h.Ok() && AllWellFormed(rs) && |EncodeTable(h, rs)| < TWO32 && |Overrides(rs)| <= 24
    requires LiesAt(m, 0, EncodeTable(h, rs)) && |EncodeTable(h, rs)| + SLACK <= |m|
    ensures U32At(m, 4) == |EncodeTable(h, rs)|
    ensures GsiFor(ParseFrom(State([], g), m, 44, |EncodeTable(h, rs)|).isos, irq) == FirstOverride(rs, irq).GetOr(irq)
  {
    hide EncodeTable, ParseFrom, U32At, GsiFor, Overrides, FirstOverride, LiesAt;
    TableRecovered(State([], g), m, h, rs);
    assert Capped([] + Overrides(rs)) == Overrides(rs);
    LookupOfOverrides(rs, irq);
  }

  /** The cap of 24 costs a lookup exactly when the first override for the IRQ lies behind it and moves the IRQ. */
  lemma CapIsHarmlessExactlyWhen(isos: seq<Iso>, irq: byte)
    ensures GsiFor(Capped(isos), irq) == GsiFor(isos, irq)
       <==> match FirstFor(isos, irq, 0) { case None => true case Some(k) => k < 24 || isos[k].gsi == irq }
  {
    var kept := Capped(isos);
    assert forall j | 0 <= j < |kept| :: kept[j] == isos[j];
    var all, some := FirstFor(isos, irq, 0), FirstFor(kept, irq, 0);
    if some.Some? && all.Some? {
      assert some.value == all.value;
    }
  }
}

/** UEFIParseMADT and UEFIFindGSIForIRQ as code over the global tables. */
module MadtCode {
  import opened Machine
  import opened FatDisk
  import opened Madt

  class InterruptTables {
    const iso: array<Iso>
    var isoCount: nat
    var ioapic: Ioapic
    var ioApicAddress: nat
    var cpu0: Cpu                 // g_cpu_cores[0]; the CPU count stays 0
    const bsp: byte               // what cpuid reports for the running CPU

    ghost predicate Valid()
      reads this
    {
      iso.Length == MAX_ISO && isoCount <= MAX_ISO
    }

    ghost function Value(): State
      requires Valid()
      reads this, iso
    {
      State(iso[..isoCount], Globals(ioapic, ioApicAddress, cpu0, bsp))
    }

    constructor (bsp: byte)
      ensures Valid() && fresh(iso) && Value() == State([], Globals(Ioapic(0, 0, 0), 0, Cpu(0, 0, false), bsp))
    {
      iso := new Iso[MAX_ISO](_ => Iso(0, 0, 0));
      isoCount, ioapic := 0, Ioapic(0, 0, 0);
      ioApicAddress, cpu0, this.bsp := 0, Cpu(0, 0, false), bsp;
    }

    /** The switch over one record. */
    method TakeRecord(m: seq<byte>, entry: nat)
      requires Valid() && entry + SLACK <= |m|
      modifies this, iso
      ensures Valid() && Value() == StepRecord(old(Value()), m, entry)
    {
      hide U32At;
      if m[entry] == 0 {
        if m[entry + 4] % 2 == 1 {
          cpu0 := Cpu(m[entry + 2], m[entry + 3], m[entry + 3] == bsp);
        }
      } else if m[entry] == 1 {
        ioapic := Ioapic(m[entry + 2], U32At(m, entry + 4), U32At(m, entry + 8));
        ioApicAddress := ioapic.addr;
        if ioapic.addr == 0xFEC0_0000 && ioapic.gsiBase != 0 {
          ioapic := ioapic.(gsiBase := 0);
        }
      } else if m[entry] == 2 && isoCount < MAX_ISO {
        iso[isoCount] := Iso(m[entry + 3], U32At(m, entry + 4), U16At(m, entry + 8));
        isoCount := isoCount + 1;
      }
    }

    /** Returns where the walk ended. The bytes behind the table are readable memory. */
    method UEFIParseMADT(m: seq<byte>) returns (entry: nat)
      requires Valid() && |m| >= ENTRIES && U32At(m, 4) + SLACK <= |m|
      modifies this, iso
      ensures Valid() && Value() == ParseFrom(old(Value()), m, ENTRIES, U32At(m, 4))
      ensures ENTRIES <= U32At(m, 4) ==> entry == StopsAt(m, ENTRIES, U32At(m, 4))
    {
      hide StepRecord, U32At;
      entry := ENTRIES;
      var end := U32At(m, 4);
      ghost var was := Value();
      while entry < end
        invariant Valid() && ParseFrom(Value(), m, entry, end) == ParseFrom(was, m, ENTRIES, end)
        invariant ENTRIES <= end ==> entry <= end && StopsAt(m, entry, end) == StopsAt(m, ENTRIES, end)
        decreases end - entry
      {
        var length := m[entry + 1];
        if length < 2 { return; }
        if entry + length > end { return; }
        TakeRecord(m, entry);
        entry := entry + length;
      }
    }

    method UEFIFindGSIForIRQ(irq: byte) returns (gsi: nat)
      requires Valid()
      ensures gsi == GsiFor(Value().isos, irq)
    {
      for i := 0 to isoCount
        invariant FirstFor(Value().isos, irq, i) == FirstFor(Value().isos, irq, 0)
      {
        if iso[i].irq == irq { return iso[i].gsi; }
      }
      gsi := irq;
    }
  }
}
