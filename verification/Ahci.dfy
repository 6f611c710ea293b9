/** The write command of drivers/storage/ahci.c: descriptor table, command FIS and slot search. */
module Ahci {
  import opened Machine

  const CHUNK: nat := 0x4_0000      // what one descriptor may carry
  const SECTOR: nat := 512
  const SLOTS: nat := 32
  const SLOT_UNITS: nat := 16       // a slot's 256-byte command table in units of 16 bytes
  const FIRST_PRD: nat := 8         // FIS, ATAPI command and reserved area fill the first 128 bytes

  datatype Prd = Prd(dba: nat, dbau: nat, dbc: nat, i: bool)

  /** One 16-byte unit of the command tables; the 20-byte FIS ends with four zero bytes of the unit behind it. */
  datatype Unit = Zeros | Register(fis: seq<byte>) | Descriptor(prd: Prd) | Other(bytes: seq<byte>)

  datatype Header = Header(cfl: nat, w: bool, prdtl: nat)

  // ----- the descriptor table

  /** `SectorCount * 512` in a 32-bit word. */
  function ByteCount(sectors: nat): nat { U32(sectors * SECTOR) }

  function PrdCount(sectors: nat): (n: nat)
    ensures n <= 0x3FFF && (n > 0 ==> (n - 1) * CHUNK < ByteCount(sectors) <= n * CHUNK)
  {
    var up := U32(ByteCount(sectors) + 0x3_FFFF);
    DivBound(up, 0x4000, CHUNK);
    DivMod(up, CHUNK);
    DivMod(ByteCount(sectors) + 0x3_FFFF, TWO32);
    if ByteCount(sectors) + 0x3_FFFF < TWO32 then
      DivUnique(ByteCount(sectors) + 0x3_FFFF, TWO32, 0, ByteCount(sectors) + 0x3_FFFF);
      up / CHUNK
    else
      DivUnique(ByteCount(sectors) + 0x3_FFFF, TWO32, 1, ByteCount(sectors) + 0x3_FFFF - TWO32);
      DivUnique(up, CHUNK, 0, up);
      up / CHUNK
  }

  /** No step of the computation leaves 32 bits. */
  predicate Fits32(sectors: nat) { sectors * SECTOR + 0x3_FFFF < TWO32 }

  /** What is left for descriptor i after i full chunks, cut to one chunk. */
  function Size(sectors: nat, i: nat): (n: nat)
    requires i < PrdCount(sectors)
    ensures 0 < n <= CHUNK
  {
    MulMonotone(i, PrdCount(sectors) - 1, CHUNK);
    if i == PrdCount(sectors) - 1 then ByteCount(sectors) - i * CHUNK else CHUNK
  }

  function Entry(buffer: nat, sectors: nat, i: nat): Prd
    requires i < PrdCount(sectors)
  {
    var addr := U64(buffer + i * CHUNK);
    Prd(addr % TWO32, addr / TWO32, Size(sectors, i) - 1, i == PrdCount(sectors) - 1)
  }

  function Entries(buffer: nat, sectors: nat): seq<Prd> {
    seq(PrdCount(sectors), i requires 0 <= i < PrdCount(sectors) => Entry(buffer, sectors, i))
  }

  /** Where the controller finds byte k of the transfer: it walks the table in order. */
  function Fetch(table: seq<Prd>, k: nat): Option<nat>
    decreases |table|
  {
    if table == [] then None
    else if k < table[0].dbc + 1 then Some(TWO32 * table[0].dbau + table[0].dba + k)
    else Fetch(table[1..], k - (table[0].dbc + 1))
  }

  ghost predicate ExactTransfer(table: seq<Prd>, buffer: nat, length: nat) {
    forall k: nat :: Fetch(table, k) == if k < length then Some(buffer + k) else None
  }

  /** A count whose bytes are lost to the 32-bit sum gets no descriptor at all. */
  lemma ByteCountOf(sectors: nat)
    requires sectors < TWO32
    ensures Fits32(sectors) ==> ByteCount(sectors) == sectors * SECTOR
    ensures PrdCount(sectors) * CHUNK < sectors * SECTOR <==> !Fits32(sectors)
    ensures PrdCount(sectors) == 0 || PrdCount(sectors) * CHUNK >= ByteCount(sectors)
  {
    var bytes := sectors * SECTOR;
    if Fits32(sectors) {
      DivUnique(bytes, TWO32, 0, bytes);
      DivUnique(bytes + 0x3_FFFF, TWO32, 0, bytes + 0x3_FFFF);
      DivMod(bytes + 0x3_FFFF, CHUNK);
    } else if bytes < TWO32 {
      DivUnique(bytes, TWO32, 0, bytes);
      DivUnique(bytes + 0x3_FFFF, TWO32, 1, bytes + 0x3_FFFF - TWO32);
      DivUnique(bytes + 0x3_FFFF - TWO32, CHUNK, 0, bytes + 0x3_FFFF - TWO32);
    } else {
      MulMonotone(PrdCount(sectors), 0x3FFF, CHUNK);
    }
  }

  /** The descriptor at i starts where the chunk at i starts. */
  lemma EntryBase(buffer: nat, sectors: nat, i: nat)
    requires i < PrdCount(sectors) && buffer + ByteCount(sectors) <= TWO64
    ensures var e := Entry(buffer, sectors, i);
      && TWO32 * e.dbau + e.dba == buffer + i * CHUNK && e.dba < TWO32 && e.dbau < TWO32
  {
    var addr := buffer + i * CHUNK;
    MulMonotone(i, PrdCount(sectors) - 1, CHUNK);
    DivUnique(addr, TWO64, 0, addr);
    DivMod(addr, TWO32);
    DivBound(addr, TWO32, TWO32);
  }

  /** From descriptor i on, the controller reads the rest of the buffer in order. */
  lemma {:induction false} FetchFrom(buffer: nat, sectors: nat, i: nat, k: nat)
    requires i <= PrdCount(sectors) && buffer + ByteCount(sectors) <= TWO64
    ensures var bytes := if PrdCount(sectors) == 0 then 0 else ByteCount(sectors);
      Fetch(Entries(buffer, sectors)[i..], k) == if i * CHUNK + k < bytes then Some(buffer + i * CHUNK + k) else None
    decreases PrdCount(sectors) - i
  {
    var rest := Entries(buffer, sectors)[i..];
    if i < PrdCount(sectors) {
      EntryBase(buffer, sectors, i);
      MulMonotone(i, PrdCount(sectors) - 1, CHUNK);
      if k >= rest[0].dbc + 1 {
        assert rest[1..] == Entries(buffer, sectors)[i + 1..];
        FetchFrom(buffer, sectors, i + 1, k - (rest[0].dbc + 1));
      }
    }
  }

  /** The table describes exactly the caller's buffer, byte for byte, exactly when no 32-bit step overflows. */
  lemma ExactTransferExactlyWhenFits(buffer: nat, sectors: nat)
    requires sectors < TWO32 && buffer + sectors * SECTOR <= TWO64
    ensures ExactTransfer(Entries(buffer, sectors), buffer, sectors * SECTOR) <==> Fits32(sectors)
  {
    var table := Entries(buffer, sectors);
    ByteCountOf(sectors);
    assert ByteCount(sectors) <= sectors * SECTOR by { DivMod(sectors * SECTOR, TWO32); }
    assert table[0..] == table;
    forall k: nat ensures var bytes := if PrdCount(sectors) == 0 then 0 else ByteCount(sectors);
      Fetch(table, k) == if k < bytes then Some(buffer + k) else None
    {
      FetchFrom(buffer, sectors, 0, k);
    }
    if !Fits32(sectors) {
      var k: nat := sectors * SECTOR - 1;
      assert PrdCount(sectors) == 0 || ByteCount(sectors) <= k;
      assert Fetch(table, k) == None;
    }
  }

  lemma EvenBytes(sectors: nat)
    ensures ByteCount(sectors) % 2 == 0
  {
    ModDiv(sectors * SECTOR, 0x8000_0000, 2);
    DivUnique(sectors * SECTOR, 2, sectors * 256, 0);
  }

  lemma EvenRest(bytes: nat, i: nat)
    requires bytes % 2 == 0
    ensures (bytes - i * CHUNK) % 2 == 0
  {
    DivMod(bytes, 2);
    DivUnique(bytes - i * CHUNK, 2, bytes / 2 - i * 0x2_0000, 0);
  }

  lemma OddDbc(n: nat)
    requires n > 0 && n % 2 == 0
    ensures (n - 1) % 2 == 1
  {
  }

  lemma EvenSize(sectors: nat, i: nat)
    requires i < PrdCount(sectors)
    ensures Size(sectors, i) % 2 == 0
  {
    EvenBytes(sectors);
    EvenRest(ByteCount(sectors), i);
    hide PrdCount, ByteCount;
  }

  /** Every descriptor is at most 256 KiB, has an odd dbc, and only the last one interrupts. */
  lemma EntryShape(buffer: nat, sectors: nat, i: nat)
    requires i < PrdCount(sectors)
    ensures var e := Entries(buffer, sectors)[i];
      && e.dbc < 0x4_0000 && e.dbc % 2 == 1 && (e.i <==> i == PrdCount(sectors) - 1)
  {
    hide Size, PrdCount, ByteCount;
    EvenSize(sectors, i);
    OddDbc(Size(sectors, i));
    assert Entries(buffer, sectors)[i] == Entry(buffer, sectors, i);
  }

  // ----- the read path's single descriptor

  /** ahci_read: one descriptor, a 32-bit address and a 22-bit byte count. */
  function ReadEntry(buffer: nat, sectors: nat): Prd {
    Prd(U32(buffer), 0, U32(sectors * SECTOR - 1) % 0x40_0000, true)
  }

  /** One descriptor serves a read exactly when the buffer lies below 4 GiB and the count is 1 to 8192 sectors. */
  lemma ReadIsExactExactlyWhen(buffer: nat, sectors: nat)
    requires sectors < TWO32
    ensures ExactTransfer([ReadEntry(buffer, sectors)], buffer, sectors * SECTOR)
       <==> buffer < TWO32 && 1 <= sectors <= 8192
  {
    var table, bytes := [ReadEntry(buffer, sectors)], sectors * SECTOR;
    assert table[1..] == [];
    assert Fetch(table, 0) == Some(U32(buffer));
    var last: nat := table[0].dbc;
    assert Fetch(table, last) == Some(U32(buffer) + last) && Fetch(table, last + 1) == None;
    if buffer < TWO32 { DivUnique(buffer, TWO32, 0, buffer); }
    if 1 <= sectors <= 8192 {
      DivUnique(bytes - 1, TWO32, 0, bytes - 1);
      DivUnique(bytes - 1, 0x40_0000, 0, bytes - 1);
    }
    assert last + 1 <= 0x40_0000;
    if 1 <= sectors <= 8192 && buffer < TWO32 {
      assert forall k: nat :: Fetch(table, k) == if k < bytes then Some(buffer + k) else None;
    }
    if ExactTransfer(table, buffer, bytes) {
      assert Fetch(table, 0) == if 0 < bytes then Some(buffer + 0) else None;
      assert Fetch(table, last + 1) == if last + 1 < bytes then Some(buffer + (last + 1)) else None;
    }
  }

  // ----- the command FIS

  function LbaBytes(lba: nat): (r: seq<byte>)
    ensures |r| == 6
  {
    [lba % 256, lba / 0x100 % 256, lba / 0x1_0000 % 256, lba / 0x100_0000 % 256, lba / TWO32 % 256, lba / 0x100_0000_0000 % 256]
  }

  /** The stores into the cleared FIS_REG_H2D, byte by byte. */
  function CommandFis(command: byte, lba: nat, sectors: nat): (r: seq<byte>)
    ensures |r| == 16
  {
    var l := LbaBytes(lba);
    [0x27, 0x80, command, 0, l[0], l[1], l[2], 0x40, l[3], l[4], l[5], 0, sectors % 256, sectors / 256 % 256, 0, 0]
  }

  function WriteFis(lba: nat, sectors: nat): (r: seq<byte>)
    ensures |r| == 16
  {
    CommandFis(0x35, lba, sectors)
  }

  function ReadFis(lba: nat, sectors: nat): (r: seq<byte>)
    ensures |r| == 16
  {
    CommandFis(0x25, lba, sectors)
  }

  /** The number a device reads from little-endian bytes. */
  function FromBytes(s: seq<byte>): nat
    decreases |s|
  {
    if s == [] then 0 else s[0] + 256 * FromBytes(s[1..])
  }

  function DigitsOf(v: nat, n: nat): (s: seq<byte>)
    ensures |s| == n
  {
    if n == 0 then [] else [v % 256] + DigitsOf(v / 256, n - 1)
  }

  function Pow256(n: nat): (p: nat)
    ensures p > 0
  {
    if n == 0 then 1 else 256 * Pow256(n - 1)
  }

  lemma {:induction false} DigitsReadBack(v: nat, n: nat)
    ensures FromBytes(DigitsOf(v, n)) == v % Pow256(n)
    decreases n
  {
    if n > 0 {
      DigitsReadBack(v / 256, n - 1);
      assert DigitsOf(v, n)[1..] == DigitsOf(v / 256, n - 1);
      ModDiv(v, Pow256(n - 1), 256);
      DivMod(v % (Pow256(n - 1) * 256), 256);
    }
  }

  lemma LbaBytesAreDigits(lba: nat)
    ensures LbaBytes(lba) == DigitsOf(lba, 6)
  {
    DivDiv(lba, 0x100, 256);
    DivDiv(lba, 0x1_0000, 256);
    DivDiv(lba, 0x100_0000, 256);
    DivDiv(lba, TWO32, 256);
    assert LbaBytes(lba) == [lba % 256] + ([lba / 0x100 % 256] + ([lba / 0x1_0000 % 256]
      + ([lba / 0x100_0000 % 256] + ([lba / TWO32 % 256] + ([lba / 0x100_0000_0000 % 256] + [])))));
    assert DigitsOf(lba / 0x100_0000_0000, 1) == [lba / 0x100_0000_0000 % 256] + [];
    assert DigitsOf(lba / TWO32, 2) == [lba / TWO32 % 256] + DigitsOf(lba / 0x100_0000_0000, 1);
    assert DigitsOf(lba / 0x100_0000, 3) == [lba / 0x100_0000 % 256] + DigitsOf(lba / TWO32, 2);
    assert DigitsOf(lba / 0x1_0000, 4) == [lba / 0x1_0000 % 256] + DigitsOf(lba / 0x100_0000, 3);
    assert DigitsOf(lba / 0x100, 5) == [lba / 0x100 % 256] + DigitsOf(lba / 0x1_0000, 4);
  }

  // ----- what the device makes of a FIS

  datatype Request = Read(lba: nat, count: nat) | Write(lba: nat, count: nat) | Unknown

  /**
   Register FIS, host to device (Serial ATA specification), read as a 48-bit command of ATA8-ACS:
   0x25 is READ DMA EXT, 0x35 is WRITE DMA EXT, and a count of zero means 65536 sectors.
   */
  function DeviceSees(fis: seq<byte>): Request
    requires |fis| >= 14
  {
    if fis[0] != 0x27 || (fis[1] as int) / 0x80 != 1 || (fis[7] as int) / 0x40 % 2 != 1 then Unknown
    else
      var lba := FromBytes([fis[4], fis[5], fis[6], fis[8], fis[9], fis[10]]);
      var n := (fis[12] as int) + 0x100 * (fis[13] as int);
      var count := if n == 0 then 0x1_0000 else n;
      if fis[2] == 0x25 then Read(lba, count) else if fis[2] == 0x35 then Write(lba, count) else Unknown
  }

  lemma CountField(sectors: nat)
    ensures sectors % 256 + 0x100 * (sectors / 256 % 256) == sectors % 0x1_0000
  {
    ModDiv(sectors, 256, 256);
    DivMod(sectors % 0x1_0000, 256);
  }

  lemma LbaField(lba: nat)
    ensures FromBytes(LbaBytes(lba)) == lba % 0x1_0000_0000_0000
  {
    LbaBytesAreDigits(lba);
    DigitsReadBack(lba, 6);
    assert Pow256(6) == 0x1_0000_0000_0000 by {
      assert Pow256(2) == 0x1_0000;
      assert Pow256(4) == TWO32;
    }
  }

  /** The device is told to write, or to read, from the low 48 bits of the LBA on. */
  lemma FisNamesTheRequest(lba: nat, sectors: nat)
    ensures var n := if sectors % 0x1_0000 == 0 then 0x1_0000 else sectors % 0x1_0000;
      && DeviceSees(WriteFis(lba, sectors)) == Write(lba % 0x1_0000_0000_0000, n)
      && DeviceSees(ReadFis(lba, sectors)) == Read(lba % 0x1_0000_0000_0000, n)
      && (n == sectors <==> 1 <= sectors <= 0x1_0000)
  {
    hide FromBytes;
    var l := LbaBytes(lba);
    assert [l[0], l[1], l[2], l[3], l[4], l[5]] == l;
    LbaField(lba);
    CountField(sectors);
    if sectors < 0x1_0000 { DivUnique(sectors, 0x1_0000, 0, sectors); }
  }

  // ----- slots

  /** The unit at offset u of a slot's table once a write command has been laid out in it. */
  function Laid(lba: nat, sectors: nat, buffer: nat, u: nat): Unit
    requires u < FIRST_PRD + PrdCount(sectors)
  {
    if u == 0 then Register(WriteFis(lba, sectors))
    else if u < FIRST_PRD then Zeros else Descriptor(Entry(buffer, sectors, u - FIRST_PRD))
  }

  /** The region of all command tables after a write command went to one slot. */
  ghost predicate LaidOut(was: seq<Unit>, now: seq<Unit>, slot: nat, lba: nat, sectors: nat, buffer: nat) {
    var base, n := slot * SLOT_UNITS, FIRST_PRD + PrdCount(sectors);
    && |now| == |was|
    && forall x: nat | x < |was| :: now[x] == if base <= x < base + n then Laid(lba, sectors, buffer, x - base) else was[x]
  }

  /** The same for a read command with its single descriptor. */
  function ReadLaid(lba: nat, sectors: nat, buffer: nat, u: nat): Unit {
    if u == 0 then Register(ReadFis(lba, sectors)) else if u < FIRST_PRD then Zeros else Descriptor(ReadEntry(buffer, sectors))
  }

  ghost predicate ReadLaidOut(was: seq<Unit>, now: seq<Unit>, slot: nat, lba: nat, sectors: nat, buffer: nat) {
    var base := slot * SLOT_UNITS;
    && |now| == |was|
    && forall x: nat | x < |was| :: now[x] == if base <= x <= base + FIRST_PRD then ReadLaid(lba, sectors, buffer, x - base) else was[x]
  }

  // ----- what the controller finds in a slot

  /** The n descriptors at byte 128 of the 256-byte command table of a slot, in 16-byte units. */
  ghost predicate TableIs(units: seq<Unit>, slot: nat, table: seq<Prd>) {
    forall k: nat | k < |table| :: 16 * slot + 8 + k < |units| && units[16 * slot + 8 + k] == Descriptor(table[k])
  }

  /**
   The controller, asked to run a slot, sends a 20-byte FIS that the device takes for the request,
   and moves exactly the bytes from address buffer on, in the direction of the request.
   */
  ghost predicate Commanded(h: Header, units: seq<Unit>, slot: nat, request: Request, buffer: nat, length: nat) {
    && h.cfl * 4 == 20 && h.w == request.Write?
    && 16 * slot + 1 < |units| && units[16 * slot + 1] == Zeros
    && units[16 * slot].Register? && |units[16 * slot].fis| == 16 && DeviceSees(units[16 * slot].fis) == request
    && exists table :: |table| == h.prdtl && TableIs(units, slot, table) && ExactTransfer(table, buffer, length)
  }

  /** A slot laid out for a write commands exactly the caller's write if and only if it is for 1 to 65536 sectors. */
  lemma WriteIsCommandedExactlyWhen(was: seq<Unit>, now: seq<Unit>, slot: nat, lba: nat, sectors: nat, buffer: nat)
    requires LaidOut(was, now, slot, lba, sectors, buffer) && slot * SLOT_UNITS + FIRST_PRD + PrdCount(sectors) <= |was|
    requires lba < 0x1_0000_0000_0000 && sectors < TWO32 && buffer + sectors * SECTOR <= TWO64
    ensures Commanded(Header(5, true, PrdCount(sectors)), now, slot, Write(lba, sectors), buffer, 512 * sectors) <==> 1 <= sectors <= 0x1_0000
  {
    hide WriteFis, DeviceSees, Entry, ExactTransfer, PrdCount;
    DivUnique(lba, 0x1_0000_0000_0000, 0, lba);
    FisNamesTheRequest(lba, sectors);
    assert now[16 * slot] == Laid(lba, sectors, buffer, 0) && now[16 * slot + 1] == Laid(lba, sectors, buffer, 1);
    if 1 <= sectors <= 0x1_0000 {
      var table := Entries(buffer, sectors);
      forall k: nat | k < |table| ensures 16 * slot + 8 + k < |now| && now[16 * slot + 8 + k] == Descriptor(table[k]) {
        assert now[16 * slot + 8 + k] == Laid(lba, sectors, buffer, 8 + k);
      }
      ExactTransferExactlyWhenFits(buffer, sectors);
      assert TableIs(now, slot, table) && ExactTransfer(table, buffer, 512 * sectors) && |table| == PrdCount(sectors);
      assert now[16 * slot].fis == WriteFis(lba, sectors);
    }
  }

  lemma ReadIsCommandedExactlyWhen(was: seq<Unit>, now: seq<Unit>, slot: nat, lba: nat, sectors: nat, buffer: nat)
    requires ReadLaidOut(was, now, slot, lba, sectors, buffer) && slot * SLOT_UNITS + FIRST_PRD < |was|
    requires lba < 0x1_0000_0000_0000 && sectors < TWO32
    ensures Commanded(Header(5, false, 1), now, slot, Read(lba, sectors), buffer, 512 * sectors)
       <==> buffer < TWO32 && 1 <= sectors <= 8192
  {
    hide ReadFis, DeviceSees, ReadEntry, ExactTransfer;
    DivUnique(lba, 0x1_0000_0000_0000, 0, lba);
    FisNamesTheRequest(lba, sectors);
    assert now[16 * slot] == ReadLaid(lba, sectors, buffer, 0) && now[16 * slot + 1] == ReadLaid(lba, sectors, buffer, 1);
    assert now[16 * slot + 8] == ReadLaid(lba, sectors, buffer, 8);
    ReadIsExactExactlyWhen(buffer, sectors);
    if buffer < TWO32 && 1 <= sectors <= 8192 {
      assert TableIs(now, slot, [ReadEntry(buffer, sectors)]);
    } else {
      forall table: seq<Prd> | |table| == 1 && TableIs(now, slot, table) ensures table == [ReadEntry(buffer, sectors)] {
        assert now[16 * slot + 8 + 0] == Descriptor(table[0]);
      }
    }
  }

  /** A command stays in its own table exactly when it needs at most eight descriptors, that is 4096 sectors. */
  lemma StaysInSlotExactlyWhen(was: seq<Unit>, now: seq<Unit>, slot: nat, lba: nat, sectors: nat, buffer: nat)
    requires Fits32(sectors) && LaidOut(was, now, slot, lba, sectors, buffer)
    requires slot * SLOT_UNITS + FIRST_PRD + PrdCount(sectors) <= |was|
    requires (slot + 1) * SLOT_UNITS < |was| ==> !was[(slot + 1) * SLOT_UNITS].Descriptor?  // where a FIS goes
    ensures (forall x: nat | x < |was| && x / SLOT_UNITS != slot :: now[x] == was[x]) <==> sectors <= 4096
  {
    ByteCountOf(sectors);
    var base, n := slot * SLOT_UNITS, FIRST_PRD + PrdCount(sectors);
    if n <= SLOT_UNITS {
      MulMonotone(PrdCount(sectors), 8, CHUNK);
      forall x: nat | x < |was| && x / SLOT_UNITS != slot ensures now[x] == was[x] {
        DivMod(x, SLOT_UNITS);
      }
    } else {
      MulMonotone(8, PrdCount(sectors) - 1, CHUNK);
      var x := base + SLOT_UNITS;
      DivUnique(x, SLOT_UNITS, slot + 1, 0);
      assert now[x].Descriptor?;
    }
  }

  /** A 32-bit slot register, bit by bit. */
  type Bits = s: seq<bool> | |s| == SLOTS witness seq(SLOTS, _ => false)

  function Or(a: Bits, b: Bits): Bits {
    seq(SLOTS, k requires 0 <= k < SLOTS => a[k] || b[k])
  }
}

/** Slot search and command setup as code over the port's registers and command memory. */
module AhciCode {
  import opened Machine
  import opened Ahci

  const STATUS_OK: int := 1
  const STATUS_FAIL: int := 0
  const STATUS_TIMEOUT: int := -2

  class Port {
    var sact: Bits
    var ci: Bits
    const headers: array<Header>
    const units: array<Unit>

    ghost predicate Valid() {
      headers.Length == SLOTS
    }

    constructor (n: nat)
      ensures Valid() && units.Length == n && fresh(headers) && fresh(units)
      ensures sact == ci == seq(SLOTS, _ => false)
    {
      sact, ci := seq(SLOTS, _ => false), seq(SLOTS, _ => false);
      headers := new Header[SLOTS](_ => Header(0, false, 8));
      units := new Unit[n](_ => Zeros);
    }

    /** The lowest slot that is neither active nor issued, or -1. */
    method FindCmdslot() returns (slot: int)
      ensures -1 <= slot < 32
      ensures slot >= 0 ==> !sact[slot] && !ci[slot]
      ensures forall j: nat | j < (if slot < 0 then 32 else slot) :: sact[j] || ci[j]
    {
      var slots := Or(sact, ci);
      for i := 0 to SLOTS
        invariant forall j: nat | j < i :: sact[j] || ci[j]
      {
        if !slots[i] { return i; }
      }
      slot := -1;
    }

    /** Clear the command table of a slot, as far as its descriptors reach. */
    method ClearTable(slot: nat, count: nat)
      requires slot < SLOTS && slot * SLOT_UNITS + FIRST_PRD + count <= units.Length
      modifies units
      ensures forall x: nat | x < units.Length ::
        units[x] == if slot * SLOT_UNITS <= x < slot * SLOT_UNITS + FIRST_PRD + count then Zeros else old(units[x])
    {
      for u := 0 to FIRST_PRD + count
        invariant forall x: nat | x < units.Length ::
          units[x] == if slot * SLOT_UNITS <= x < slot * SLOT_UNITS + u then Zeros else old(units[x])
      {
        units[slot * SLOT_UNITS + u] := Zeros;
      }
    }

    /** The loop that fills the descriptor table, counting the bytes down. */
    method FillTable(slot: nat, buffer: nat, sectors: nat)
      requires slot < SLOTS && slot * SLOT_UNITS + FIRST_PRD + PrdCount(sectors) <= units.Length
      requires buffer < TWO64 && sectors < TWO32
      modifies units
      ensures forall x: nat | x < units.Length ::
        units[x] == var first := slot * SLOT_UNITS + FIRST_PRD;
                    if first <= x < first + PrdCount(sectors) then Descriptor(Entry(buffer, sectors, x - first)) else old(units[x])
    {
      hide Entry;
      var bytes, prdtl: nat := ByteCount(sectors), PrdCount(sectors);
      var first := slot * SLOT_UNITS + FIRST_PRD;
      for i := 0 to prdtl
        invariant bytes == if i < prdtl || prdtl == 0 then ByteCount(sectors) - i * CHUNK else 0
        invariant forall x: nat | x < units.Length ::
          units[x] == if first <= x < first + i then Descriptor(Entry(buffer, sectors, x - first)) else old(units[x])
      {
        assert i * CHUNK < TWO32 && (i < prdtl - 1 <==> bytes > CHUNK) by { ChunksLeft(sectors, i); }
        var addr := U64(buffer + U32(i * CHUNK));
        var size := if bytes > CHUNK then CHUNK else bytes;
        units[first + i] := Descriptor(Prd(addr % TWO32, addr / TWO32, size - 1, i == prdtl - 1));
        EntryIs(buffer, sectors, i);
        bytes := bytes - size;
      }
    }

    /** Returns the status and, once a slot was found, the slot. */
    method AHCIWriteToStorage(lba: nat, sectors: nat, buffer: nat) returns (status: int, slot: int)
      requires Valid() && lba < TWO64 && sectors < TWO32 && buffer < TWO64
      requires SLOTS * SLOT_UNITS + PrdCount(sectors) <= units.Length
      modifies this`ci, headers, units
      ensures slot < 32 && forall j: nat | j < (if slot < 0 then 32 else slot) :: old(sact)[j] || old(ci)[j]
      ensures slot < 0 ==> status == STATUS_FAIL && unchanged(this, headers, units)
      ensures slot >= 0 ==> !old(sact)[slot] && !old(ci)[slot]
      ensures slot >= 0 ==> headers[..] == old(headers[..])[slot := Header(5, true, PrdCount(sectors))]
      ensures slot >= 0 ==> LaidOut(old(units[..]), units[..], slot, lba, sectors, buffer)
      ensures slot >= 0 && lba < 0x1_0000_0000_0000 && buffer + sectors * SECTOR <= TWO64 && 1 <= sectors <= 0x1_0000 ==>
        Commanded(headers[slot], units[..], slot, Write(lba, sectors), buffer, 512 * sectors)
      ensures slot >= 0 ==> ci == if status == STATUS_TIMEOUT then old(ci) else old(ci)[slot := true]
    {
      hide Entry, WriteFis, Commanded;
      slot := FindCmdslot();
      if slot < 0 { return STATUS_FAIL, -1; }
      headers[slot] := Header(5, true, PrdCount(sectors));
      ClearTable(slot, PrdCount(sectors));
      FillTable(slot, buffer, sectors);
      units[slot * SLOT_UNITS] := Register(WriteFis(lba, sectors));
      if lba < 0x1_0000_0000_0000 && buffer + sectors * SECTOR <= TWO64 {
        WriteIsCommandedExactlyWhen(old(units[..]), units[..], slot, lba, sectors, buffer);
      }
      var ready: bool := *;
      if !ready { return STATUS_TIMEOUT, slot; }
      ci := ci[slot := true];
      var failed: bool := *;
      return if failed then STATUS_FAIL else STATUS_OK, slot;
    }

    /** ahci_read: one descriptor; a timeout leaves the command unissued. */
    method AhciRead(lba: nat, sectors: nat, buffer: nat) returns (done: bool, slot: int)
      requires Valid() && lba < TWO64 && sectors < TWO32 && buffer < TWO64
      requires SLOTS * SLOT_UNITS <= units.Length
      modifies this`ci, headers, units
      ensures slot < 32 && forall j: nat | j < (if slot < 0 then 32 else slot) :: old(sact)[j] || old(ci)[j]
      ensures slot < 0 ==> !done && unchanged(this, headers, units)
      ensures slot >= 0 ==> !old(sact)[slot] && !old(ci)[slot]
      ensures slot >= 0 ==> headers[..] == old(headers[..])[slot := Header(5, false, 1)]
      ensures slot >= 0 ==> ReadLaidOut(old(units[..]), units[..], slot, lba, sectors, buffer)
      ensures slot >= 0 && lba < 0x1_0000_0000_0000 && buffer < TWO32 && 1 <= sectors <= 8192 ==>
        Commanded(headers[slot], units[..], slot, Read(lba, sectors), buffer, 512 * sectors)
      ensures done ==> slot >= 0 && ci == old(ci)[slot := true]
    {
      hide ReadEntry, ReadFis, Commanded;
      slot := FindCmdslot();
      if slot < 0 { return false, -1; }
      headers[slot] := Header(5, false, 1);
      ClearTable(slot, 1);
      units[slot * SLOT_UNITS + FIRST_PRD] := Descriptor(ReadEntry(buffer, sectors));
      units[slot * SLOT_UNITS] := Register(ReadFis(lba, sectors));
      if lba < 0x1_0000_0000_0000 { ReadIsCommandedExactlyWhen(old(units[..]), units[..], slot, lba, sectors, buffer); }
      var ready: bool := *;
      if !ready { return false, slot; }
      ci := ci[slot := true];
      done := *;
    }
  }

  lemma ChunksLeft(sectors: nat, i: nat)
    requires i < PrdCount(sectors)
    ensures i * CHUNK < TWO32 && U32(i * CHUNK) == i * CHUNK
    ensures (i < PrdCount(sectors) - 1 <==> ByteCount(sectors) - i * CHUNK > CHUNK)
  {
    MulMonotone(i, 0x3FFF, CHUNK);
    DivUnique(i * CHUNK, TWO32, 0, i * CHUNK);
    MulMonotone(i, PrdCount(sectors) - 1, CHUNK);
    if i < PrdCount(sectors) - 1 { MulMonotone(i + 1, PrdCount(sectors) - 1, CHUNK); }
  }

  lemma EntryIs(buffer: nat, sectors: nat, i: nat)
    requires i < PrdCount(sectors)
    ensures Entry(buffer, sectors, i)
      == var addr := U64(buffer + U32(i * CHUNK));
         Prd(addr % TWO32, addr / TWO32, Size(sectors, i) - 1, i == PrdCount(sectors) - 1)
  {
    ChunksLeft(sectors, i);
  }
}
