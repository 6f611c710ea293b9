/** Sectors, little-endian words and the FAT entry update of fs/vfs.c. */
module FatDisk {
  import opened Machine

  const BPS: nat := 512               // bytes per sector, as AHCI counts them
  const FAT32_EOC: nat := 0x0FFF_FFF8
  const LOW28: nat := 0x1000_0000

  type Sector = s: seq<byte> | |s| == BPS witness seq(BPS, _ => 0)

  /** The bytes of consecutive sectors. */
  function Flatten(secs: seq<Sector>): (r: seq<byte>)
    ensures |r| == BPS * |secs|
  {
    seq(BPS * |secs|, i requires 0 <= i < BPS * |secs| => DivBound(i, |secs|, BPS); secs[i / BPS][i % BPS])
  }

  /** Entry c of a FAT that occupies the given sectors: the little-endian word at byte 4 * c. */
  function FatWord(fat: seq<Sector>, c: nat): nat
    requires 4 * c + 4 <= 512 * |fat|
  {
    U32At(Flatten(fat), 4 * c)
  }

  function U16At(s: seq<byte>, off: nat): nat
    requires off + 2 <= |s|
  {
    (s[off] as int) + 0x100 * (s[off + 1] as int)
  }

  function U32At(s: seq<byte>, off: nat): (v: nat)
    requires off + 4 <= |s|
    ensures v < TWO32
  {
    (s[off] as int) + 0x100 * (s[off + 1] as int) + 0x1_0000 * (s[off + 2] as int) + 0x100_0000 * (s[off + 3] as int)
  }

  function Byte(v: nat, k: nat): byte {
    (match k case 0 => v case 1 => v / 0x100 case 2 => v / 0x1_0000 case _ => v / 0x100_0000) % 0x100
  }

  function SetU32(s: seq<byte>, off: nat, v: nat): (r: seq<byte>)
    requires off + 4 <= |s|
    ensures |r| == |s|
  {
    s[off := Byte(v, 0)][off + 1 := Byte(v, 1)][off + 2 := Byte(v, 2)][off + 3 := Byte(v, 3)]
  }

  lemma WordBytes(v: nat)
    requires v < TWO32
    ensures (Byte(v, 0) as int) + 0x100 * (Byte(v, 1) as int) + 0x1_0000 * (Byte(v, 2) as int)
            + 0x100_0000 * (Byte(v, 3) as int) == v
  {
    DivMod(v, 0x100);
    DivDiv(v, 0x100, 0x100);
    DivDiv(v, 0x1_0000, 0x100);
    DivMod(v / 0x100, 0x100);
    DivMod(v / 0x1_0000, 0x100);
    DivBound(v, 0x100, 0x100_0000);
    DivUnique(v / 0x100_0000, 0x100, 0, v / 0x100_0000);
  }

  function Word(v: nat): (s: seq<byte>)
    ensures |s| == 4
  {
    [Byte(v, 0), Byte(v, 1), Byte(v, 2), Byte(v, 3)]
  }

  function U64At(s: seq<byte>, off: nat): (v: nat)
    requires off + 8 <= |s|
    ensures v < TWO64
  {
    U32At(s, off) + TWO32 * U32At(s, off + 4)
  }

  /** The bytes s lie in m from offset at on. */
  ghost predicate LiesAt(m: seq<byte>, at: nat, s: seq<byte>) {
    at + |s| <= |m| && m[at..at + |s|] == s
  }

  lemma BytesAt(m: seq<byte>, at: nat, s: seq<byte>)
    requires LiesAt(m, at, s)
    ensures forall i | at <= i < at + |s| :: m[i] == s[i - at]
  {
    assert forall i | at <= i < at + |s| :: m[i] == m[at..at + |s|][i - at];
  }

  lemma WordAt(m: seq<byte>, at: nat, v: nat)
    requires LiesAt(m, at, Word(v)) && v < TWO32
    ensures U32At(m, at) == v
  {
    WordBytes(v);
    BytesAt(m, at, Word(v));
  }

  lemma PartLiesAt(m: seq<byte>, at: nat, a: seq<byte>, b: seq<byte>)
    requires LiesAt(m, at, a + b)
    ensures LiesAt(m, at, a) && LiesAt(m, at + |a|, b)
  {
    assert m[at..at + |a|] == (a + b)[..|a|] == a;
    assert m[at + |a|..at + |a| + |b|] == (a + b)[|a|..] == b;
  }

  lemma HalfBytes(v: nat)
    requires v < 0x1_0000
    ensures (Byte(v, 0) as int) + 0x100 * (Byte(v, 1) as int) == v
  {
    DivMod(v, 0x100);
    DivBound(v, 0x100, 0x100);
    DivUnique(v / 0x100, 0x100, 0, v / 0x100);
  }

  /** A 64-bit word, low half first. */
  function Quad(v: nat): (s: seq<byte>)
    ensures |s| == 8
  {
    Word(v % TWO32) + Word(v / TWO32)
  }

  lemma QuadAt(m: seq<byte>, at: nat, v: nat)
    requires LiesAt(m, at, Quad(v)) && v < TWO64
    ensures U64At(m, at) == v
  {
    hide U32At, Word;
    PartLiesAt(m, at, Word(v % TWO32), Word(v / TWO32));
    DivBound(v, TWO32, TWO32);
    WordAt(m, at, v % TWO32);
    WordAt(m, at + 4, v / TWO32);
    DivMod(v, TWO32);
  }

  lemma FlatByte(secs: seq<Sector>, i: nat, o: nat)
    requires i < |secs| && o < BPS
    ensures i * BPS + o < BPS * |secs| && Flatten(secs)[i * BPS + o] == secs[i][o]
  {
    DivUnique(i * BPS + o, BPS, i, o);
    MulMonotone(i + 1, |secs|, BPS);
  }

  /** An entry does not straddle sectors. */
  lemma WordInSector(fat: seq<Sector>, c: nat)
    requires 4 * c + 4 <= 512 * |fat|
    ensures c * 4 / BPS < |fat| && c * 4 % BPS + 4 <= BPS
    ensures FatWord(fat, c) == U32At(fat[c * 4 / BPS], c * 4 % BPS)
  {
    hide Flatten;
    var i, o := c / 128, c % 128 * 4;
    DivMod(c, 128);
    DivUnique(c * 4, BPS, i, o);
    DivBound(c * 4, |fat|, BPS);
    FlatByte(fat, i, o);
    FlatByte(fat, i, o + 1);
    FlatByte(fat, i, o + 2);
    FlatByte(fat, i, o + 3);
  }

  /** A stored word reads back, and no other aligned word moves. */
  lemma SetU32Reads(s: seq<byte>, off: nat, v: nat, at: nat)
    requires off + 4 <= |s| && at + 4 <= |s| && off % 4 == 0 && at % 4 == 0 && v < TWO32
    ensures U32At(SetU32(s, off, v), at) == if at == off then v else U32At(s, at)
  {
    WordBytes(v);
    assert at != off ==> at + 4 <= off || off + 4 <= at;
  }

  /** (entry & 0xF0000000) | (value & 0x0FFFFFFF) */
  function NewEntry(entry: nat, value: nat): (r: nat)
    requires entry < TWO32
    ensures r < TWO32 && r / LOW28 == entry / LOW28 && r % LOW28 == value % LOW28
  {
    DivMod(entry, LOW28);
    DivUnique(entry / LOW28 * LOW28 + value % LOW28, LOW28, entry / LOW28, value % LOW28);
    DivBound(entry, 16, LOW28);
    entry / LOW28 * LOW28 + value % LOW28
  }

  /** The in-buffer update of one FAT sector. */
  function Modify(s: Sector, off: nat, value: nat): Sector
    requires off + 4 <= BPS
  {
    SetU32(s, off, NewEntry(U32At(s, off), value))
  }
}
