/**
 The arithmetic reading of the C masks and shifts, on machine words: division and
 remainder by a power of two are what the model uses on natural numbers.
 */
module Bits {

  lemma PageTableIndices(x: bv64)
    ensures (x >> 39) & 0x1FF == x / 0x80_0000_0000 % 0x200
    ensures (x >> 30) & 0x1FF == x / 0x4000_0000 % 0x200
    ensures (x >> 21) & 0x1FF == x / 0x20_0000 % 0x200
    ensures (x >> 12) & 0x1FF == x / 0x1000 % 0x200
  {
  }

  lemma PageTableMasks(x: bv64)
    ensures x & 0x000F_FFFF_FFFF_F000 == (x / 0x1000 % 0x100_0000_0000) << 12
    ensures x & !0xFFF == x / 0x1000 * 0x1000
    ensures x & 0xFFFF_FFFF_FFE0_0000 == x / 0x20_0000 * 0x20_0000
    ensures x & 0xFFF == x % 0x1000 && x & 0x1F_FFFF == x % 0x20_0000
    ensures x & 1 == x % 2
  {
  }

  lemma LargeBit(x: bv64)
    ensures (x & 0x80) >> 7 == x / 0x80 % 2
  {
  }

  lemma EntryFlags(frame: bv64, block: bv64)
    ensures (frame << 12) | 0x3 == (frame << 12) + 0x3
    ensures (block << 21) | 0x83 == (block << 21) + 0x83
    ensures (block << 21) | 0x9B == (block << 21) + 0x9B
  {
  }

  lemma RoundUp(size: bv64)
    ensures (size + 0xFFF) & !0xFFF == (size + 0xFFF) / 0x1000 * 0x1000
  {
  }

  lemma FatEntry(entry: bv32, value: bv32)
    ensures (entry & 0xF000_0000) | (value & 0x0FFF_FFFF)
            == entry / 0x1000_0000 * 0x1000_0000 + value % 0x1000_0000
  {
  }
}
