/**
 An encoder for directory clusters as the FAT Long Directory Entries section of Microsoft's FAT32
 File System Specification v1.03 lays them out, and the round trip through the lookup of fs/vfs.c.
 */
module FatEncode {
  import opened Machine
  import opened FatDisk
  import opened FatDirectory
  import opened FatDecode

  const LAST_LONG_ENTRY: nat := 0x40

  /** Where byte i of a long-name entry holds part of a unit: the unit's index, else UNITS. */
  function UnitIndex(i: nat): nat {
    if 1 <= i < 11 then (i - 1) / 2 else if 14 <= i < 26 then 5 + (i - 14) / 2 else if 28 <= i < 32 then 11 + (i - 28) / 2 else UNITS
  }

  function FragmentByte(name: seq<byte>, k: nat, i: nat): byte
    requires 0 < k <= MAX_FRAGMENTS
  {
    if i == 0 then k + (if k * UNITS >= |name| then LAST_LONG_ENTRY else 0)
    else if i == 11 then ATTR_LFN
    else if UnitIndex(i) == UNITS then 0
    else
      var u := UnitOf(name, (k - 1) * UNITS + UnitIndex(i));
      if (i < 11) == (i % 2 == 1) then u % 0x100 else u / 0x100 % 0x100
  }

  /** The k-th long-name entry of a name. */
  function Fragment(name: seq<byte>, k: nat): DirEntry
    requires 0 < k <= MAX_FRAGMENTS
  {
    seq(32, i requires 0 <= i => FragmentByte(name, k, i))
  }

  /** The long-name entries k, k-1, ..., 1, the order in which they precede the short entry. */
  function LongEntries(name: seq<byte>, k: nat): seq<DirEntry>
    requires k <= MAX_FRAGMENTS
  {
    if k == 0 then [] else [Fragment(name, k)] + LongEntries(name, k - 1)
  }

  /** A part of an 8.3 name: no padding and no NUL inside, and it fits its field. */
  ghost predicate PartOk(part: seq<byte>, width: nat) {
    |part| <= width && forall i | 0 <= i < |part| :: part[i] != 0x20 && part[i] != 0
  }

  ghost predicate ItemOk(item: Item) {
    && item.base != [] && item.base[0] != 0xE5 && PartOk(item.base, 8) && PartOk(item.ext, 3)
    && AttributesOk(item) && item.cluster < TWO32 && item.size < TWO32
    && (item.long.Some? ==> NameOk(item.long.value))
  }

  function PartByte(part: seq<byte>, i: nat): byte { if i < |part| then part[i] else 0x20 }

  /** Byte i of the short entry of an item; the times are left zero. */
  function ShortByte(item: Item, i: nat): byte
    requires AttributesOk(item)
  {
    if i < 8 then PartByte(item.base, i)
    else if i < 11 then PartByte(item.ext, i - 8)
    else if i == 11 then item.other + (if item.directory then 0x10 else 0)
    else if i == 20 then item.cluster / 0x1_0000 % 0x100
    else if i == 21 then item.cluster / 0x100_0000 % 0x100
    else if i == 26 then item.cluster % 0x100
    else if i == 27 then item.cluster / 0x100 % 0x100
    else if i == 28 then item.size % 0x100
    else if i == 29 then item.size / 0x100 % 0x100
    else if i == 30 then item.size / 0x1_0000 % 0x100
    else if i == 31 then item.size / 0x100_0000 % 0x100
    else 0
  }

  function ShortEntry(item: Item): DirEntry
    requires AttributesOk(item)
  {
    seq(32, i requires 0 <= i => ShortByte(item, i))
  }

  lemma ShortEntryIsShort(item: Item)
    requires ItemOk(item)
    ensures ShortOk(ShortEntry(item), item)
  {
    var e := ShortEntry(item);
    assert forall i | 0 <= i < 8 :: e[..8][i] == PartByte(item.base, i);
    assert forall i | 0 <= i < 3 :: e[8..11][i] == PartByte(item.ext, i);
  }

  lemma FewFragments(name: seq<byte>)
    requires NameOk(name)
    ensures 0 < FragmentCount(name) <= MAX_FRAGMENTS
  {
    DivBound(|name| + UNITS - 1, MAX_FRAGMENTS + 1, UNITS);
    DivBound(|name| + UNITS - 1, 1, UNITS);
  }

  lemma FragmentStartsInName(name: seq<byte>, k: nat)
    requires 0 < k <= FragmentCount(name)
    ensures (k - 1) * UNITS < |name|
  {
    DivBound(|name| + UNITS - 1, k, UNITS);
  }

  function EncodeItem(item: Item): seq<DirEntry>
    requires ItemOk(item)
  {
    match item.long
    case None => [ShortEntry(item)]
    case Some(name) =>
      FewFragments(name);
      LongEntries(name, FragmentCount(name)) + [ShortEntry(item)]
  }

  function EndMarker(): DirEntry { seq(32, _ => 0) }

  function EncodeDirectory(items: seq<Item>): seq<DirEntry>
    requires forall item | item in items :: ItemOk(item)
  {
    if items == [] then [EndMarker()] else EncodeItem(items[0]) + EncodeDirectory(items[1..])
  }

  function UnitStart(j: nat): nat { if j < 5 then 1 + 2 * j else if j < 11 then 14 + 2 * (j - 5) else 28 + 2 * (j - 11) }

  lemma UnitBytes(name: seq<byte>, k: nat, j: nat)
    requires 0 < k <= MAX_FRAGMENTS && j < UNITS
    ensures var u, at := UnitOf(name, (k - 1) * UNITS + j), UnitStart(j);
      FragmentByte(name, k, at) == u % 0x100 && FragmentByte(name, k, at + 1) == u / 0x100 % 0x100
  {
    hide UnitOf;
    assert UnitIndex(UnitStart(j)) == j && UnitIndex(UnitStart(j) + 1) == j;
  }

  lemma UnitIsWord(name: seq<byte>, pos: nat)
    ensures var u := UnitOf(name, pos); u % 0x100 + 0x100 * (u / 0x100 % 0x100) == u
  {
    var u := UnitOf(name, pos);
    DivMod(u, 0x100);
    DivBound(u, 0x100, 0x100);
    DivUnique(u / 0x100, 0x100, 0, u / 0x100);
  }

  lemma FragmentUnits(name: seq<byte>, k: nat, j: nat)
    requires 0 < k <= MAX_FRAGMENTS && j < UNITS
    ensures Unit(Fragment(name, k), j) == UnitOf(name, (k - 1) * UNITS + j)
  {
    hide UnitOf, FragmentByte;
    UnitBytes(name, k, j);
    UnitIsWord(name, (k - 1) * UNITS + j);
    assert Unit(Fragment(name, k), j) == U16At(Fragment(name, k), UnitStart(j));
  }

  lemma FragmentIsFragment(name: seq<byte>, k: nat)
    requires 0 < k <= MAX_FRAGMENTS && (k - 1) * UNITS < |name|
    ensures IsFragment(Fragment(name, k), name, k)
  {
    var e := Fragment(name, k);
    forall j: nat | j < UNITS ensures Unit(e, j) == UnitOf(name, (k - 1) * UNITS + j) {
      FragmentUnits(name, k, j);
    }
    assert e[0] == k || e[0] == k + LAST_LONG_ENTRY;
  }

  lemma {:induction false} FragmentsAreOk(name: seq<byte>, n: nat)
    requires NameOk(name) && n <= FragmentCount(name) <= MAX_FRAGMENTS
    ensures |Kept(LongEntries(name, n))| == n
    ensures forall e | e in LongEntries(name, n) :: e[0] != DELETED && IsFragment(e, name, Order(e))
    ensures forall k | 0 < k <= n :: HasFragment(LongEntries(name, n), k)
    decreases n
  {
    if n > 0 {
      FragmentStartsInName(name, n);
      FragmentIsFragment(name, n);
      FragmentsAreOk(name, n - 1);
      var all, rest := LongEntries(name, n), LongEntries(name, n - 1);
      assert all[0] == Fragment(name, n) && all[1..] == rest;
      forall k | 0 < k <= n ensures HasFragment(all, k) {
        if k == n {
          assert all[0] in all;
        } else {
          assert HasFragment(rest, k);
          var e :| e in rest && e[0] != DELETED && Order(e) == k;
          assert e in all;
        }
      }
    }
  }

  /** What the encoder writes for one item is a group followed by its short entry. */
  lemma GroupIsEncoded(item: Item)
    requires ItemOk(item)
    ensures var es := EncodeItem(item); es != [] && GroupOk(es[..|es| - 1], item) && ShortOk(es[|es| - 1], item)
  {
    hide IsFragment, Fragment, UnitOf, ShortEntry, ShortOk, PartOk, AttributesOk;
    ShortEntryIsShort(item);
    var es := EncodeItem(item);
    if item.long.Some? {
      FewFragments(item.long.value);
      FragmentsAreOk(item.long.value, FragmentCount(item.long.value));
      assert es[..|es| - 1] == LongEntries(item.long.value, FragmentCount(item.long.value));
    }
  }

  /** The encoder produces well-formed directories. */
  lemma {:induction false} EncoderIsWellFormed(items: seq<Item>)
    requires forall item | item in items :: ItemOk(item)
    ensures Encodes(EncodeDirectory(items), items)
    decreases |items|
  {
    hide GroupOk, ShortOk, EncodeItem, ItemOk;
    if items != [] {
      var item, rest := items[0], EncodeDirectory(items[1..]);
      var entries, n := EncodeDirectory(items), |EncodeItem(item)| - 1;
      GroupIsEncoded(item);
      assert entries[..n] == EncodeItem(item)[..n] && entries[n] == EncodeItem(item)[n] && entries[n + 1..] == rest;
      assert StartsWith(entries, n, item);
      EncoderIsWellFormed(items[1..]);
    }
  }

  /** Encode, then look up: the first item whose name matches comes back with its cluster, type and size. */
  lemma LookupOfEncoded(items: seq<Item>, query: seq<byte>)
    requires (forall item | item in items :: ItemOk(item)) && NoNul(query)
    ensures Scan(EncodeDirectory(items), [], query) == FirstMatch(items, query)
  {
    EncoderIsWellFormed(items);
    LookupFindsFirst(EncodeDirectory(items), items, query);
  }
}
