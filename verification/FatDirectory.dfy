/**
 Directory entries of fs/vfs.c (FAT32 File System Specification, section "FAT Long Directory
 Entries"): how Fat32Lookup rebuilds names, and what a well-formed directory looks like.
 */
module FatDirectory {
  import opened Machine
  import opened FatDisk

  type DirEntry = e: seq<byte> | |e| == 32 witness seq(32, _ => 0)

  const DELETED: byte := 0xE5
  const ATTR_LFN: byte := 0x0F
  const MAX_FRAGMENTS: nat := 20
  const LFN_BUF: nat := 256
  const UNITS: nat := 13  // UTF-16 units in one long-name entry

  // ----- C strings

  /** The bytes before the first NUL. */
  function CStr(s: seq<byte>): (r: seq<byte>)
    ensures |r| <= |s| && r == s[..|r|]
    ensures NoNul(r) && (|r| < |s| ==> s[|r|] == 0)
  {
    if s == [] || s[0] == 0 then [] else [s[0]] + CStr(s[1..])
  }

  lemma {:induction false} CStrOf(s: seq<byte>, n: nat)
    requires n <= |s| && NoNul(s[..n]) && (n < |s| ==> s[n] == 0)
    ensures CStr(s) == s[..n]
  {
    if n > 0 {
      assert s[..n][0] == s[0] && s[1..][..n - 1] == s[..n][1..];
      CStrOf(s[1..], n - 1);
    }
  }

  function ToLower(c: byte): byte { if 65 <= c <= 90 then c + 32 else c }

  function Fold(s: seq<byte>): (r: seq<byte>)
    ensures |r| == |s|
  {
    seq(|s|, i requires 0 <= i < |s| => ToLower(s[i]))
  }

  /** strcasecmp on two NUL-free strings. */
  function StrCaseCmp(a: seq<byte>, b: seq<byte>): int {
    if a == [] && b == [] then 0
    else if a == [] then -(ToLower(b[0]) as int)
    else if b == [] then ToLower(a[0]) as int
    else if ToLower(a[0]) != ToLower(b[0]) then (ToLower(a[0]) as int) - (ToLower(b[0]) as int)
    else StrCaseCmp(a[1..], b[1..])
  }

  /** strcasecmp returns 0 exactly for names equal up to ASCII case. */
  lemma {:induction false} StrCaseCmpIsFoldEquality(a: seq<byte>, b: seq<byte>)
    requires NoNul(a) && NoNul(b)
    ensures StrCaseCmp(a, b) == 0 <==> Fold(a) == Fold(b)
  {
    if a != [] && b != [] {
      assert Fold(a)[0] == ToLower(a[0]) && Fold(b)[0] == ToLower(b[0]);
      assert Fold(a) == [ToLower(a[0])] + Fold(a[1..]);
      assert Fold(b) == [ToLower(b[0])] + Fold(b[1..]);
      assert Fold(a)[1..] == Fold(a[1..]) && Fold(b)[1..] == Fold(b[1..]);
      StrCaseCmpIsFoldEquality(a[1..], b[1..]);
    } else if a == b {
      assert Fold(a) == Fold(b);
    } else {
      assert |Fold(a)| != |Fold(b)|;
    }
  }

  /** The folded byte at index i of a C string, its terminator included. */
  function FoldedAt(s: seq<byte>, i: nat): int { if i < |s| then ToLower(s[i]) as int else 0 }

  /** For other names it returns the difference at the first index where the folded strings differ. */
  lemma {:induction false} StrCaseCmpIsDifference(a: seq<byte>, b: seq<byte>) returns (i: nat)
    requires NoNul(a) && NoNul(b) && Fold(a) != Fold(b)
    ensures i <= |a| && i <= |b| && (forall j | 0 <= j < i :: FoldedAt(a, j) == FoldedAt(b, j))
    ensures FoldedAt(a, i) != FoldedAt(b, i) && StrCaseCmp(a, b) == FoldedAt(a, i) - FoldedAt(b, i)
  {
    assert a == b ==> Fold(a) == Fold(b);
    if a == [] || b == [] || ToLower(a[0]) != ToLower(b[0]) {
      i := 0;
    } else {
      StrCaseCmpIsFoldEquality(a, b);
      StrCaseCmpIsFoldEquality(a[1..], b[1..]);
      i := StrCaseCmpIsDifference(a[1..], b[1..]);
      forall j | 0 <= j < i + 1 ensures FoldedAt(a, j) == FoldedAt(b, j) {
        if j > 0 { assert FoldedAt(a[1..], j - 1) == FoldedAt(b[1..], j - 1); }
      }
      i := i + 1;
    }
  }

  /** The same letter, or the upper and lower case of one letter A to Z. */
  predicate SameLetter(x: byte, y: byte) {
    x == y || (65 <= x <= 90 && y == x + 32) || (65 <= y <= 90 && x == y + 32)
  }

  lemma FoldsAlike(x: byte, y: byte)
    ensures ToLower(x) == ToLower(y) <==> SameLetter(x, y)
  {
  }

  /** Folded names are equal exactly when they are equal letter by letter up to case. */
  lemma FoldIs(a: seq<byte>, b: seq<byte>)
    ensures Fold(a) == Fold(b) <==> |a| == |b| && forall i | 0 <= i < |a| :: SameLetter(a[i], b[i])
  {
    hide ToLower, SameLetter;
    forall i | 0 <= i < |a| && i < |b| ensures Fold(a)[i] == Fold(b)[i] <==> SameLetter(a[i], b[i]) {
      FoldsAlike(a[i], b[i]);
    }
    if |a| == |b| && forall i | 0 <= i < |a| :: SameLetter(a[i], b[i]) {
      assert forall i | 0 <= i < |a| :: Fold(a)[i] == Fold(b)[i];
    }
  }

  // ----- fields of an entry

  function Attr(e: DirEntry): byte { e[11] }

  function Order(e: DirEntry): nat { (e[0] as int) % 32 }

  /** The k-th UTF-16 unit of a long-name entry, across name1, name2 and name3. */
  function Unit(e: DirEntry, k: nat): nat
    requires k < UNITS
  {
    if k < 5 then U16At(e, 1 + 2 * k) else if k < 11 then U16At(e, 14 + 2 * (k - 5)) else U16At(e, 28 + 2 * (k - 11))
  }

  function FirstCluster(e: DirEntry): nat { U16At(e, 20) * 0x1_0000 + U16At(e, 26) }

  function FileSize(e: DirEntry): nat { U32At(e, 28) }

  predicate IsDirectory(e: DirEntry) { (Attr(e) as int) / 16 % 2 == 1 }

  // ----- rebuilding a long name

  /** One of the three copy loops: units k..end of e to buf from idx on, until a terminator. */
  function CopyUnits(buf: seq<byte>, idx: nat, e: DirEntry, k: nat, end: nat): (r: (seq<byte>, nat))
    requires |buf| == LFN_BUF && k <= end <= UNITS
    ensures |r.0| == LFN_BUF
    decreases end - k
  {
    if k == end || idx >= LFN_BUF - 1 then (buf, idx)
    else
      var c := Unit(e, k);
      if c == 0 || c == 0xFFFF then (buf, idx) else CopyUnits(buf[idx := c % 0x100], idx + 1, e, k + 1, end)
  }

  /** Copy one long-name entry to its place in the buffer; also where the copy ended. */
  function CopyFragment(buf: seq<byte>, e: DirEntry): (r: (seq<byte>, nat))
    requires |buf| == LFN_BUF && 0 < Order(e)
    ensures |r.0| == LFN_BUF
  {
    var (b1, i1) := CopyUnits(buf, (Order(e) - 1) * UNITS, e, 0, 5);
    var (b2, i2) := CopyUnits(b1, i1, e, 5, 11);
    CopyUnits(b2, i2, e, 11, UNITS)
  }

  predicate UsableOrder(e: DirEntry) { 0 < Order(e) <= MAX_FRAGMENTS }

  predicate AllUsable(frags: seq<DirEntry>) { forall i | 0 <= i < |frags| :: UsableOrder(frags[i]) }

  /** The buffer and the furthest end after copying all pending entries in turn. */
  function Assemble(frags: seq<DirEntry>): (r: (seq<byte>, nat))
    requires AllUsable(frags)
    ensures |r.0| == LFN_BUF
  {
    if frags == [] then (seq(LFN_BUF, _ => 0), 0)
    else
      var (b, last) := Assemble(frags[..|frags| - 1]);
      var (b', idx) := CopyFragment(b, frags[|frags| - 1]);
      (b', if idx > last then idx else last)
  }

  function LongName(frags: seq<DirEntry>): seq<byte>
    requires AllUsable(frags)
  {
    var (b, last) := Assemble(frags);
    CStr(if last < LFN_BUF then b[last := 0] else b[LFN_BUF - 1 := 0])
  }

  // ----- 8.3 names

  /** The bytes of a space-padded field before the first space. */
  function Trim(s: seq<byte>): seq<byte> {
    if s == [] || s[0] == 0x20 then [] else [s[0]] + Trim(s[1..])
  }

  function ShortName(e: DirEntry): seq<byte> {
    CStr(Trim(e[..8]) + (if e[8] != 0x20 then [0x2E] + Trim(e[8..11]) else []))
  }

  // ----- the scan of Fat32Lookup

  datatype Found = Found(name: seq<byte>, directory: bool, size: nat, firstCluster: nat)

  function FoundAt(e: DirEntry, name: seq<byte>): Found {
    Found(name, IsDirectory(e), if IsDirectory(e) then 0 else FileSize(e), FirstCluster(e))
  }

  function Candidate(e: DirEntry, pending: seq<DirEntry>): seq<byte>
    requires AllUsable(pending)
  {
    if pending != [] then LongName(pending) else ShortName(e)
  }

  function Scan(entries: seq<DirEntry>, pending: seq<DirEntry>, query: seq<byte>): Option<Found>
    requires AllUsable(pending)
  {
    if entries == [] || entries[0][0] == 0 then None
    else
      var e, rest := entries[0], entries[1..];
      if e[0] == DELETED then Scan(rest, pending, query)
      else if Attr(e) == ATTR_LFN then
        Scan(rest, if UsableOrder(e) && |pending| < MAX_FRAGMENTS then pending + [e] else pending, query)
      else if StrCaseCmp(Candidate(e, pending), query) == 0 then Some(FoundAt(e, Candidate(e, pending)))
      else Scan(rest, [], query)
  }

  // ----- well-formed directories

  /** A file as its directory group describes it; other holds the attributes besides the directory bit. */
  datatype Item = Item(long: Option<seq<byte>>, base: seq<byte>, ext: seq<byte>, directory: bool, other: byte, cluster: nat, size: nat)

  ghost predicate NameOk(name: seq<byte>) {
    0 < |name| <= 255 && NoNul(name)
  }

  ghost predicate Padded(field: seq<byte>, s: seq<byte>) {
    && |s| <= |field|
    && forall k | 0 <= k < |field| :: if k < |s| then field[k] == s[k] && s[k] != 0x20 && s[k] != 0 else field[k] == 0x20
  }

  /** Attributes: read-only, hidden, system and archive next to the directory bit, but not the mark of a long-name entry. */
  predicate AttributesOk(item: Item) {
    (item.other < 0x10 || 0x20 <= item.other < 0x30) && (item.other == 0x0F ==> item.directory)
  }

  /** e is the short entry of an item: bytes 11, 20-21, 26-27 and 28-31 as the specification places them, the times free. */
  ghost predicate ShortOk(e: DirEntry, item: Item) {
    && item.base != [] && Padded(e[..8], item.base) && Padded(e[8..11], item.ext) && e[0] != 0xE5
    && AttributesOk(item) && e[11] == item.other + (if item.directory then 0x10 else 0)
    && item.cluster < TWO32
    && e[26] == item.cluster % 0x100 && e[27] == item.cluster / 0x100 % 0x100
    && e[20] == item.cluster / 0x1_0000 % 0x100 && e[21] == item.cluster / 0x100_0000 % 0x100
    && item.size < TWO32
    && e[28] == item.size % 0x100 && e[29] == item.size / 0x100 % 0x100
    && e[30] == item.size / 0x1_0000 % 0x100 && e[31] == item.size / 0x100_0000 % 0x100
  }

  /** e is the k-th long-name entry of name: 13 units, then a NUL, then 0xFFFF. */
  ghost predicate IsFragment(e: DirEntry, name: seq<byte>, k: nat) {
    && e[0] != 0 && e[0] != DELETED && Attr(e) == ATTR_LFN && Order(e) == k && 0 < k <= MAX_FRAGMENTS
    && (k - 1) * UNITS < |name|
    && forall j: nat | j < UNITS :: Unit(e, j) == UnitOf(name, (k - 1) * UNITS + j)
  }

  function UnitOf(name: seq<byte>, pos: nat): nat {
    if pos < |name| then name[pos] else if pos == |name| then 0 else 0xFFFF
  }

  function FragmentCount(name: seq<byte>): nat { Steps(|name|, UNITS) }

  /** The group before the short entry: fragments in any order, every one present, deleted entries anywhere. */
  ghost predicate GroupOk(group: seq<DirEntry>, item: Item) {
    && (forall e | e in group :: e[0] == DELETED || (item.long.Some? && IsFragment(e, item.long.value, Order(e))))
    && (item.long.Some? ==>
          && NameOk(item.long.value)
          && (forall k | 0 < k <= FragmentCount(item.long.value) :: HasFragment(group, k))
          && |Kept(group)| <= MAX_FRAGMENTS)
  }

  ghost predicate HasFragment(group: seq<DirEntry>, k: nat) {
    exists e | e in group :: e[0] != DELETED && Order(e) == k
  }

  /** The entries of a group that are not deleted, in order. */
  function Kept(group: seq<DirEntry>): (r: seq<DirEntry>)
    ensures forall e :: e in r <==> e in group && e[0] != DELETED
  {
    if group == [] then [] else (if group[0][0] == DELETED then [] else [group[0]]) + Kept(group[1..])
  }

  /** Deleted entries up to the end, or to an end marker with anything behind it. */
  ghost predicate TailOk(entries: seq<DirEntry>) {
    entries != [] && entries[0][0] != 0 ==> entries[0][0] == DELETED && TailOk(entries[1..])
  }

  ghost predicate Encodes(entries: seq<DirEntry>, items: seq<Item>)
    decreases |items|
  {
    if items == [] then TailOk(entries)
    else exists n: nat :: n < |entries| && StartsWith(entries, n, items[0]) && Encodes(entries[n + 1..], items[1..])
  }

  ghost predicate StartsWith(entries: seq<DirEntry>, n: nat, item: Item)
    requires n < |entries|
  {
    GroupOk(entries[..n], item) && ShortOk(entries[n], item)
  }

  function ItemName(item: Item): seq<byte> {
    if item.long.Some? then item.long.value
    else item.base + (if item.ext == [] then [] else [0x2E] + item.ext)
  }

  /** An item under its name; a directory has no size of its own. */
  function FileOf(item: Item): Found {
    Found(ItemName(item), item.directory, if item.directory then 0 else item.size, item.cluster)
  }

  /** What a lookup is for: the first item whose name matches up to ASCII case. */
  function FirstMatch(items: seq<Item>, query: seq<byte>): Option<Found> {
    if items == [] then None
    else if Fold(ItemName(items[0])) == Fold(query) then Some(FileOf(items[0]))
    else FirstMatch(items[1..], query)
  }
}
