/** Decoding undoes encoding: a lookup in a well-formed directory finds the first matching file. */
module FatDecode {
  import opened Machine
  import opened FatDisk
  import opened FatDirectory

  /** The long name as it lies in the buffer, zero behind it. */
  function Want(name: seq<byte>, pos: nat): byte { if pos < |name| then name[pos] else 0 }

  /** The units k..end of the fragment at base land in place, up to the end of the name. */
  lemma {:induction false} CopyUnitsCopies(buf: seq<byte>, base: nat, e: DirEntry, k: nat, end: nat, name: seq<byte>, idx: nat)
    requires |buf| == LFN_BUF && k <= end <= UNITS && NameOk(name)
    requires forall j: nat | j < UNITS :: Unit(e, j) == UnitOf(name, base + j)
    requires idx == Min(base + k, |name|)
    ensures var (b, i) := CopyUnits(buf, idx, e, k, end);
      && i == Min(base + end, |name|)
      && forall pos | 0 <= pos < LFN_BUF :: b[pos] == if idx <= pos < i then name[pos] else buf[pos]
    decreases end - k
  {
    if k < end && idx < LFN_BUF - 1 {
      var c := Unit(e, k);
      assert c == UnitOf(name, base + k);
      if base + k < |name| {
        assert name[base + k] != 0;
        CopyUnitsCopies(buf[idx := c % 0x100], base, e, k + 1, end, name, idx + 1);
      }
    }
  }

  lemma CopyFragmentCopies(buf: seq<byte>, e: DirEntry, name: seq<byte>, k: nat)
    requires |buf| == LFN_BUF && NameOk(name) && IsFragment(e, name, k)
    ensures var (b, i) := CopyFragment(buf, e);
      && i == Min(k * UNITS, |name|)
      && forall pos | 0 <= pos < LFN_BUF :: b[pos] == if (k - 1) * UNITS <= pos < i then name[pos] else buf[pos]
  {
    var base := (k - 1) * UNITS;
    var (b1, i1) := CopyUnits(buf, base, e, 0, 5);
    CopyUnitsCopies(buf, base, e, 0, 5, name, base);
    var (b2, i2) := CopyUnits(b1, i1, e, 5, 11);
    CopyUnitsCopies(b1, base, e, 5, 11, name, i1);
    CopyUnitsCopies(b2, base, e, 11, UNITS, name, i2);
  }

  ghost predicate Fragments(frags: seq<DirEntry>, name: seq<byte>) {
    forall i | 0 <= i < |frags| :: IsFragment(frags[i], name, Order(frags[i]))
  }

  /** Some fragment in the list covers this position of the name. */
  ghost predicate Covers(frags: seq<DirEntry>, pos: nat) {
    exists i | 0 <= i < |frags| :: Order(frags[i]) == pos / UNITS + 1
  }

  lemma InFragment(pos: nat, k: nat)
    requires k > 0
    ensures (k - 1) * UNITS <= pos < k * UNITS <==> k == pos / UNITS + 1
  {
    DivMod(pos, UNITS);
  }

  /** Copying the fragments in any order fills exactly the positions they cover. */
  lemma {:induction false} AssembleFills(frags: seq<DirEntry>, name: seq<byte>)
    requires NameOk(name) && Fragments(frags, name)
    ensures AllUsable(frags)
    ensures var (b, last) := Assemble(frags);
      && (forall pos: nat | pos < LFN_BUF :: b[pos] == if Covers(frags, pos) then Want(name, pos) else 0)
      && last <= |name|
      && (Covers(frags, |name| - 1) ==> last == |name|)
  {
    hide CopyFragment, Unit, UnitOf;
    if frags != [] {
      var n := |frags| - 1;
      var before, e := frags[..n], frags[n];
      var k := Order(e);
      AssembleFills(before, name);
      var (b, last) := Assemble(before);
      assert IsFragment(e, name, k);
      CopyFragmentCopies(b, e, name, k);
      var (b', idx) := CopyFragment(b, e);
      forall pos: nat ensures Covers(frags, pos) <==> Covers(before, pos) || k == pos / UNITS + 1 {
        if Covers(before, pos) {
          var i :| 0 <= i < n && Order(before[i]) == pos / UNITS + 1;
          assert frags[i] == before[i];
        }
        if k == pos / UNITS + 1 { assert Order(frags[n]) == pos / UNITS + 1; }
        if Covers(frags, pos) {
          var i :| 0 <= i <= n && Order(frags[i]) == pos / UNITS + 1;
          if i < n { assert before[i] == frags[i]; }
        }
      }
      forall pos: nat | pos < LFN_BUF ensures b'[pos] == if Covers(frags, pos) then Want(name, pos) else 0 {
        InFragment(pos, k);
      }
      InFragment(|name| - 1, k);
    }
  }

  /** Fragments in any order, every one present: the rebuilt name is the name. */
  lemma LongNameDecodes(frags: seq<DirEntry>, name: seq<byte>)
    requires NameOk(name) && Fragments(frags, name)
    requires forall pos: nat | pos < |name| :: Covers(frags, pos)
    ensures AllUsable(frags) && LongName(frags) == name
  {
    AssembleFills(frags, name);
    var (b, last) := Assemble(frags);
    var s := b[last := 0];
    assert s[..|name|] == name;
    CStrOf(s, |name|);
  }

  lemma {:induction false} TrimPadded(field: seq<byte>, s: seq<byte>)
    requires Padded(field, s)
    ensures Trim(field) == s && NoNul(s)
  {
    if s != [] {
      assert field[0] == s[0];
      assert Padded(field[1..], s[1..]) by {
        forall k | 0 <= k < |field| - 1
          ensures if k < |s| - 1 then field[1..][k] == s[1..][k] && s[1..][k] != 0x20 && s[1..][k] != 0 else field[1..][k] == 0x20
        {
          assert field[1..][k] == field[k + 1];
        }
      }
      TrimPadded(field[1..], s[1..]);
      assert s == [s[0]] + s[1..];
    } else if field != [] {
      assert field[0] == 0x20;
    }
  }

  lemma ShortNameDecodes(e: DirEntry, item: Item)
    requires ShortOk(e, item)
    ensures ShortName(e) == item.base + (if item.ext == [] then [] else [0x2E] + item.ext)
    ensures e[0] != 0 && e[0] != DELETED && Attr(e) != ATTR_LFN
  {
    TrimPadded(e[..8], item.base);
    TrimPadded(e[8..11], item.ext);
    assert e[8..11][0] == e[8];
    assert e[..8][0] == e[0];
    var s := item.base + (if item.ext == [] then [] else [0x2E] + item.ext);
    assert e[8] != 0x20 <==> item.ext != [];
    assert s[..|s|] == s;
    CStrOf(s, |s|);
  }

  /** First cluster, size and type of an entry are those that were put there, byte by byte. */
  lemma FieldsDecode(e: DirEntry, item: Item)
    requires ShortOk(e, item)
    ensures FoundAt(e, ItemName(item)) == FileOf(item)
  {
    hide Padded, ItemName;
    WordBytes(item.cluster);
    WordBytes(item.size);
    assert FirstCluster(e) == item.cluster;
    assert FileSize(e) == item.size;
  }

  // ----- scanning one group

  /** One deleted or long-name entry of a scan. */
  lemma ScanSkips(e: DirEntry, rest: seq<DirEntry>, pending: seq<DirEntry>, query: seq<byte>)
    requires AllUsable(pending) && e[0] != 0
    ensures e[0] == DELETED ==> Scan([e] + rest, pending, query) == Scan(rest, pending, query)
    ensures e[0] != DELETED && Attr(e) == ATTR_LFN && UsableOrder(e) && |pending| < MAX_FRAGMENTS ==>
      AllUsable(pending + [e]) && Scan([e] + rest, pending, query) == Scan(rest, pending + [e], query)
  {
    hide Candidate, StrCaseCmp, FoundAt;
    assert ([e] + rest)[1..] == rest;
  }

  /** The short entry of a group: the candidate matches, or the scan goes on with nothing pending. */
  lemma ScanShort(entries: seq<DirEntry>, pending: seq<DirEntry>, query: seq<byte>)
    requires entries != [] && AllUsable(pending)
    requires entries[0][0] != 0 && entries[0][0] != DELETED && Attr(entries[0]) != ATTR_LFN
    ensures var name := Candidate(entries[0], pending);
      Scan(entries, pending, query)
      == if StrCaseCmp(name, query) == 0 then Some(FoundAt(entries[0], name)) else Scan(entries[1..], [], query)
  {
    hide Candidate, StrCaseCmp, FoundAt;
  }

  lemma KeptStep(group: seq<DirEntry>, pending: seq<DirEntry>)
    ensures group == [] ==> pending + Kept(group) == pending && |Kept(group)| == 0
    ensures group != [] && group[0][0] == DELETED ==> Kept(group) == Kept(group[1..])
    ensures group != [] && group[0][0] != DELETED ==>
      |Kept(group)| == 1 + |Kept(group[1..])| && pending + Kept(group) == (pending + [group[0]]) + Kept(group[1..])
  {
  }

  /** Scanning a group collects its kept entries, in order. */
  lemma {:induction false} ScanGroup(group: seq<DirEntry>, rest: seq<DirEntry>, pending: seq<DirEntry>, query: seq<byte>)
    requires AllUsable(pending) && |pending| + |Kept(group)| <= MAX_FRAGMENTS
    requires forall i | 0 <= i < |group| ::
      group[i][0] == DELETED || (group[i][0] != 0 && Attr(group[i]) == ATTR_LFN && UsableOrder(group[i]))
    ensures AllUsable(pending + Kept(group))
    ensures Scan(group + rest, pending, query) == Scan(rest, pending + Kept(group), query)
    decreases |group|
  {
    hide Scan, UsableOrder, Attr, Kept;
    KeptStep(group, pending);
    if group == [] {
      assert group + rest == rest;
    } else {
      var e, tail := group[0], group[1..];
      assert group + rest == [e] + (tail + rest);
      ScanSkips(e, tail + rest, pending, query);
      ScanGroup(tail, rest, if e[0] == DELETED then pending else pending + [e], query);
    }
  }

  lemma {:induction false} TailFindsNothing(entries: seq<DirEntry>, query: seq<byte>)
    requires TailOk(entries)
    ensures Scan(entries, [], query) == None
  {
    if entries != [] && entries[0][0] != 0 {
      TailFindsNothing(entries[1..], query);
    }
  }

  lemma {:induction false} KeptOfDeleted(group: seq<DirEntry>)
    requires forall e | e in group :: e[0] == DELETED
    ensures Kept(group) == []
  {
    if group != [] {
      assert group[0] in group;
      KeptOfDeleted(group[1..]);
    }
  }

  /** The fragments that a group leaves pending cover its whole long name. */
  lemma KeptCovers(group: seq<DirEntry>, item: Item, pos: nat)
    requires GroupOk(group, item) && item.long.Some? && pos < |item.long.value|
    ensures Covers(Kept(group), pos)
  {
    var name, k := item.long.value, pos / UNITS + 1;
    assert k <= FragmentCount(name) by {
      DivMod(pos, UNITS);
      DivBound(|name| + UNITS - 1, k, UNITS);
    }
    assert HasFragment(group, k);
    var e :| e in group && e[0] != DELETED && Order(e) == k;
    assert e in Kept(group);
    var i :| 0 <= i < |Kept(group)| && Kept(group)[i] == e;
  }

  /** A group and its short entry present the item's name as the candidate. */
  lemma GroupDecodes(group: seq<DirEntry>, e: DirEntry, item: Item)
    requires GroupOk(group, item) && ShortOk(e, item)
    ensures AllUsable(Kept(group)) && |Kept(group)| <= MAX_FRAGMENTS
    ensures Candidate(e, Kept(group)) == ItemName(item)
    ensures forall i | 0 <= i < |group| ::
      group[i][0] == DELETED || (group[i][0] != 0 && Attr(group[i]) == ATTR_LFN && UsableOrder(group[i]))
  {
    forall i | 0 <= i < |group|
      ensures group[i][0] == DELETED || (group[i][0] != 0 && Attr(group[i]) == ATTR_LFN && UsableOrder(group[i]))
    {
      assert group[i] in group;
    }
    ShortNameDecodes(e, item);
    if item.long.Some? {
      var name := item.long.value;
      forall i | 0 <= i < |Kept(group)| ensures IsFragment(Kept(group)[i], name, Order(Kept(group)[i])) {
        assert Kept(group)[i] in Kept(group);
      }
      forall pos: nat | pos < |name| ensures Covers(Kept(group), pos) {
        KeptCovers(group, item, pos);
      }
      assert Covers(Kept(group), 0);
      LongNameDecodes(Kept(group), name);
    } else {
      KeptOfDeleted(group);
    }
  }

  lemma NamesAreStrings(group: seq<DirEntry>, e: DirEntry, item: Item)
    requires ShortOk(e, item) && GroupOk(group, item)
    ensures NoNul(ItemName(item))
  {
    TrimPadded(e[..8], item.base);
    TrimPadded(e[8..11], item.ext);
    if item.long.Some? { assert NameOk(item.long.value); }
  }

  /** Main result: over any well-formed directory cluster the scan returns the first matching file, or nothing. */
  lemma {:induction false} LookupFindsFirst(entries: seq<DirEntry>, items: seq<Item>, query: seq<byte>)
    requires Encodes(entries, items) && NoNul(query)
    ensures Scan(entries, [], query) == FirstMatch(items, query)
    decreases |items|
  {
    hide Scan, Candidate, StrCaseCmp, FoundAt, FileOf, GroupOk, ShortOk, ItemName, Fold, Kept, Attr;
    if items == [] {
      TailFindsNothing(entries, query);
    } else {
      var item := items[0];
      var n: nat :| n < |entries| && StartsWith(entries, n, item) && Encodes(entries[n + 1..], items[1..]);
      var group, rest := entries[..n], entries[n..];
      var e := entries[n];
      GroupDecodes(group, e, item);
      ScanGroup(group, rest, [], query);
      assert group + rest == entries && [] + Kept(group) == Kept(group);
      assert rest[0] == e && rest[1..] == entries[n + 1..];
      ShortNameDecodes(e, item);
      FieldsDecode(e, item);
      ScanShort(rest, Kept(group), query);
      NamesAreStrings(group, e, item);
      StrCaseCmpIsFoldEquality(ItemName(item), query);
      LookupFindsFirst(entries[n + 1..], items[1..], query);
    }
  }
}
