/** Directories and files stored on one volume: what a lookup by name followed by a read brings back. */
module FatStored {
  import opened Machine
  import opened FatDisk
  import opened FatChain
  import opened FatDirectory
  import opened FatReaderCode
  import opened FatLookupCode
  import opened FatFile
  import E = FatEncode
  import T = Tokens

  /** The bytes of directory entries one after the other. */
  function DirBytes(es: seq<DirEntry>): (r: seq<byte>)
    ensures |r| == 32 * |es|
  {
    if es == [] then [] else DirBytes(es[..|es| - 1]) + es[|es| - 1]
  }

  lemma {:induction false} DirBytesAt(es: seq<DirEntry>, i: nat)
    requires i < |es|
    ensures DirBytes(es)[32 * i..32 * i + 32] == es[i]
    decreases |es|
  {
    if i < |es| - 1 {
      DirBytesAt(es[..|es| - 1], i);
      var before := DirBytes(es[..|es| - 1]);
      assert DirBytes(es)[32 * i..32 * i + 32] == before[32 * i..32 * i + 32];
    }
  }

  /** A cluster that starts with these bytes has these entries first. */
  lemma EntriesOfBytes(data: seq<byte>, es: seq<DirEntry>)
    requires 32 * |es| <= |data| && data[..32 * |es|] == DirBytes(es)
    ensures |es| <= |Entries(data)| && Entries(data)[..|es|] == es
  {
    hide DirBytes;
    DivBound(|data|, |es|, 32);
    forall i: nat | i < |es| ensures Entries(data)[i] == es[i] {
      DirBytesAt(es, i);
      assert data[32 * i..32 * i + 32] == data[..32 * |es|][32 * i..32 * i + 32];
    }
  }

  /** Whatever follows the end marker of an encoded directory makes no difference. */
  lemma {:induction false} EncodedThenJunk(items: seq<Item>, junk: seq<DirEntry>)
    requires forall item | item in items :: E.ItemOk(item)
    ensures Encodes(E.EncodeDirectory(items) + junk, items)
    decreases |items|
  {
    hide ShortOk, IsFragment, E.ItemOk, E.Fragment, E.ShortEntry;
    var entries := E.EncodeDirectory(items) + junk;
    if items == [] {
      assert entries[0] == E.EndMarker();
    } else {
      var item, rest := items[0], E.EncodeDirectory(items[1..]);
      var group := E.EncodeItem(item);
      var n := |group| - 1;
      E.GroupIsEncoded(item);
      assert entries == group + (rest + junk);
      assert entries[..n] == group[..n] && entries[n] == group[n] && entries[n + 1..] == rest + junk;
      EncodedThenJunk(items[1..], junk);
      assert StartsWith(entries, n, item);
    }
  }

  /** The bytes of the first cluster of a stored file. */
  lemma FirstClusterIs(v: Volume, cs: seq<nat>, data: seq<byte>, n: nat)
    requires IsFile(v, cs, data) && n <= |data| && n <= 512 * v.spc
    ensures v.spc > 0 && cs[0] >= 2 && ClusterData(v, cs[0]).Some?
    ensures |ClusterData(v, cs[0]).value| == 512 * v.spc && ClusterData(v, cs[0]).value[..n] == data[..n]
  {
    hide Flatten, DataAt, ByteStored;
    ChainedFacts(v, cs, 0);
    ClusterIs(v, cs[0]);
    var got := ClusterData(v, cs[0]).value;
    forall x: nat | x < n ensures got[x] == data[x] {
      FirstClusterByte(v, cs, data, x);
    }
  }

  lemma FirstClusterByte(v: Volume, cs: seq<nat>, data: seq<byte>, x: nat)
    requires IsFile(v, cs, data) && x < |data| && x < 512 * v.spc
    ensures ClusterData(v, cs[0]).Some? && x < |ClusterData(v, cs[0]).value| && ClusterData(v, cs[0]).value[x] == data[x]
  {
    hide Chained, Flatten, ByteStored, ClusterData;
    FileFacts(v, cs, data);
    DataByte(v, cs, data, x);
    DivUnique(x, 512 * v.spc, 0, x);
    ChainedFacts(v, cs, 0);
    ClusterInside(v, cs, data, 0);
    StoredByte(v, cs[0], x, data[x]);
  }

  /** v holds a directory, of which the entries of these items come first and fit the first cluster. */
  ghost predicate DirectoryAt(v: Volume, cs: seq<nat>, data: seq<byte>, items: seq<Item>) {
    && IsFile(v, cs, data)
    && (forall item | item in items :: E.ItemOk(item))
    && var bytes := DirBytes(E.EncodeDirectory(items)); |bytes| <= |data| && |bytes| <= 512 * v.spc && data[..|bytes|] == bytes
  }

  /** Looking a name up in a stored directory finds the first file of that name, with the numbers written into its entry. */
  lemma StoredDirectoryIsSearched(v: Volume, cs: seq<nat>, data: seq<byte>, items: seq<Item>, query: seq<byte>)
    requires DirectoryAt(v, cs, data, items) && NoNul(query)
    ensures cs != [] && LookupIn(v, cs[0], query) == FirstMatch(items, query)
  {
    hide IsFile, Encodes, ClusterData, E.EncodeDirectory, E.ItemOk, FirstMatch, DirBytes, LookupIn;
    var es := E.EncodeDirectory(items);
    FileFacts(v, cs, data);
    FirstClusterIs(v, cs, data, 32 * |es|);
    var got := ClusterData(v, cs[0]).value;
    assert got[..32 * |es|] == DirBytes(es);
    EntriesOfBytes(got, es);
    var junk := Entries(got)[|es|..];
    assert Entries(got) == es + junk;
    EncodedThenJunk(items, junk);
    LookupInFindsFirst(v, cs[0], items, query);
  }

  /**
   Main result: a file stored in some clusters and listed in a stored directory. A lookup of its name
   hands out its first cluster and size, and a read from there on copies its data.
   */
  lemma FoundAndRead(v: Volume, dirCs: seq<nat>, dir: seq<byte>, items: seq<Item>, query: seq<byte>,
                     item: Item, cs: seq<nat>, data: seq<byte>, offset: nat, size: nat, got: seq<byte>)
    requires DirectoryAt(v, dirCs, dir, items) && NoNul(query) && FirstMatch(items, query) == Some(FileOf(item)) && !item.directory
    requires IsFile(v, cs, data) && cs != [] && item.cluster == cs[0] && item.size == |data|
    requires v.spc > 0 && offset < |data|
    requires LookupIn(v, dirCs[0], query).Some? ==>
      var f := LookupIn(v, dirCs[0], query).value;
      f.size == |data| && FileCopied(v, f.firstCluster, f.size, offset, size, got)
    ensures |got| == Min(Min(size, |data| - offset), CallEnds(512 * v.spc, offset) - offset)
    ensures got == data[offset..offset + |got|]
  {
    hide DirectoryAt, IsFile, LookupIn, FirstMatch, CallEnds;
    StoredDirectoryIsSearched(v, dirCs, dir, items, query);
  }

  // ----- paths

  /** A directory of a path: where it is stored, what it lists, and the name looked up in it. */
  datatype Level = Level(cs: seq<nat>, data: seq<byte>, items: seq<Item>, name: seq<byte>, next: Item)

  /** The directory lists the item first under that name. */
  ghost predicate LevelOk(v: Volume, l: Level) {
    DirectoryAt(v, l.cs, l.data, l.items) && NoNul(l.name) && FirstMatch(l.items, l.name) == Some(FileOf(l.next))
  }

  /** The item of each level is the directory of the following one. */
  ghost predicate Leads(v: Volume, levels: seq<Level>) {
    levels != [] ==>
      && LevelOk(v, levels[0])
      && (|levels| > 1 ==> levels[1].cs != [] && levels[0].next.cluster == levels[1].cs[0])
      && Leads(v, levels[1..])
  }

  function Names(levels: seq<Level>): seq<seq<byte>> {
    if levels == [] then [] else [levels[0].name] + Names(levels[1..])
  }

  lemma LevelIsSearched(v: Volume, l: Level)
    requires LevelOk(v, l)
    ensures l.cs != [] && LookupIn(v, l.cs[0], l.name) == Some(FileOf(l.next))
  {
    hide DirectoryAt, FirstMatch, LookupIn;
    StoredDirectoryIsSearched(v, l.cs, l.data, l.items, l.name);
  }

  /** Walking the names from a node of the first directory ends at the item that the last directory lists. */
  lemma {:induction false} WalkDescends(v: Volume, start: Found, levels: seq<Level>)
    requires Leads(v, levels) && levels != [] && levels[0].cs != [] && start.firstCluster == levels[0].cs[0]
    ensures Walk(v, Some(start), Names(levels)) == Some(FileOf(levels[|levels| - 1].next))
    decreases |levels|
  {
    hide LevelOk, LookupIn;
    var l, rest, names := levels[0], levels[1..], Names(levels);
    LevelIsSearched(v, l);
    assert names[0] == l.name && names[1..] == Names(rest);
    if rest != [] {
      WalkDescends(v, FileOf(l.next), rest);
    } else {
      assert Names(rest) == [];
    }
  }

  /** A component of a path. */
  predicate ComponentOk(name: seq<byte>) { name != [] && forall i | 0 <= i < |name| :: name[i] != 0x2F }

  function Join(names: seq<seq<byte>>): seq<byte> {
    if names == [] then [] else [0x2F] + names[0] + Join(names[1..])
  }

  lemma {:induction false} SkipTo(s: seq<byte>, i: nat, j: nat)
    requires i <= j <= |s| && (forall k | i <= k < j :: s[k] == 0x2F) && (j < |s| ==> s[j] != 0x2F)
    ensures T.Skip(s, SLASH, i) == j
    decreases j - i
  {
    if i < j { SkipTo(s, i + 1, j); }
  }

  lemma {:induction false} RunTo(s: seq<byte>, i: nat, j: nat)
    requires i <= j <= |s| && (forall k | i <= k < j :: s[k] != 0x2F) && (j < |s| ==> s[j] == 0x2F)
    ensures T.RunEnd(s, SLASH, i) == j
    decreases j - i
  {
    if i < j { RunTo(s, i + 1, j); }
  }

  lemma FirstSegmentIs(path: seq<byte>, i: nat, e: nat)
    requires i + 1 < e <= |path| && path[i] == 0x2F && (forall k | i < k < e :: path[k] != 0x2F)
    requires e < |path| ==> path[e] == 0x2F
    ensures Segments(path, i) == [path[i + 1..e]] + Segments(path, e)
  {
    SkipTo(path, i, i + 1);
    RunTo(path, i + 1, e);
    hide T.Skip, T.RunEnd;
  }

  lemma MiddlePart(a: seq<byte>, name: seq<byte>, rest: seq<byte>)
    ensures var path := a + name + rest;
      && path[|a|..|a| + |name|] == name && path[..|a|] == a && path[|a| + |name|..] == rest
  {
  }

  lemma FirstOfJoined(a: seq<byte>, name: seq<byte>, rest: seq<byte>)
    requires a != [] && a[|a| - 1] == 0x2F && ComponentOk(name) && (rest != [] ==> rest[0] == 0x2F)
    ensures var path := a + name + rest;
      Segments(path, |a| - 1) == [name] + Segments(path, |a| + |name|)
  {
    hide Segments;
    var path := a + name + rest;
    var b, e := |a|, |a| + |name|;
    MiddlePart(a, name, rest);
    assert path[b - 1] == path[..b][b - 1];
    forall k | b <= k < e ensures path[k] != 0x2F {
      assert path[k] == path[b..e][k - b];
    }
    assert e < |path| ==> path[e] == path[e..][0];
    FirstSegmentIs(path, b - 1, e);
  }

  /** The components of a path are the names it was joined from. */
  lemma {:induction false} SegmentsOfJoined(front: seq<byte>, names: seq<seq<byte>>)
    requires forall n | n in names :: ComponentOk(n)
    ensures Segments(front + Join(names), |front|) == names
    decreases |names|
  {
    hide Segments, ComponentOk;
    if names == [] {
      NothingJoined(front);
    } else {
      var name, rest := names[0], Join(names[1..]);
      var before := front + [0x2F] + name;
      assert front + Join(names) == before + rest;
      assert rest != [] ==> rest[0] == 0x2F;
      FirstOfJoined(front + [0x2F], name, rest);
      SegmentsOfJoined(before, names[1..]);
    }
  }

  lemma NothingJoined(front: seq<byte>)
    ensures Segments(front + Join([]), |front|) == []
  {
    SkipTo(front + Join([]), |front|, |front|);
  }
}
