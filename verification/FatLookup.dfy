/** Fat32Lookup and Fat32Open of fs/vfs.c as code over one directory cluster. */
module FatLookupCode {
  import opened Machine
  import opened FatDisk
  import opened FatChain
  import opened FatDirectory
  import opened FatReaderCode
  import opened FatNode
  import opened FatNodeCode
  import FatDecode
  import E = FatEncode
  import K = Kheap
  import T = Tokens

  const SLASH: seq<byte> := [0x2F]

  /** The directory entries in a cluster's bytes. */
  function Entries(data: seq<byte>): seq<DirEntry> {
    seq(|data| / 32, i requires 0 <= i < |data| / 32 => data[32 * i..32 * i + 32])
  }

  /** The lookup of one name: only the first cluster of the directory is searched. */
  function LookupIn(v: Volume, cluster: nat, query: seq<byte>): Option<Found> {
    if cluster < 2 || ClusterData(v, cluster).None? then None
    else Scan(Entries(ClusterData(v, cluster).value), [], query)
  }

  /** On a readable, well-formed directory cluster a lookup finds the first file of that name, or nothing. */
  lemma LookupInFindsFirst(v: Volume, cluster: nat, items: seq<Item>, query: seq<byte>)
    requires cluster >= 2 && ClusterData(v, cluster).Some? && NoNul(query)
    requires Encodes(Entries(ClusterData(v, cluster).value), items)
    ensures LookupIn(v, cluster, query) == FirstMatch(items, query)
  {
    FatDecode.LookupFindsFirst(Entries(ClusterData(v, cluster).value), items, query);
  }

  /** The path components from index i on: the maximal slash-free runs. */
  function Segments(path: seq<byte>, i: nat := 0): seq<seq<byte>>
    requires i <= |path|
    decreases |path| - i
  {
    var b := T.Skip(path, SLASH, i);
    if b == |path| then [] else [path[b..T.RunEnd(path, SLASH, b)]] + Segments(path, T.RunEnd(path, SLASH, b))
  }

  lemma {:induction false} SegmentsAreRuns(path: seq<byte>, i: nat, k: nat)
    requires i <= |path| && k < |T.Runs(path, SLASH, i)|
    ensures |Segments(path, i)| == |T.Runs(path, SLASH, i)|
    ensures var r := T.Runs(path, SLASH, i)[k]; r.0 <= r.1 <= |path| && Segments(path, i)[k] == path[r.0..r.1]
    decreases |path| - i
  {
    var b := T.Skip(path, SLASH, i);
    var e := T.RunEnd(path, SLASH, b);
    T.RunEndAdvances(path, SLASH, b);
    if |T.Runs(path, SLASH, e)| > 0 {
      SegmentsAreRuns(path, e, if k > 0 then k - 1 else 0);
    } else {
      T.RunsUnfold(path, SLASH, e);
    }
  }

  /** Following path components from a node; NULL once a component is missing. */
  function Walk(v: Volume, node: Option<Found>, segments: seq<seq<byte>>): Option<Found>
    decreases |segments|
  {
    if node.None? || segments == [] then node
    else Walk(v, LookupIn(v, node.value.firstCluster, segments[0]), segments[1..])
  }

  // ----- what a scan can find

  lemma {:induction false} TrimShrinks(s: seq<byte>)
    ensures |Trim(s)| <= |s|
  {
    if s != [] { TrimShrinks(s[1..]); }
  }

  /** Every candidate is a C string shorter than the name buffer. */
  lemma CandidateIsName(e: DirEntry, pending: seq<DirEntry>)
    requires AllUsable(pending)
    ensures NoNul(Candidate(e, pending)) && |Candidate(e, pending)| < 256
  {
    hide Assemble, Trim, CStr;
    TrimShrinks(e[..8]);
    TrimShrinks(e[8..11]);
    if pending != [] {
      var (b, last) := Assemble(pending);
      var at := if last < LFN_BUF then last else LFN_BUF - 1;
      CStrStops(b[at := 0], at);
    }
  }

  lemma CStrStops(s: seq<byte>, at: nat)
    requires at < |s| && s[at] == 0
    ensures |CStr(s)| <= at
  {
    assert forall i | 0 <= i < |CStr(s)| :: CStr(s)[i] == s[i];
  }

  lemma {:induction false} FoundIsEntrylike(entries: seq<DirEntry>, pending: seq<DirEntry>, query: seq<byte>)
    requires AllUsable(pending) && Scan(entries, pending, query).Some?
    ensures var f := Scan(entries, pending, query).value; Entrylike(f) && |f.name| < LFN_BUF
    decreases |entries|
  {
    hide Candidate, StrCaseCmp;
    var e, rest := entries[0], entries[1..];
    if e[0] == DELETED {
      FoundIsEntrylike(rest, pending, query);
    } else if Attr(e) == ATTR_LFN {
      FoundIsEntrylike(rest, if UsableOrder(e) && |pending| < MAX_FRAGMENTS then pending + [e] else pending, query);
    } else if StrCaseCmp(Candidate(e, pending), query) == 0 {
      CandidateIsName(e, pending);
    } else {
      FoundIsEntrylike(rest, [], query);
    }
  }

  lemma LookupIsEntrylike(v: Volume, cluster: nat, query: seq<byte>)
    requires LookupIn(v, cluster, query).Some?
    ensures var f := LookupIn(v, cluster, query).value; Entrylike(f) && |f.name| < LFN_BUF
  {
    FoundIsEntrylike(Entries(ClusterData(v, cluster).value), [], query);
  }

  /** The heap after a lookup: untouched, or with the node of what was found at index at. */
  ghost predicate Returned(before: seq<byte>, after: seq<byte>, at: nat, found: Option<Found>, l: Links) {
    match found
    case None => after == before
    case Some(f) => Room(before, at, f.name) && after == FillNode(before, at, f, l)
  }

  /** The pointers of the node handed out: its parent, the operations, and the file system data of the parent. */
  ghost predicate LinkedTo(h: seq<byte>, at: nat, l: Links) {
    at + NODE <= |h| && U64At(h, at + 24) == l.parent && U64At(h, at + 48) == l.fsOps && U64At(h, at + 56) == l.fsData
  }

  lemma ReturnedLinks(before: seq<byte>, after: seq<byte>, at: nat, found: Option<Found>, l: Links)
    requires Returned(before, after, at, found, l) && found.Some? && l.parent < TWO64 && l.fsOps < TWO64 && l.fsData < TWO64
    ensures LinkedTo(after, at, l)
  {
    hide FillNode, U64At;
    LinksReadBack(before, at, found.value, l);
  }

  /** What reads back from the node of f, whatever the length of its name. */
  ghost predicate NodeOf(h: seq<byte>, at: nat, f: Found) {
    && at + NODE <= |h| && h[at + TYPE] == TypeByte(f) && NodeCluster(h, at) == f.firstCluster
    && (NodeSize(h, at) == f.size <==> (f.directory ==> |f.name| <= SIZE))
    && (Telling(f) ==> (NodeName(h, at) == f.name <==> |f.name| < TYPE))
  }

  /** The exact condition under which the node handed out for f is right. */
  ghost predicate RightWhenShort(before: seq<byte>, at: nat, found: Option<Found>, l: Links) {
    match found
    case None => true
    case Some(f) => Room(before, at, f.name) && (Telling(f) ==> (NodeRight(before, at, f, l) <==> |f.name| < TYPE))
  }

  lemma ReturnedIsRight(before: seq<byte>, after: seq<byte>, at: nat, v: Volume, cluster: nat, query: seq<byte>, l: Links)
    requires Returned(before, after, at, LookupIn(v, cluster, query), l)
    ensures RightWhenShort(before, at, LookupIn(v, cluster, query), l)
  {
    hide LookupIn, NodeRight, Telling;
    if LookupIn(v, cluster, query).Some? {
      LookupIsEntrylike(v, cluster, query);
      var f := LookupIn(v, cluster, query).value;
      if Telling(f) { NodeRightExactlyWhen(before, at, f, l); }
    }
  }

  lemma ReturnedNode(before: seq<byte>, after: seq<byte>, at: nat, f: Found, l: Links)
    requires Returned(before, after, at, Some(f), l) && Entrylike(f)
    ensures NodeOf(after, at, f) && at + NODE <= |after| == |before| && NodeCluster(after, at) == f.firstCluster
  {
    hide FillNode, NodeName, NodeSize, NodeCluster, Telling;
    TypeAndClusterReadBack(before, at, f, l);
    SizeReadsBackExactlyWhen(before, at, f, l);
    if Telling(f) { NameReadsBackExactlyWhen(before, at, f, l); }
  }

  /**
   A lookup in a well-formed directory hands out a node that is right, for the first file of that
   name, exactly when the name has at most 15 bytes.
   */
  lemma LookupNodeRightExactlyWhen(v: Volume, cluster: nat, items: seq<Item>, query: seq<byte>, h: seq<byte>, at: nat, l: Links)
    requires cluster >= 2 && ClusterData(v, cluster).Some? && NoNul(query)
    requires Encodes(Entries(ClusterData(v, cluster).value), items) && FirstMatch(items, query).Some?
    requires var f := FirstMatch(items, query).value; Room(h, at, f.name) && Telling(f)
    ensures var f := FirstMatch(items, query).value;
      LookupIn(v, cluster, query) == Some(f) && (NodeRight(h, at, f, l) <==> |f.name| < TYPE)
  {
    hide Encodes, ClusterData, FirstMatch, Telling, NodeRight;
    LookupInFindsFirst(v, cluster, items, query);
    LookupIsEntrylike(v, cluster, query);
    NodeRightExactlyWhen(h, at, FirstMatch(items, query).value, l);
  }

  /** A directory under a name of 80 letters, with a short entry of its own. */
  function LongItem(): (item: Item)
    ensures E.ItemOk(item) && item.long.Some? && |item.long.value| == 80 && NoNul(item.long.value)
  {
    Item(Some(seq(80, _ => 0x41)), [0x41], [], true, 0, 5, 0)
  }

  /** Encoded and looked up, it comes back as a node with another name, a size, children, and a spill behind it. */
  lemma LongNameSpoilsNode(at: nat, l: Links)
    ensures var f := FileOf(LongItem());
            var h: seq<byte> := seq(at + LFN_BUF, _ => 0);
            var r := FillNode(h, at, f, l);
      && Scan(E.EncodeDirectory([LongItem()]), [], f.name) == Some(f) && f.directory
      && NodeName(r, at) != f.name && NodeSize(r, at) != 0 && U64At(r, at + CHILDREN) != 0
      && r[at + NODE] != h[at + NODE]
  {
    hide Scan, FillNode, NodeName, NodeSize, U64At, FieldByte, LongItem, FileOf, Entrylike, Telling, E.EncodeDirectory, E.ItemOk, FirstMatch;
    var item := LongItem();
    var f := FileOf(item);
    LongFound();
    E.LookupOfEncoded([item], f.name);
    LongItemMatches();
    var h: seq<byte> := seq(at + LFN_BUF, _ => 0);
    NameReadsBackExactlyWhen(h, at, f, l);
    SizeReadsBackExactlyWhen(h, at, f, l);
    ChildrenReadBackExactlyWhen(h, at, f, l);
    NodeByte(h, at, f, l, NODE);
    LateByte(f, l, NODE);
  }

  lemma LongFound()
    ensures var f := FileOf(LongItem());
      && f.name == LongItem().long.value && |f.name| == 80 && f.name[NODE] == 0x41
      && NoNul(f.name) && f.directory && f.size == 0 && Entrylike(f) && Telling(f)
  {
  }

  /** One round of the loops that copy a padded field. */
  lemma TrimStep(e: DirEntry, name: seq<byte>, lo: nat, hi: nat)
    requires lo < hi <= |e| && e[lo] != 0x20
    ensures name + Trim(e[lo..hi]) == (name + [e[lo]]) + Trim(e[lo + 1..hi])
  {
    assert e[lo..hi][1..] == e[lo + 1..hi];
  }

  lemma TrimStop(e: DirEntry, name: seq<byte>, lo: nat, hi: nat)
    requires lo <= hi <= |e| && (lo < hi ==> e[lo] == 0x20)
    ensures name + Trim(e[lo..hi]) == name
  {
  }

  lemma LongItemMatches()
    ensures var item := LongItem(); FirstMatch([item], item.long.value) == Some(FileOf(item))
  {
    hide Fold;
    assert ItemName([LongItem()][0]) == LongItem().long.value;
  }

  /** Skipping slashes first makes no difference to the components. */
  lemma FirstSegment(path: seq<byte>)
    ensures Segments(path, T.Skip(path, SLASH, 0)) == Segments(path)
    ensures path == [] || path[0] != 0x2F ==> T.Skip(path, SLASH, 0) == 0
    ensures Segments(path, |path|) == [] && T.Skip(path, SLASH, |path|) == |path|
  {
    var b := T.Skip(path, SLASH, 0);
    assert T.Skip(path, SLASH, b) == b;
  }

  /** From the start of a component: it, and behind the slashes the remaining ones. */
  lemma NextSegment(path: seq<byte>, p: nat)
    requires p < |path| && T.Skip(path, SLASH, p) == p
    ensures var e := T.RunEnd(path, SLASH, p);
            var q := T.Skip(path, SLASH, e);
      && p < e && T.Skip(path, SLASH, q) == q
      && Segments(path, p) != [] && Segments(path, p)[0] == path[p..e] && Segments(path, p)[1..] == Segments(path, q)
  {
    T.RunEndAdvances(path, SLASH, p);
    var e := T.RunEnd(path, SLASH, p);
    assert Segments(path, p) == [path[p..e]] + Segments(path, e);
  }

  lemma NothingReturned(h: seq<byte>, at: nat, l: Links)
    ensures Returned(h, h, at, None, l) && RightWhenShort(h, at, None, l)
  {
  }

  class Directory {
    const reader: FatReader
    const lfnBuf: array<byte>
    const nodes: NodeHeap
    const fsOps: nat              // &fat32_ops

    constructor (reader: FatReader, nodes: NodeHeap, fsOps: nat)
      requires nodes.Valid()
      ensures Valid() && this.reader == reader && this.nodes == nodes && this.fsOps == fsOps && fresh(lfnBuf)
    {
      this.reader, this.nodes, this.fsOps := reader, nodes, fsOps;
      lfnBuf := new byte[LFN_BUF](_ => 0);
    }

    ghost predicate Valid()
      reads nodes, nodes.heap
    {
      lfnBuf.Length == LFN_BUF && lfnBuf != nodes.bytes && nodes.Valid()
    }

    /** Does the heap have room for n nodes and the longest name behind the last one? */
    ghost predicate RoomFor(n: nat)
      requires Valid()
      reads nodes, nodes.heap
    {
      nodes.Used() + n * NODE + LFN_BUF <= nodes.bytes.Length
    }

    predicate InHeap(node: nat) {
      K.HEAP_START <= node && node - K.HEAP_START + NODE <= nodes.bytes.Length
    }

    /** One of the three copy loops over name1, name2 and name3. */
    method CopyLoop(start: nat, e: DirEntry, k0: nat, end: nat) returns (idx: nat)
      requires lfnBuf.Length == LFN_BUF && k0 <= end <= UNITS
      modifies lfnBuf
      ensures (lfnBuf[..], idx) == CopyUnits(old(lfnBuf[..]), start, e, k0, end)
    {
      idx := start;
      var k := k0;
      while k < end && idx < LFN_BUF - 1
        invariant k0 <= k <= end
        invariant CopyUnits(lfnBuf[..], idx, e, k, end) == CopyUnits(old(lfnBuf[..]), start, e, k0, end)
        decreases end - k
      {
        var c := Unit(e, k);
        if c == 0 || c == 0xFFFF { break; }
        ghost var before := lfnBuf[..];
        lfnBuf[idx] := c % 0x100;
        assert lfnBuf[..] == before[idx := c % 0x100];
        idx := idx + 1;
        k := k + 1;
      }
    }

    method CopyEntry(e: DirEntry) returns (idx: nat)
      requires lfnBuf.Length == LFN_BUF && UsableOrder(e)
      modifies lfnBuf
      ensures (lfnBuf[..], idx) == CopyFragment(old(lfnBuf[..]), e)
    {
      hide CopyUnits;
      idx := CopyLoop((Order(e) - 1) * UNITS, e, 0, 5);
      idx := CopyLoop(idx, e, 5, 11);
      idx := CopyLoop(idx, e, 11, UNITS);
    }

    method ClearBuffer()
      requires lfnBuf.Length == LFN_BUF
      modifies lfnBuf
      ensures lfnBuf[..] == seq(LFN_BUF, _ => 0)
    {
      for i := 0 to LFN_BUF
        invariant forall x | 0 <= x < i :: lfnBuf[x] == 0
      {
        lfnBuf[i] := 0;
      }
    }

    /** Rebuild the name from the pending entries, in the order in which they were stored. */
    method RebuildLongName(lfnList: seq<DirEntry>) returns (candidate: seq<byte>)
      requires lfnBuf.Length == LFN_BUF && AllUsable(lfnList)
      modifies lfnBuf
      ensures candidate == LongName(lfnList)
    {
      hide CopyFragment, CStr;
      ClearBuffer();
      var lastIdx := 0;
      assert lfnList[..0] == [];
      for j := 0 to |lfnList|
        invariant AllUsable(lfnList[..j]) && (lfnBuf[..], lastIdx) == Assemble(lfnList[..j])
      {
        assert lfnList[..j + 1][..j] == lfnList[..j];
        var idx := CopyEntry(lfnList[j]);
        if idx > lastIdx { lastIdx := idx; }
      }
      assert lfnList[..|lfnList|] == lfnList;
      ghost var full := lfnBuf[..];
      if lastIdx < LFN_BUF {
        lfnBuf[lastIdx] := 0;
        assert lfnBuf[..] == full[lastIdx := 0];
      } else {
        lfnBuf[LFN_BUF - 1] := 0;
        assert lfnBuf[..] == full[LFN_BUF - 1 := 0];
      }
      candidate := CStr(lfnBuf[..]);
    }

    method BuildShortName(e: DirEntry) returns (candidate: seq<byte>)
      ensures candidate == ShortName(e)
    {
      hide CStr, Trim;
      var name := [];
      var len := 0;
      while len < 8 && e[len] != 0x20
        invariant len <= 8 && name + Trim(e[len..8]) == Trim(e[..8])
      {
        TrimStep(e, name, len, 8);
        name := name + [e[len]];
        len := len + 1;
      }
      TrimStop(e, name, len, 8);
      if e[8] != 0x20 {
        ghost var stem := name + [0x2E];
        name := name + [0x2E];
        var j := 0;
        while j < 3 && e[8 + j] != 0x20
          invariant j <= 3 && name + Trim(e[8 + j..11]) == stem + Trim(e[8..11])
        {
          TrimStep(e, name, 8 + j, 11);
          name := name + [e[8 + j]];
          j := j + 1;
        }
        TrimStop(e, name, 8 + j, 11);
        assert name == stem + Trim(e[8..11]) == Trim(e[..8]) + ([0x2E] + Trim(e[8..11]));
      }
      candidate := CStr(name);
    }

    /** The loop of Fat32Lookup over the entries of a cluster; the match gets its node. */
    method Search(entries: seq<DirEntry>, query: seq<byte>, l: Links) returns (r: Option<nat>)
      requires Valid() && RoomFor(1)
      modifies lfnBuf, nodes.heap, nodes.bytes
      ensures Valid() && r == if Scan(entries, [], query).Some? then Some(old(nodes.heap.heapCurr)) else None
      ensures nodes.Used() == old(nodes.Used()) + if r.Some? then NODE else 0
      ensures Returned(old(nodes.bytes[..]), nodes.bytes[..], old(nodes.Used()), Scan(entries, [], query), l)
    {
      hide Candidate, StrCaseCmp, FoundAt, LongName, ShortName, Returned;
      var lfnList: seq<DirEntry> := [];
      var i := 0;
      assert entries[0..] == entries;
      NothingReturned(nodes.bytes[..], nodes.Used(), l);
      while i < |entries|
        invariant i <= |entries| && AllUsable(lfnList) && |lfnList| <= MAX_FRAGMENTS
        invariant Scan(entries[i..], lfnList, query) == Scan(entries, [], query)
        invariant nodes.bytes[..] == old(nodes.bytes[..]) && nodes.heap.heapCurr == old(nodes.heap.heapCurr)
      {
        var e := entries[i];
        assert entries[i..][1..] == entries[i + 1..];
        i := i + 1;
        if e[0] == 0 { return None; }
        if e[0] != DELETED {
          if Attr(e) == ATTR_LFN {
            if UsableOrder(e) && |lfnList| < MAX_FRAGMENTS { lfnList := lfnList + [e]; }
          } else {
            var candidate := NameOf(e, lfnList);
            if StrCaseCmp(candidate, query) == 0 {
              CandidateIsName(e, lfnList);
              r := MatchNode(e, candidate, l);
              return;
            }
            lfnList := [];
          }
        }
      }
      r := None;
    }

    method MatchNode(e: DirEntry, candidate: seq<byte>, l: Links) returns (r: Option<nat>)
      requires Valid() && RoomFor(1) && |candidate| < LFN_BUF
      modifies nodes.heap, nodes.bytes
      ensures Valid() && r == Some(old(nodes.heap.heapCurr)) && nodes.Used() == old(nodes.Used()) + NODE
      ensures Returned(old(nodes.bytes[..]), nodes.bytes[..], old(nodes.Used()), Some(FoundAt(e, candidate)), l)
    {
      hide FillNode;
      var node := nodes.NewNode(FoundAt(e, candidate), l);
      r := Some(node);
    }

    method NameOf(e: DirEntry, lfnList: seq<DirEntry>) returns (candidate: seq<byte>)
      requires lfnBuf.Length == LFN_BUF && AllUsable(lfnList)
      modifies lfnBuf
      ensures candidate == Candidate(e, lfnList)
    {
      if |lfnList| > 0 {
        candidate := RebuildLongName(lfnList);
      } else {
        candidate := BuildShortName(e);
      }
    }

    /** The pointers that a lookup in dir stores into the node it returns. */
    ghost function LinksFrom(h: seq<byte>, dir: nat): Links
      requires InHeap(dir) && |h| == nodes.bytes.Length
    {
      Links(dir, fsOps, U64At(h, dir - K.HEAP_START + FS_DATA))
    }

    /** dir and the result are heap addresses of nodes. */
    method Fat32Lookup(dir: nat, query: seq<byte>) returns (r: Option<nat>)
      requires Valid() && RoomFor(1) && InHeap(dir) && reader.volume.spc > 0
      modifies reader`faults, lfnBuf, nodes.heap, nodes.bytes
      ensures Valid() && reader.faults >= old(reader.faults)
      ensures nodes.Used() == old(nodes.Used()) + if r.Some? then NODE else 0
      ensures var h := old(nodes.bytes[..]);
              var found := LookupIn(reader.volume, NodeCluster(h, dir - K.HEAP_START), query);
        && (r.Some? ==> found.Some? && r.value == old(nodes.heap.heapCurr))
        && (reader.faults == old(reader.faults) ==> (r.Some? <==> found.Some?))
        && Returned(h, nodes.bytes[..], old(nodes.Used()), if r.Some? then found else None, LinksFrom(h, dir))
        && RightWhenShort(h, old(nodes.Used()), if r.Some? then found else None, LinksFrom(h, dir))
        && (r.Some? && fsOps < TWO64 ==>
              LinkedTo(nodes.bytes[..], old(nodes.Used()), Links(dir, fsOps, U64At(h, dir - K.HEAP_START + 56))))
    {
      hide Scan, Returned, RightWhenShort, LinkedTo, NodeCluster, U64At;
      ghost var h := nodes.bytes[..];
      NothingReturned(h, nodes.Used(), LinksFrom(h, dir));
      ghost var at, links := nodes.Used(), LinksFrom(h, dir);
      var dirCluster := NodeCluster(nodes.bytes[..], dir - K.HEAP_START);
      if dirCluster < 2 { return None; }
      var ok, data := reader.AhciRead(ClusterSector(reader.volume, dirCluster), reader.volume.spc);
      if !ok { return None; }
      r := Search(Entries(data), query, Links(dir, fsOps, U64At(nodes.bytes[..], dir - K.HEAP_START + FS_DATA)));
      if r.Some? {
        ReturnedIsRight(h, nodes.bytes[..], at, reader.volume, dirCluster, query, links);
        if fsOps < TWO64 { ReturnedLinks(h, nodes.bytes[..], at, LookupIn(reader.volume, dirCluster, query), links); }
      }
    }

    /** The node a walk stands at: an address, and the file it stands for as far as the walk needs it. */
    ghost predicate StandsAt(node: Option<nat>, file: Option<Found>)
      reads nodes.bytes
    {
      && (node.Some? <==> file.Some?)
      && (node.Some? ==> InHeap(node.value)
                         && NodeCluster(nodes.bytes[..], node.value - K.HEAP_START) == file.value.firstCluster)
    }

    /** The file that a node on the heap stands for. */
    ghost function FileOf(node: Option<nat>): Option<Found>
      requires node.Some? ==> InHeap(node.value)
      reads nodes.bytes
    {
      if node.None? then None else Some(NodeAt(nodes.bytes[..], node.value - K.HEAP_START))
    }

    /** One component of a path: look it up and move to its node. */
    method Descend(node: nat, seg: seq<byte>, ghost file: Option<Found>) returns (r: Option<nat>, ghost next: Option<Found>)
      requires Valid() && RoomFor(1) && StandsAt(Some(node), file) && reader.volume.spc > 0
      modifies reader`faults, lfnBuf, nodes.heap, nodes.bytes
      ensures Valid() && reader.faults >= old(reader.faults) && nodes.Used() <= old(nodes.Used()) + NODE
      ensures reader.faults == old(reader.faults) ==> next == LookupIn(reader.volume, file.value.firstCluster, seg)
      ensures StandsAt(r, next)
      ensures r.Some? ==> NodeOf(nodes.bytes[..], r.value - K.HEAP_START, next.value)
    {
      hide LookupIn, NodeCluster, NodeOf, Returned;
      ghost var h, at := nodes.bytes[..], nodes.Used();
      r := Fat32Lookup(node, seg);
      next := if r.Some? then LookupIn(reader.volume, file.value.firstCluster, seg) else None;
      if r.Some? {
        LookupIsEntrylike(reader.volume, file.value.firstCluster, seg);
        ReturnedNode(h, nodes.bytes[..], at, next.value, LinksFrom(h, node));
      }
    }

    /** Resolve a path from the root node or from cwd. */
    method Fat32Open(root: Option<nat>, cwd: Option<nat>, path: seq<byte>) returns (r: Option<nat>)
      requires Valid() && RoomFor(|Segments(path)|) && reader.volume.spc > 0
      requires (root.Some? ==> InHeap(root.value)) && (cwd.Some? ==> InHeap(cwd.value))
      requires forall s | s in Segments(path) :: |s| < 256
      modifies reader`faults, lfnBuf, nodes.heap, nodes.bytes
      ensures Valid() && reader.faults >= old(reader.faults)
      ensures reader.faults == old(reader.faults) ==>
        var start := if path != [] && path[0] == 0x2F then root else cwd;
        var file := Walk(reader.volume, old(FileOf(start)), Segments(path));
        && (r.Some? <==> file.Some?)
        && (Segments(path) == [] ==> r == start && nodes.bytes[..] == old(nodes.bytes[..]))
        && (Segments(path) != [] && r.Some? ==> InHeap(r.value) && NodeOf(nodes.bytes[..], r.value - K.HEAP_START, file.value))
    {
      hide LookupIn, NodeCluster, NodeOf, Segments, T.Skip, T.RunEnd;
      FirstSegment(path);
      var p := 0;
      r := cwd;
      if |path| > 0 && path[0] == 0x2F {
        r := root;
        p := SkipSlashes(path, 0);
      }
      ghost var start := FileOf(r);
      ghost var file, first, moved := start, r, false;
      while r.Some? && p < |path|
        invariant p <= |path| && T.Skip(path, SLASH, p) == p && reader.faults >= old(reader.faults)
        invariant Valid() && RoomFor(|Segments(path, p)|)
        invariant StandsAt(r, file)
        invariant reader.faults == old(reader.faults) ==>
          Walk(reader.volume, file, Segments(path, p)) == Walk(reader.volume, start, Segments(path))
        invariant !moved ==> r == first && nodes.bytes[..] == old(nodes.bytes[..]) && Segments(path, p) == Segments(path)
        invariant moved ==> Segments(path) != []
        invariant moved && r.Some? ==> NodeOf(nodes.bytes[..], r.value - K.HEAP_START, file.value)
        decreases |path| - p
      {
        NextSegment(path, p);
        var e := SegmentEnd(path, p);
        var seg := path[p..e];
        p := SkipSlashes(path, e);
        r, file := Descend(r.value, seg, file);
        moved := true;
      }
    }

    method SkipSlashes(path: seq<byte>, from: nat) returns (p: nat)
      requires from <= |path|
      ensures from <= p <= |path| && p == T.Skip(path, SLASH, from) && T.Skip(path, SLASH, p) == p
    {
      p := from;
      while p < |path| && path[p] == 0x2F
        invariant from <= p <= |path| && T.Skip(path, SLASH, p) == T.Skip(path, SLASH, from)
      {
        p := p + 1;
      }
    }

    method SegmentEnd(path: seq<byte>, from: nat) returns (p: nat)
      requires from <= |path|
      ensures from <= p <= |path| && p == T.RunEnd(path, SLASH, from)
    {
      p := from;
      while p < |path| && path[p] != 0x2F
        invariant from <= p <= |path| && T.RunEnd(path, SLASH, p) == T.RunEnd(path, SLASH, from)
      {
        p := p + 1;
      }
    }
  }
}
