/**
 The node record that Fat32Lookup returns: 72 bytes on the kernel heap, laid out as the compiler
 lays out struct VFSNode of fs/vfs.h, whose name field has 16 bytes and is filled by strcpy.
 */
module FatNode {
  import opened Machine
  import opened FatDisk
  import opened FatDirectory

  const NODE: nat := 72
  const TYPE: nat := 16
  const CLUSTER: nat := 20
  const PARENT: nat := 24
  const CHILDREN: nat := 32
  const CHILD_COUNT: nat := 40
  const FS_OPS: nat := 48
  const FS_DATA: nat := 56
  const SIZE: nat := 64

  datatype Field = Field(size: nat, align: nat)

  /** Where field i of a struct starts, and where the fields before it end (System V ABI, section 3.1.2). */
  function StartOf(fs: seq<Field>, i: nat): nat
    requires i < |fs| && fs[i].align > 0 && forall f | f in fs :: f.align > 0
    decreases i, 1
  {
    Steps(EndBefore(fs, i), fs[i].align) * fs[i].align
  }

  function EndBefore(fs: seq<Field>, i: nat): nat
    requires i <= |fs| && forall f | f in fs :: f.align > 0
    decreases i, 0
  {
    if i == 0 then 0 else StartOf(fs, i - 1) + fs[i - 1].size
  }

  /** struct VFSNode: char[16], uint8_t, uint32_t, two pointers, uint32_t, two pointers, size_t. */
  const NODE_FIELDS: seq<Field> :=
    [Field(16, 1), Field(1, 1), Field(4, 4), Field(8, 8), Field(8, 8), Field(4, 4), Field(8, 8), Field(8, 8), Field(8, 8)]

  /** The offsets are those that the ABI gives the struct, and the whole of it is a multiple of 8. */
  lemma NodeLayout()
    ensures forall f | f in NODE_FIELDS :: f.align > 0
    ensures StartOf(NODE_FIELDS, 0) == 0 && StartOf(NODE_FIELDS, 1) == TYPE && StartOf(NODE_FIELDS, 2) == CLUSTER
    ensures StartOf(NODE_FIELDS, 3) == PARENT && StartOf(NODE_FIELDS, 4) == CHILDREN && StartOf(NODE_FIELDS, 5) == CHILD_COUNT
    ensures StartOf(NODE_FIELDS, 6) == FS_OPS && StartOf(NODE_FIELDS, 7) == FS_DATA && StartOf(NODE_FIELDS, 8) == SIZE
    ensures EndBefore(NODE_FIELDS, 9) == NODE && NODE % 8 == 0
  {
    assert EndBefore(NODE_FIELDS, 1) == 16;
    assert EndBefore(NODE_FIELDS, 2) == 17;
    assert EndBefore(NODE_FIELDS, 3) == 24;
    assert EndBefore(NODE_FIELDS, 4) == 32;
    assert EndBefore(NODE_FIELDS, 5) == 40;
    assert EndBefore(NODE_FIELDS, 6) == 44;
    assert EndBefore(NODE_FIELDS, 7) == 56;
    assert EndBefore(NODE_FIELDS, 8) == 64;
  }

  /** The pointers stored into a node. */
  datatype Links = Links(parent: nat, fsOps: nat, fsData: nat)

  function Store(h: seq<byte>, at: nat, s: seq<byte>): (r: seq<byte>)
    requires at + |s| <= |h|
    ensures |r| == |h| && forall x | 0 <= x < |h| :: r[x] == if at <= x < at + |s| then s[x - at] else h[x]
  {
    h[..at] + s + h[at + |s|..]
  }

  function TypeByte(f: Found): byte { if f.directory then 2 else 1 }

  function ZeroNode(): (s: seq<byte>)
    ensures |s| == NODE && forall i | 0 <= i < NODE :: s[i] == 0
  {
    seq(NODE, _ => 0)
  }

  /** Does the heap hold the node at index at and everything strcpy writes there? */
  predicate Room(h: seq<byte>, at: nat, name: seq<byte>) { at + NODE <= |h| && at + |name| < |h| }

  /** The stores of Fat32Lookup in source order: memset, strcpy, then field after field. */
  function FillNode(h: seq<byte>, at: nat, f: Found, l: Links): (r: seq<byte>)
    requires Room(h, at, f.name)
    ensures |r| == |h|
  {
    var cleared := Store(h, at, ZeroNode());
    var named := Store(cleared, at, f.name + [0]);
    var typed := Store(named, at + TYPE, [TypeByte(f)]);
    var sized := if f.directory then typed else Store(typed, at + SIZE, Quad(f.size));
    var placed := Store(sized, at + CLUSTER, Word(f.firstCluster));
    var linked := Store(placed, at + PARENT, Quad(l.parent));
    Store(Store(linked, at + FS_OPS, Quad(l.fsOps)), at + FS_DATA, Quad(l.fsData))
  }

  /** The field bytes that are stored after the strcpy. */
  function FieldByte(f: Found, l: Links, pos: nat): Option<byte> {
    if pos == TYPE then Some(TypeByte(f))
    else if CLUSTER <= pos < PARENT then Some(Word(f.firstCluster)[pos - CLUSTER])
    else if PARENT <= pos < CHILDREN then Some(Quad(l.parent)[pos - PARENT])
    else if FS_OPS <= pos < FS_DATA then Some(Quad(l.fsOps)[pos - FS_OPS])
    else if FS_DATA <= pos < SIZE then Some(Quad(l.fsData)[pos - FS_DATA])
    else if SIZE <= pos < NODE && !f.directory then Some(Quad(f.size)[pos - SIZE])
    else None
  }

  /** Byte pos from the start of the node: a field, else what strcpy left, else a cleared or an old byte. */
  lemma NodeByte(h: seq<byte>, at: nat, f: Found, l: Links, pos: nat)
    requires Room(h, at, f.name) && at + pos < |h|
    ensures FillNode(h, at, f, l)[at + pos]
      == FieldByte(f, l, pos).GetOr(if pos < |f.name| then f.name[pos] else if pos < NODE || pos == |f.name| then 0 else h[at + pos])
  {
    hide Word, Quad, Store;
  }

  /** Bytes before the node keep their values. */
  lemma BeforeNode(h: seq<byte>, at: nat, f: Found, l: Links, x: nat)
    requires Room(h, at, f.name) && x < at
    ensures FillNode(h, at, f, l)[x] == h[x]
  {
    hide Word, Quad, Store;
  }

  // ----- reading a node back

  function NodeName(h: seq<byte>, at: nat): seq<byte>
    requires at + NODE <= |h|
  {
    CStr(h[at..])
  }

  function NodeCluster(h: seq<byte>, at: nat): nat
    requires at + NODE <= |h|
  {
    U32At(h, at + CLUSTER)
  }

  function NodeSize(h: seq<byte>, at: nat): nat
    requires at + NODE <= |h|
  {
    U64At(h, at + SIZE)
  }

  /** A node read back as the file it stands for. */
  function NodeAt(h: seq<byte>, at: nat): Found
    requires at + NODE <= |h|
  {
    Found(NodeName(h, at), h[at + TYPE] == 2, NodeSize(h, at), NodeCluster(h, at))
  }

  /** What a directory entry can make of a node: a C string, 32-bit numbers, size 0 for directories. */
  predicate Entrylike(f: Found) {
    NoNul(f.name) && f.firstCluster < TWO32 && f.size < TWO32 && (f.directory ==> f.size == 0)
  }

  /** A field whose bytes are all stored after the strcpy lies in the node. */
  lemma FieldLies(h: seq<byte>, at: nat, f: Found, l: Links, off: nat, s: seq<byte>)
    requires Room(h, at, f.name) && off + |s| <= NODE
    requires forall pos: nat | off <= pos < off + |s| :: FieldByte(f, l, pos) == Some(s[pos - off])
    ensures LiesAt(FillNode(h, at, f, l), at + off, s)
  {
    hide FillNode, FieldByte;
    var r := FillNode(h, at, f, l);
    forall x: nat | at + off <= x < at + off + |s| ensures r[x] == s[x - (at + off)] {
      NodeByte(h, at, f, l, x - at);
    }
    assert r[at + off..at + off + |s|] == s;
  }

  /** Type and first cluster are stored last and are always right. */
  lemma TypeAndClusterReadBack(h: seq<byte>, at: nat, f: Found, l: Links)
    requires Room(h, at, f.name) && Entrylike(f)
    ensures var r := FillNode(h, at, f, l); r[at + 16] == (if f.directory then 2 else 1) && NodeCluster(r, at) == f.firstCluster
  {
    hide Word, Quad, FillNode;
    FieldLies(h, at, f, l, CLUSTER, Word(f.firstCluster));
    NodeByte(h, at, f, l, TYPE);
    WordAt(FillNode(h, at, f, l), at + CLUSTER, f.firstCluster);
  }

  /** So are the pointers: parent, operations and file system data. */
  lemma LinksReadBack(h: seq<byte>, at: nat, f: Found, l: Links)
    requires Room(h, at, f.name) && l.parent < TWO64 && l.fsOps < TWO64 && l.fsData < TWO64
    ensures var r := FillNode(h, at, f, l); U64At(r, at + 24) == l.parent && U64At(r, at + 48) == l.fsOps && U64At(r, at + 56) == l.fsData
  {
    hide Word, Quad, FillNode, U64At;
    var r := FillNode(h, at, f, l);
    FieldLies(h, at, f, l, PARENT, Quad(l.parent));
    QuadAt(r, at + PARENT, l.parent);
    FieldLies(h, at, f, l, FS_OPS, Quad(l.fsOps));
    QuadAt(r, at + FS_OPS, l.fsOps);
    FieldLies(h, at, f, l, FS_DATA, Quad(l.fsData));
    QuadAt(r, at + FS_DATA, l.fsData);
  }

  /** A word or pointer that the code clears and never stores: zero exactly when the name stops short of it. */
  lemma ClearedExactlyWhen(h: seq<byte>, at: nat, f: Found, l: Links, off: nat, n: nat)
    requires Room(h, at, f.name) && NoNul(f.name) && 0 < n && off + n <= NODE
    requires forall pos: nat | off <= pos < off + n :: FieldByte(f, l, pos) == None
    ensures var r := FillNode(h, at, f, l);
      && (|f.name| <= off ==> forall x | at + off <= x < at + off + n :: r[x] == 0)
      && (|f.name| > off ==> r[at + off] != 0)
  {
    hide FillNode, FieldByte;
    forall x: nat | at + off <= x < at + off + n
      ensures FillNode(h, at, f, l)[x] == if x - at < |f.name| then f.name[x - at] else 0
    {
      NodeByte(h, at, f, l, x - at);
    }
  }

  lemma ZeroOrNot(r: seq<byte>, x: nat)
    requires x + 8 <= |r|
    ensures r[x] != 0 ==> U64At(r, x) != 0 && U32At(r, x) != 0
    ensures (forall i | x <= i < x + 8 :: r[i] == 0) ==> U64At(r, x) == 0
    ensures (forall i | x <= i < x + 4 :: r[i] == 0) ==> U32At(r, x) == 0
  {
  }

  /** The size of a file is always right; that of a directory is overlaid by a name above 64 bytes. */
  lemma SizeReadsBackExactlyWhen(h: seq<byte>, at: nat, f: Found, l: Links)
    requires Room(h, at, f.name) && Entrylike(f)
    ensures NodeSize(FillNode(h, at, f, l), at) == f.size <==> (f.directory ==> |f.name| <= SIZE)
  {
    hide Word, Quad, FillNode, U64At;
    var r := FillNode(h, at, f, l);
    if f.directory {
      ClearedExactlyWhen(h, at, f, l, SIZE, 8);
      ZeroOrNot(r, at + SIZE);
    } else {
      FieldLies(h, at, f, l, SIZE, Quad(f.size));
      QuadAt(r, at + SIZE, f.size);
    }
  }

  /** A fresh node has no children exactly when its name stops short of those fields. */
  lemma ChildrenReadBackExactlyWhen(h: seq<byte>, at: nat, f: Found, l: Links)
    requires Room(h, at, f.name) && NoNul(f.name)
    ensures var r := FillNode(h, at, f, l);
      && (U64At(r, at + CHILDREN) == 0 <==> |f.name| <= CHILDREN)
      && (U32At(r, at + CHILD_COUNT) == 0 <==> |f.name| <= CHILD_COUNT)
  {
    hide Word, Quad, FillNode, U64At, U32At;
    var r := FillNode(h, at, f, l);
    ClearedExactlyWhen(h, at, f, l, CHILDREN, 8);
    ClearedExactlyWhen(h, at, f, l, CHILD_COUNT, 4);
    ZeroOrNot(r, at + CHILDREN);
    ZeroOrNot(r, at + CHILD_COUNT);
  }

  /** The byte behind the name field is the node's type; a name that holds that very byte there would hide the overrun. */
  predicate Telling(f: Found) { |f.name| > TYPE ==> f.name[TYPE] != TypeByte(f) }

  /** The name reads back exactly when it has at most 15 bytes. */
  lemma NameReadsBackExactlyWhen(h: seq<byte>, at: nat, f: Found, l: Links)
    requires Room(h, at, f.name) && NoNul(f.name) && Telling(f)
    ensures NodeName(FillNode(h, at, f, l), at) == f.name <==> |f.name| < TYPE
  {
    hide FillNode, CStr, FieldByte, Telling;
    var r := FillNode(h, at, f, l);
    if |f.name| < TYPE {
      forall pos: nat | pos <= |f.name| ensures r[at..][pos] == if pos < |f.name| then f.name[pos] else 0 {
        NodeByte(h, at, f, l, pos);
        EarlyByte(f, l, pos);
      }
      assert r[at..][..|f.name|] == f.name;
      CStrOf(r[at..], |f.name|);
    } else {
      NodeByte(h, at, f, l, TYPE);
      TypeShows(f, l);
      assert r[at..][TYPE] == TypeByte(f);
      CStrAgrees(r[at..], TYPE);
    }
  }

  lemma EarlyByte(f: Found, l: Links, pos: nat)
    requires pos < TYPE
    ensures FieldByte(f, l, pos) == None
  {
  }

  lemma TypeShows(f: Found, l: Links)
    ensures FieldByte(f, l, TYPE) == Some(TypeByte(f)) && TypeByte(f) != 0
    ensures Telling(f) && |f.name| > TYPE ==> f.name[TYPE] != TypeByte(f)
  {
  }

  lemma CStrAgrees(s: seq<byte>, i: nat)
    requires i < |s| && s[i] != 0
    ensures |CStr(s)| != i && (|CStr(s)| > i ==> CStr(s)[i] == s[i])
  {
  }

  /** Whatever lies behind the node keeps its value exactly when the name and its NUL fit the node. */
  lemma BehindUntouchedExactlyWhen(n: nat, at: nat, f: Found, l: Links)
    requires at + NODE < n && at + |f.name| < n
    ensures (forall h: seq<byte> | |h| == n :: Behind(h, at, f, l)) <==> |f.name| < NODE
  {
    hide FillNode, FieldByte;
    if |f.name| < NODE {
      forall h: seq<byte> | |h| == n ensures Behind(h, at, f, l) {
        forall x: nat | at + NODE <= x < n ensures FillNode(h, at, f, l)[x] == h[x] {
          NodeByte(h, at, f, l, x - at);
          assert FieldByte(f, l, x - at) == None by { LateByte(f, l, x - at); }
        }
      }
    } else {
      var v: byte := if |f.name| > NODE && f.name[NODE] == 1 then 2 else 1;
      var h: seq<byte> := seq(n, _ => v);
      NodeByte(h, at, f, l, NODE);
      LateByte(f, l, NODE);
      assert !Behind(h, at, f, l);
    }
  }

  lemma LateByte(f: Found, l: Links, pos: nat)
    requires pos >= NODE
    ensures FieldByte(f, l, pos) == None
  {
  }

  ghost predicate Behind(h: seq<byte>, at: nat, f: Found, l: Links)
    requires Room(h, at, f.name)
  {
    forall x: nat | at + NODE <= x < |h| :: FillNode(h, at, f, l)[x] == h[x]
  }

  /** Everything a caller may rely on in a node: the file it stands for, no children, nothing spilled behind it. */
  ghost predicate NodeRight(h: seq<byte>, at: nat, f: Found, l: Links)
    requires Room(h, at, f.name)
  {
    var r := FillNode(h, at, f, l);
    && NodeAt(r, at) == f && U64At(r, at + CHILDREN) == 0 && U32At(r, at + CHILD_COUNT) == 0
    && Behind(h, at, f, l)
  }

  /** Main result: the node is right exactly when the name has at most 15 bytes. */
  lemma NodeRightExactlyWhen(h: seq<byte>, at: nat, f: Found, l: Links)
    requires Room(h, at, f.name) && Entrylike(f) && Telling(f)
    ensures NodeRight(h, at, f, l) <==> |f.name| < TYPE
  {
    hide FillNode, NodeName, NodeSize, NodeCluster, FieldByte, U64At, U32At;
    NameReadsBackExactlyWhen(h, at, f, l);
    if |f.name| < TYPE {
      TypeAndClusterReadBack(h, at, f, l);
      SizeReadsBackExactlyWhen(h, at, f, l);
      ChildrenReadBackExactlyWhen(h, at, f, l);
      forall x: nat | at + NODE <= x < |h| ensures FillNode(h, at, f, l)[x] == h[x] {
        NodeByte(h, at, f, l, x - at);
        LateByte(f, l, x - at);
      }
    }
  }

  /** Without that proviso a longer name can read back: here the 17th byte of a file's name is the type byte. */
  lemma ControlByteHidesOverrun(h: seq<byte>, at: nat, l: Links)
    requires at + NODE <= |h|
    ensures var name: seq<byte> := seq(TYPE, _ => 0x41) + [1];
            var f := Found(name, false, 0, 2);
      Entrylike(f) && !Telling(f) && NodeName(FillNode(h, at, f, l), at) == name
  {
    hide FillNode, CStr;
    var name: seq<byte> := seq(TYPE, _ => 0x41) + [1];
    var f := Found(name, false, 0, 2);
    var r := FillNode(h, at, f, l);
    forall pos: nat | pos <= 17 ensures r[at..][pos] == if pos < 17 then name[pos] else 0 {
      NodeByte(h, at, f, l, pos);
    }
    assert r[at..][..17] == name;
    CStrOf(r[at..], 17);
  }
}

/** kmalloc, memset, strcpy and the field stores as code over the bytes of the kernel heap. */
module FatNodeCode {
  import opened Machine
  import opened FatDisk
  import opened FatDirectory
  import opened FatNode
  import K = Kheap
  import KheapCode

  class NodeHeap {
    const bytes: array<byte>      // the heap from HEAP_START on
    const heap: KheapCode.Heap

    constructor (n: nat)
      requires K.HEAP_START + n + K.ALIGN <= TWO64
      ensures Valid() && bytes.Length == n && fresh(bytes) && fresh(heap) && Used() == 0
    {
      bytes := new byte[n](_ => 0);
      heap := new KheapCode.Heap();
    }

    ghost predicate Valid()
      reads this, heap
    {
      && K.HEAP_START <= heap.heapCurr <= K.HEAP_START + bytes.Length && heap.heapCurr % K.ALIGN == 0
      && K.HEAP_START + bytes.Length + K.ALIGN <= TWO64
    }

    ghost function Used(): nat
      requires heap.heapCurr >= K.HEAP_START
      reads this, heap
    {
      heap.heapCurr - K.HEAP_START
    }

    /** memcpy and strcpy, given the bytes to be written */
    method Write(at: nat, s: seq<byte>)
      requires at + |s| <= bytes.Length
      modifies bytes
      ensures bytes[..] == Store(old(bytes[..]), at, s)
    {
      for k := 0 to |s|
        invariant forall x | 0 <= x < bytes.Length :: bytes[x] == if at <= x < at + k then s[x - at] else old(bytes[x])
      {
        bytes[at + k] := s[k];
      }
    }

    /** memset, strcpy and the field stores, in source order */
    method Fill(at: nat, f: Found, l: Links)
      requires Room(bytes[..], at, f.name)
      modifies bytes
      ensures bytes[..] == FillNode(old(bytes[..]), at, f, l)
    {
      hide Store, Quad, Word;
      Write(at, ZeroNode());
      Write(at, f.name + [0]);
      Write(at + TYPE, [TypeByte(f)]);
      if !f.directory {
        Write(at + SIZE, Quad(f.size));
      }
      Write(at + CLUSTER, Word(f.firstCluster));
      Write(at + PARENT, Quad(l.parent));
      Write(at + FS_OPS, Quad(l.fsOps));
      Write(at + FS_DATA, Quad(l.fsData));
    }

    /** The node for a directory entry and the name it was found under. */
    method NewNode(f: Found, l: Links) returns (node: nat)
      requires Valid() && Room(bytes[..], Used(), f.name)
      modifies heap, bytes
      ensures Valid() && node == old(heap.heapCurr) && Used() == old(Used()) + NODE
      ensures node - K.HEAP_START == old(Used())
      ensures bytes[..] == FillNode(old(bytes[..]), node - K.HEAP_START, f, l)
    {
      hide FillNode, K.AlignUp, K.After, K.Blocks;
      K.NextBlock(heap.heapCurr, NODE);
      node := heap.Kmalloc(NODE);
      Fill(node - K.HEAP_START, f, l);
    }
  }
}
