/** A FAT32 volume laid out byte by byte around one file, and the proof that it holds that file. */
module FatFormat {
  import opened Machine
  import opened FatDisk
  import opened FatChain
  import opened FatFile

  datatype Layout = Layout(fatStart: nat, fatSize: nat, firstData: nat, spc: nat, total: nat)

  /** Room for the chain and the data: the clusters have entries in the FAT and sectors behind it. */
  ghost predicate Suits(l: Layout, cs: seq<nat>, length: nat) {
    && l.spc > 0 && cs != [] && length <= |cs| * (512 * l.spc)
    && l.fatStart + l.fatSize <= l.firstData && l.total <= TWO32 && l.firstData <= l.total
    && (forall k | 0 <= k < |cs| :: ClusterOk(l, cs[k]))
    && (forall j, k | 0 <= j < k < |cs| :: cs[j] != cs[k])
  }

  predicate ClusterOk(l: Layout, c: nat) {
    2 <= c < 0x0FFF_FFF0 && 4 * c + 4 <= 512 * l.fatSize && l.firstData + l.spc * (c - 2) + l.spc <= l.total
  }

  function IndexOf(cs: seq<nat>, c: nat): (r: Option<nat>)
    ensures r.Some? ==> r.value < |cs| && cs[r.value] == c
    ensures r.None? ==> c !in cs
  {
    if cs == [] then None
    else if cs[|cs| - 1] == c then Some(|cs| - 1)
    else IndexOf(cs[..|cs| - 1], c)
  }

  lemma {:induction false} IndexIs(cs: seq<nat>, k: nat)
    requires k < |cs| && forall i, j | 0 <= i < j < |cs| :: cs[i] != cs[j]
    ensures IndexOf(cs, cs[k]) == Some(k)
  {
    if k < |cs| - 1 { IndexIs(cs[..|cs| - 1], k); }
  }

  /** The entry of cluster c. */
  function Follower(cs: seq<nat>, c: nat): nat {
    match IndexOf(cs, c)
    case None => 0
    case Some(k) => if k + 1 < |cs| then cs[k + 1] else 0x0FFF_FFFF
  }

  function FatByte(cs: seq<nat>, i: nat): byte { Byte(Follower(cs, i / 4), i % 4) }

  function DataByteAt(l: Layout, cs: seq<nat>, data: seq<byte>, s: nat, o: nat): byte
    requires l.spc > 0
  {
    match IndexOf(cs, s / l.spc + 2)
    case None => 0
    case Some(k) =>
      var x := k * (512 * l.spc) + s % l.spc * 512 + o;
      if x < |data| then data[x] else 0
  }

  function SectorByte(l: Layout, cs: seq<nat>, data: seq<byte>, s: nat, o: nat): byte
    requires l.spc > 0
  {
    if l.fatStart <= s < l.fatStart + l.fatSize then FatByte(cs, (s - l.fatStart) * 512 + o)
    else if s >= l.firstData then DataByteAt(l, cs, data, s - l.firstData, o)
    else 0
  }

  function SectorAt(l: Layout, cs: seq<nat>, data: seq<byte>, s: nat): (r: Sector)
    requires l.spc > 0
    ensures forall o: nat | o < 512 :: r[o] == SectorByte(l, cs, data, s, o)
  {
    seq(BPS, o requires 0 <= o => SectorByte(l, cs, data, s, o))
  }

  function Format(l: Layout, cs: seq<nat>, data: seq<byte>): (v: Volume)
    requires l.spc > 0
    ensures |v.sectors| == l.total && forall s: nat | s < l.total :: v.sectors[s] == SectorAt(l, cs, data, s)
  {
    Volume(l.fatStart, l.firstData, l.spc, seq(l.total, s requires 0 <= s => SectorAt(l, cs, data, s)))
  }

  // ----- the chain

  lemma WordOfBytes(fat: seq<Sector>, c: nat, w: nat)
    requires 4 * c + 4 <= 512 * |fat| && w < TWO32
    requires forall k: nat | k < 4 :: Flatten(fat)[4 * c + k] == Byte(w, k)
    ensures FatWord(fat, c) == w
  {
    WordBytes(w);
    var all := Flatten(fat);
    assert all[4 * c + 0] == Byte(w, 0) && all[4 * c + 1] == Byte(w, 1) && all[4 * c + 2] == Byte(w, 2) && all[4 * c + 3] == Byte(w, 3);
  }

  lemma FormattedEntry(l: Layout, cs: seq<nat>, data: seq<byte>, k: nat)
    requires Suits(l, cs, |data|) && k < |cs|
    ensures EntryIs(Format(l, cs, data), cs[k], if k + 1 < |cs| then cs[k + 1] else 0x0FFF_FFFF)
  {
    hide Flatten, Format, Byte, SectorByte;
    var v, c := Format(l, cs, data), cs[k];
    assert ClusterOk(l, c);
    assert IndexOf(cs, c) == Some(k) by { IndexIs(cs, k); }
    FormatFields(l, cs, data);
    var fat := v.sectors[v.fatStart..];
    var w := Follower(cs, c);
    assert k + 1 < |cs| ==> ClusterOk(l, cs[k + 1]);
    forall j: nat | j < 4 ensures Flatten(fat)[4 * c + j] == Byte(w, j) {
      FormattedFatByte(l, cs, data, 4 * c + j);
      DivUnique(4 * c + j, 4, c, j);
    }
    WordOfBytes(fat, c, w);
    DivUnique(w, 0x1000_0000, 0, w);
  }

  lemma FormatFields(l: Layout, cs: seq<nat>, data: seq<byte>)
    requires l.spc > 0
    ensures var v := Format(l, cs, data);
      v.fatStart == l.fatStart && v.firstData == l.firstData && v.spc == l.spc && |v.sectors| == l.total
  {
  }

  lemma FormattedFatByte(l: Layout, cs: seq<nat>, data: seq<byte>, i: nat)
    requires l.spc > 0 && l.fatStart + l.fatSize <= l.total && i < 512 * l.fatSize
    ensures var fat := Format(l, cs, data).sectors[l.fatStart..];
      i < 512 * |fat| && Flatten(fat)[i] == FatByte(cs, i)
  {
    hide Flatten, FatByte;
    var fat := Format(l, cs, data).sectors[l.fatStart..];
    DivBound(i, l.fatSize, BPS);
    DivMod(i, BPS);
    FlatByte(fat, i / BPS, i % BPS);
    assert fat[i / BPS] == SectorAt(l, cs, data, l.fatStart + i / BPS);
  }

  // ----- the data

  lemma FormattedData(l: Layout, cs: seq<nat>, data: seq<byte>, x: nat)
    requires Suits(l, cs, |data|) && x < |data|
    ensures DataAt(Format(l, cs, data), cs, 512 * l.spc, x, data[x])
  {
    hide Format, Suits, ByteStored;
    var bpc := 512 * l.spc;
    PlaceOfByte(l, cs, |data|, x);
    FormattedByte(l, cs, data, x / bpc, x % bpc);
  }

  lemma PlaceOfByte(l: Layout, cs: seq<nat>, length: nat, x: nat)
    requires Suits(l, cs, length) && x < length
    ensures var bpc := 512 * l.spc; bpc > 0 && x / bpc < |cs| && x == x / bpc * bpc + x % bpc
  {
    hide ClusterOk;
    DivBound(x, |cs|, 512 * l.spc);
    DivMod(x, 512 * l.spc);
  }

  /** Byte o of the k-th cluster. */
  lemma FormattedByte(l: Layout, cs: seq<nat>, data: seq<byte>, k: nat, o: nat)
    requires Suits(l, cs, |data|) && k < |cs| && o < 512 * l.spc && k * (512 * l.spc) + o < |data|
    ensures ByteStored(Format(l, cs, data), cs[k], o, data[k * (512 * l.spc) + o])
  {
    hide Format, SectorByte, ClusterOk, Suits;
    DataSectorByte(l, cs, data, k, o);
    StoredAt(l, cs, data, cs[k], o, data[k * (512 * l.spc) + o]);
  }

  lemma StoredAt(l: Layout, cs: seq<nat>, data: seq<byte>, c: nat, o: nat, b: byte)
    requires ClusterOk(l, c) && o / 512 < l.spc && SectorByte(l, cs, data, SectorInside(l, c, o / 512), o % 512) == b
    ensures ByteStored(Format(l, cs, data), c, o, b)
  {
    hide Format, SectorByte, ClusterOk;
    var v, s := Format(l, cs, data), SectorInside(l, c, o / 512);
    SectorIs(l, cs, data, c);
    FormattedSector(l, cs, data, s);
    hide SectorOf;
    assert SectorOf(v, c) + o / 512 == s;
  }

  lemma SectorIs(l: Layout, cs: seq<nat>, data: seq<byte>, c: nat)
    requires l.spc > 0 && ClusterOk(l, c)
    ensures SectorOf(Format(l, cs, data), c) == l.firstData + l.spc * (c - 2) >= 0
  {
    hide Format;
    FormatFields(l, cs, data);
    MulMonotone(0, c - 2, l.spc);
  }

  /** Sector i of a cluster lies on the volume. */
  function SectorInside(l: Layout, c: nat, i: nat): (s: nat)
    requires ClusterOk(l, c) && i < l.spc
    ensures l.firstData <= s < l.total && s == l.firstData + l.spc * (c - 2) + i
  {
    MulMonotone(0, c - 2, l.spc);
    l.firstData + l.spc * (c - 2) + i
  }

  lemma DataSectorByte(l: Layout, cs: seq<nat>, data: seq<byte>, k: nat, o: nat)
    requires Suits(l, cs, |data|) && k < |cs| && o < 512 * l.spc && k * (512 * l.spc) + o < |data|
    ensures ClusterOk(l, cs[k]) && o / 512 < l.spc
    ensures SectorByte(l, cs, data, SectorInside(l, cs[k], o / 512), o % 512) == data[k * (512 * l.spc) + o]
  {
    hide IndexOf, FatByte, ClusterOk;
    var c, i := cs[k], o / 512;
    assert ClusterOk(l, c);
    DivBound(o, l.spc, 512);
    DivMod(o, 512);
    ClusterOfSector(l, c, i);
    IndexIs(cs, k);
    assert k * (512 * l.spc) + i * 512 + o % 512 == k * (512 * l.spc) + o;
  }

  lemma ClusterOfSector(l: Layout, c: nat, i: nat)
    requires ClusterOk(l, c) && i < l.spc
    ensures var s := SectorInside(l, c, i) - l.firstData; s / l.spc + 2 == c && s % l.spc == i
  {
    DivUnique(SectorInside(l, c, i) - l.firstData, l.spc, c - 2, i);
  }

  lemma FormattedSector(l: Layout, cs: seq<nat>, data: seq<byte>, s: nat)
    requires l.spc > 0 && s < l.total
    ensures s < |Format(l, cs, data).sectors| && Format(l, cs, data).sectors[s] == SectorAt(l, cs, data, s)
  {
  }

  /** Main result: every file that fits has a volume that holds it. */
  lemma FormatHoldsFile(l: Layout, cs: seq<nat>, data: seq<byte>)
    requires Suits(l, cs, |data|)
    ensures IsFile(Format(l, cs, data), cs, data)
  {
    hide Format, EntryIs, DataAt, IndexOf;
    var v := Format(l, cs, data);
    FormatFields(l, cs, data);
    forall k | 0 <= k < |cs| ensures 2 <= cs[k] < 0x0FFF_FFF0 && SectorOf(v, cs[k]) + v.spc <= |v.sectors| {
      assert ClusterOk(l, cs[k]);
    }
    forall k | 0 <= k < |cs| - 1 ensures EntryIs(v, cs[k], cs[k + 1]) {
      FormattedEntry(l, cs, data, k);
    }
    FormattedEntry(l, cs, data, |cs| - 1);
    forall x: nat | x < |data| ensures DataAt(v, cs, 512 * v.spc, x, data[x]) {
      FormattedData(l, cs, data, x);
    }
  }
}
