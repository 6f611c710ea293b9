/** Fat32WriteFATEntry of fs/vfs.c as one thread runs it: under the lock, every FAT copy in turn, read, modified, written back. */
module FatWriterCode {
  import opened Machine
  import opened FatDisk
  import L = FatLock
  import C = FatCalls

  class FatWriter {
    var sectors: seq<Sector>
    var locked: bool    // fat_lock

    constructor (sectors: seq<Sector>)
      ensures this.sectors == sectors && !locked
    {
      this.sectors, locked := sectors, false;
    }

    /** The test-and-set that finds the lock free; alone, a thread would spin on a lock that is taken. */
    method AcquireLock()
      requires !locked
      modifies this`locked
      ensures locked
    {
      locked := true;
    }

    method ReleaseLock()
      modifies this`locked
      ensures !locked
    {
      locked := false;
    }

    /** ahci_read of one sector into a DMA buffer. */
    method AhciReadSector(lba: nat) returns (ok: bool, data: Sector)
      ensures ok ==> lba < |sectors| && data == sectors[lba]
    {
      var completes: bool := *;
      if lba >= |sectors| || !completes { return false, seq(BPS, _ => 0); }
      return true, sectors[lba];
    }

    /** AHCIWriteToStorage of one sector: stored, or a reported failure that stores nothing. */
    method AhciWriteSector(lba: nat, data: Sector) returns (ok: bool)
      modifies this`sectors
      ensures ok ==> lba < |old(sectors)| && sectors == old(sectors)[lba := data]
      ensures !ok ==> sectors == old(sectors)
    {
      var completes: bool := *;
      if lba >= |sectors| { return false; }
      if !completes { return false; }
      sectors := sectors[lba := data];
      return true;
    }

    /** Fat32WriteFATEntry run by one thread: done copies carry the update, and every exit frees the lock. */
    method Fat32WriteFATEntry(g: L.Geometry, cluster: nat, value: nat) returns (ok: bool, ghost done: nat)
      requires L.Fits(g, sectors) && L.InFat(g, cluster) && !locked
      modifies this
      ensures done <= g.numFats && (ok <==> done == g.numFats) && |sectors| == |old(sectors)| && !locked
      ensures CopiesState(g, old(sectors), sectors, cluster, value, done)
      ensures AsAsked(g, old(sectors), sectors, cluster, value, done)
      ensures forall x | 0 <= x < |sectors| && !(g.reserved <= x < g.reserved + g.numFats * g.fatSize) :: sectors[x] == old(sectors)[x]
    {
      ghost var before := sectors;
      hide L.Base, L.Updated, L.SectorOff, L.InSectorOff, L.CodeSector, L.CodeOffset, L.Copy, Modify, CopiesState, AsAsked, U32;
      var offset := U32(cluster * 4);
      L.CodeParts(g, 0, cluster);
      AcquireLock();
      var copy := 0;
      done := 0;
      CopiesStart(g, before, cluster, value);
      EntriesAre(g, before, before, cluster, value, 0);
      while copy < g.numFats
        invariant copy == done <= g.numFats && L.Fits(g, sectors) && |sectors| == |before| && locked
        invariant CopiesState(g, before, sectors, cluster, value, done)
        invariant AsAsked(g, before, sectors, cluster, value, done)
        invariant forall x | 0 <= x < |before| && !(g.reserved <= x < g.reserved + g.numFats * g.fatSize) :: sectors[x] == before[x]
      {
        L.CodeParts(g, copy, cluster);
        L.CodeAddress(g, copy, cluster);
        L.CurInFat(g, sectors, copy, cluster);
        var curSector := U32(g.reserved + copy * g.fatSize + offset / BPS);
        ghost var mid := sectors;
        var buffered: bool := *;
        if !buffered { ReleaseLock(); return false, done; }
        var read, data := AhciReadSector(curSector);
        if !read { ReleaseLock(); return false, done; }
        var written := AhciWriteSector(curSector, Modify(data, offset % BPS, value));
        if !written { ReleaseLock(); return false, done; }
        CopiesStep(g, before, mid, cluster, value, done);
        EntriesAre(g, before, sectors, cluster, value, done + 1);
        copy := copy + 1;
        done := done + 1;
      }
      ReleaseLock();
      ok := true;
    }
  }

  ghost predicate EntryAsked(g: L.Geometry, before: seq<Sector>, after: seq<Sector>, cluster: nat, value: nat, done: nat, copy: nat, other: nat) {
    C.HoldsAsked(g, before, after, copy, other, if other == cluster && copy < done then Some(value) else None)
  }

  ghost predicate AsAsked(g: L.Geometry, before: seq<Sector>, after: seq<Sector>, cluster: nat, value: nat, done: nat) {
    forall copy: nat, other: nat | copy < g.numFats && 4 * other + 4 <= 512 * g.fatSize ::
      EntryAsked(g, before, after, cluster, value, done, copy, other)
  }

  /** Read as entries: the one asked for in the mirrors reached, and no other anywhere. */
  lemma EntriesAre(g: L.Geometry, before: seq<Sector>, after: seq<Sector>, cluster: nat, value: nat, done: nat)
    requires CopiesState(g, before, after, cluster, value, done)
    ensures AsAsked(g, before, after, cluster, value, done)
  {
    hide EntryAsked, CopyState;
    forall copy: nat, other: nat | copy < g.numFats && 4 * other + 4 <= 512 * g.fatSize
      ensures EntryAsked(g, before, after, cluster, value, done, copy, other)
    {
      EntryIs(g, before, after, cluster, value, done, copy, other);
    }
  }

  lemma EntryIs(g: L.Geometry, before: seq<Sector>, after: seq<Sector>, cluster: nat, value: nat, done: nat, copy: nat, other: nat)
    requires CopyState(g, before, after, cluster, value, copy, done) && 4 * other + 4 <= 512 * g.fatSize
    ensures EntryAsked(g, before, after, cluster, value, done, copy, other)
  {
    hide FatWord, L.FatEntry, L.Updated, L.SectorOff, L.InSectorOff;
    var old0, new0 := L.Copy(g, before, copy), L.Copy(g, after, copy);
    C.EntryIsWord(old0, other);
    C.EntryIsWord(new0, other);
    if copy < done { UpdatedEntry(old0, cluster, value, other); }
  }

  lemma UpdatedEntry(fat: seq<Sector>, cluster: nat, value: nat, other: nat)
    requires L.SectorOff(other) < |fat|
    ensures var e, e0 := L.FatEntry(L.Updated(fat, cluster, value), other), L.FatEntry(fat, other);
      e / 0x1000_0000 == e0 / 0x1000_0000 && e % 0x1000_0000 == if other == cluster then value % 0x1000_0000 else e0 % 0x1000_0000
  {
    if L.SectorOff(cluster) < |fat| { L.UpdateIsOneEntry(fat, cluster, value, other); }
  }

  /** Copies below done have been updated, the others not. */
  ghost predicate CopyState(g: L.Geometry, before: seq<Sector>, after: seq<Sector>, cluster: nat, value: nat, copy: nat, done: nat) {
    && L.Base(g, copy) + g.fatSize <= |before| == |after|
    && L.Copy(g, after, copy)
       == if copy < done then L.Updated(L.Copy(g, before, copy), cluster, value) else L.Copy(g, before, copy)
  }

  lemma CopyStateStep(g: L.Geometry, before: seq<Sector>, mid: seq<Sector>, cluster: nat, value: nat, copy: nat, done: nat)
    requires L.Fits(g, mid) && L.InFat(g, cluster) && copy < g.numFats && done < g.numFats
    requires CopyState(g, before, mid, cluster, value, copy, done)
    requires L.Base(g, done) + L.SectorOff(cluster) < |mid|
    ensures var cur := L.Base(g, done) + L.SectorOff(cluster);
      CopyState(g, before, mid[cur := Modify(mid[cur], L.InSectorOff(cluster), value)], cluster, value, copy, done + 1)
  {
    var cur := L.Base(g, done) + L.SectorOff(cluster);
    L.StoreInCopy(g, mid, done, cluster, Modify(mid[cur], L.InSectorOff(cluster), value), copy);
    hide L.Base, L.InSectorOff, L.SectorOff, Modify;
    if copy == done {
      assert L.Copy(g, mid, copy)[L.SectorOff(cluster)] == mid[cur];
    }
  }

  ghost predicate CopiesState(g: L.Geometry, before: seq<Sector>, after: seq<Sector>, cluster: nat, value: nat, done: nat) {
    forall copy: nat | copy < g.numFats :: CopyState(g, before, after, cluster, value, copy, done)
  }

  lemma CopiesStart(g: L.Geometry, before: seq<Sector>, cluster: nat, value: nat)
    requires L.Fits(g, before) && L.InFat(g, cluster)
    ensures CopiesState(g, before, before, cluster, value, 0)
  {
    forall copy: nat | copy < g.numFats ensures CopyState(g, before, before, cluster, value, copy, 0) {
      L.CurSector(g, before, copy, cluster);
    }
  }

  lemma CopiesStep(g: L.Geometry, before: seq<Sector>, mid: seq<Sector>, cluster: nat, value: nat, done: nat)
    requires L.Fits(g, mid) && L.InFat(g, cluster) && done < g.numFats && L.Base(g, done) + L.SectorOff(cluster) < |mid|
    requires CopiesState(g, before, mid, cluster, value, done)
    ensures var cur := L.Base(g, done) + L.SectorOff(cluster);
      CopiesState(g, before, mid[cur := Modify(mid[cur], L.InSectorOff(cluster), value)], cluster, value, done + 1)
  {
    var cur := L.Base(g, done) + L.SectorOff(cluster);
    var after := mid[cur := Modify(mid[cur], L.InSectorOff(cluster), value)];
    var more := done + 1;
    hide CopyState;
    forall copy: nat | copy < g.numFats ensures CopyState(g, before, after, cluster, value, copy, more) {
      CopyStateStep(g, before, mid, cluster, value, copy, done);
    }
  }
}
