/**
 Writer and reader of the FAT together: the chain that concurrent calls of Fat32WriteFATEntry wrote
 is the chain that fat32_next_cluster follows, in every mirror.
 */
module FatWritten {
  import opened Machine
  import opened FatDisk
  import opened FatLock
  import opened FatCalls
  import FatChain
  import FatFile

  /** The last call for each cluster of the list asked for the following one, that for the last one for an end mark. */
  ghost predicate AskedFor(rs: seq<Request>, cs: seq<nat>) {
    && cs != []
    && (forall k | 0 <= k < |cs| - 1 :: LastAsked(rs, cs[k]) == Some(cs[k + 1]))
    && LastAsked(rs, cs[|cs| - 1]).Some? && 0x0FFF_FFF8 <= LastAsked(rs, cs[|cs| - 1]).value < 0x1000_0000
  }

  /** A mirror seen as the FAT of a volume. */
  lemma MirrorEntry(g: Geometry, disk0: seq<Sector>, v: FatChain.Volume, copy: nat, c: nat, asked: nat)
    requires v.fatStart == g.reserved + copy * g.fatSize && asked < 0x1000_0000
    requires HoldsAsked(g, disk0, v.sectors, copy, c, Some(asked))
    ensures FatFile.EntryIs(v, c, asked)
  {
    hide U32At;
    var at := v.fatStart;
    var mirror, rest := v.sectors[at..at + g.fatSize], v.sectors[at..];
    WordInSector(mirror, c);
    WordInSector(rest, c);
    assert mirror[c * 4 / BPS] == rest[c * 4 / BPS];
    DivUnique(asked, 0x1000_0000, 0, asked);
  }

  /** Main result: a fault-free, quiescent run of any threads leaves the reader, on any mirror, exactly the chain that was asked for. */
  lemma ReaderFollowsWrites(g: Geometry, n: nat, disk0: seq<Sector>, steps: Steps, r: Sys, copy: nat, v: FatChain.Volume, cs: seq<nat>, k: nat)
    requires Fits(g, disk0) && Run(g, Start(n, disk0), steps, r) && AllWell(steps) && !Taken(steps)
    requires copy < g.numFats && v.fatStart == g.reserved + copy * g.fatSize && v.sectors == r.disk && |disk0| <= TWO32
    requires AskedFor(Requests(steps), cs)
    requires forall j | 0 <= j < |cs| :: 2 <= cs[j] < 0x0FFF_FFF0 && 4 * cs[j] + 4 <= 512 * g.fatSize
    requires forall i, j | 0 <= i < j < |cs| :: cs[i] != cs[j]
    ensures FatChain.Nth(v, cs[0], k) == if k < |cs| then cs[k] else 0x0FFF_FFF8
  {
    hide Run, Inv, Fits, HoldsAsked, Requests, LastAsked, AllWell, Taken, FatFile.EntryIs, FatChain.Nth;
    forall j | 0 <= j < |cs| - 1 ensures FatFile.EntryIs(v, cs[j], cs[j + 1]) {
      CallsReachEveryMirror(g, n, disk0, steps, r, copy, cs[j]);
      MirrorEntry(g, disk0, v, copy, cs[j], cs[j + 1]);
    }
    var last := cs[|cs| - 1];
    CallsReachEveryMirror(g, n, disk0, steps, r, copy, last);
    MirrorEntry(g, disk0, v, copy, last, LastAsked(Requests(steps), last).value);
    assert FatFile.EntryEnds(v, last);
    assert |r.disk| == |disk0| by { SameLength(g, disk0, r.disk, copy, last, LastAsked(Requests(steps), last)); }
    FatFile.ReaderFollows(v, cs, k);
  }

  lemma SameLength(g: Geometry, disk0: seq<Sector>, disk: seq<Sector>, copy: nat, c: nat, asked: Option<nat>)
    requires HoldsAsked(g, disk0, disk, copy, c, asked)
    ensures |disk| == |disk0|
  {
  }
}
