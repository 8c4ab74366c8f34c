/** Who owns which cluster: what creating, writing and deleting do to the chains. */
module FsOwnership {
  import opened Machine
  import opened DiskLayout
  import opened Names
  import opened Directory
  import opened FatChains
  import opened FsModel

  // ---------------------------------------------------------------- creating

  /** Creating an entry whose name does not start with the deletion mark keeps ownership: the
      new slot owns a chain of its own, of one cluster. */
  lemma CreateKeepsOwned(s: Fs, path: seq<Byte>, attr: Byte, chains: seq<seq<int>>) returns (chains': seq<seq<int>>)
    requires FsOk(s) && Owned(s.t, s.root, chains)
    requires Key(Strip(path))[0] != DELETED && Key(Strip(path))[0] != 0
    ensures var r := Create(s, path, attr);
            && Owned(r.fs.t, r.fs.root, chains')
            && chains' == if r.code == Success then chains[FirstUnused(s.root) := [FreeFrom(s.t, 2)]] else chains
  {
    hide Key, Strip, Lookup;
    var r := Create(s, path, attr);
    chains' := chains;
    if r.code == Success {
      var c, i := FreeFrom(s.t, 2), FirstUnused(s.root);
      chains' := chains[i := [c]];
      OthersClear(s, chains, c);
      forall j | 0 <= j < |s.root|
        ensures Heads(r.fs.t, r.fs.root[j], chains'[j])
      {
        if j != i {
          assert Heads(s.t, s.root[j], chains[j]);
          KeepsChain(s.t, r.fs.t, s.root[j], chains[j], c);
        }
      }
      forall d | 2 <= d < CLUSTERS
        ensures r.fs.t[d] != 0 <==> InSome(chains', d)
      {
        assert Heads(s.t, s.root[i], chains[i]);
        InSomeUpdated(chains, i, [c], d);
      }
    }
  }

  /** A free cluster is on no chain. */
  lemma OthersClear(s: Fs, chains: seq<seq<int>>, c: int)
    requires FsOk(s) && Owned(s.t, s.root, chains) && 2 <= c < CLUSTERS && s.t[c] == 0
    ensures forall j | 0 <= j < |chains| :: c !in chains[j]
  {
    assert !InSome(chains, c);
  }

  lemma KeepsChain(t: seq<int>, u: seq<int>, e: Dirent, cs: seq<int>, c: int)
    requires |e.key| == 11 && Heads(t, e, cs) && |t| == |u| == CLUSTERS
    requires c !in cs && forall d | 0 <= d < CLUSTERS && d != c :: t[d] == u[d]
    ensures Heads(u, e, cs)
  {
    if Used(e) {
      ChainInRange(t, cs);
      ChainFrame(t, u, cs);
    }
  }

  lemma InSomeUpdated(chains: seq<seq<int>>, i: nat, cs: seq<int>, d: int)
    requires i < |chains|
    ensures InSome(chains[i := cs], d) <==> d in cs || exists j :: 0 <= j < |chains| && j != i && d in chains[j]
    ensures InSome(chains, d) <==> d in chains[i] || exists j :: 0 <= j < |chains| && j != i && d in chains[j]
  {
    var cs' := chains[i := cs];
    if d in cs {
      assert d in cs'[i];
    }
    if j :| 0 <= j < |chains| && j != i && d in chains[j] {
      assert d in cs'[j];
    }
  }

  /** A name starting with the deletion mark makes an entry that looks deleted: its cluster is
      in use and nobody owns it. */
  lemma CreateLeaks(s: Fs, path: seq<Byte>, attr: Byte, chains: seq<seq<int>>, chains': seq<seq<int>>)
    requires FsOk(s) && Owned(s.t, s.root, chains)
    requires Key(Strip(path))[0] == DELETED && Create(s, path, attr).code == Success
    ensures var r := Create(s, path, attr); !Owned(r.fs.t, r.fs.root, chains')
  {
    hide Key, Strip, Lookup;
    var r := Create(s, path, attr);
    var c, i := FreeFrom(s.t, 2), FirstUnused(s.root);
    OthersClear(s, chains, c);
    if Owned(r.fs.t, r.fs.root, chains') {
      assert InSome(chains', c);
      var j :| 0 <= j < |chains'| && c in chains'[j];
      assert Heads(r.fs.t, r.fs.root[j], chains'[j]);
      assert Heads(s.t, s.root[j], chains[j]);
      if j != i {
        KeepsChain(s.t, r.fs.t, s.root[j], chains[j], c);
        ChainUnique(r.fs.t, chains[j], chains'[j]);
      }
    }
  }

  // ---------------------------------------------------------------- writing

  datatype WriteOut = WriteOut(t: seq<int>, offset: int, size: int, code: Code)

  /** The first sector of a cluster, in 32-bit arithmetic. */
  function SectorOf(cluster: int): int
  {
    (33 + (cluster - 2) * 2) % 0x1_0000_0000
  }

  /** The bytes written into the current sector. */
  function Chunk(offset: int, remaining: nat): (bytes: nat)
    requires 0 <= offset
    ensures bytes <= remaining && (remaining > 0 ==> bytes > 0)
  {
    var room := 512 - offset % 512;
    if room > remaining then remaining else room
  }

  function NextOffset(offset: int, remaining: nat): (r: int)
    requires 0 <= offset
    ensures 0 <= r < 0x1_0000_0000
  {
    (offset + Chunk(offset, remaining)) % 0x1_0000_0000
  }

  /** How many sectors a write completes. */
  function Sectors(offset: int, remaining: nat): (n: nat)
  {
    (offset % 512 + remaining) / 512
  }

  lemma SectorsStep(offset: int, remaining: nat)
    requires 0 <= offset
    ensures remaining == 0 ==> Sectors(offset, remaining) == 0
    ensures var rest := remaining - Chunk(offset, remaining); var offset' := NextOffset(offset, remaining);
            if offset' % 512 != 0 then Sectors(offset, remaining) == Sectors(offset', rest) == 0
            else remaining > 0 ==> Sectors(offset, remaining) == 1 + Sectors(offset', rest)
  {
    var o, bytes := offset % 512, Chunk(offset, remaining);
    ModKeeps512(offset + bytes);
    MultipleOf512(offset / 512, o + bytes);
    assert 512 * (offset / 512) + (o + bytes) == offset + bytes;
  }

  lemma ModKeeps512(x: int)
    ensures x % 0x1_0000_0000 % 512 == x % 512
  {
    MultipleOf512(0x80_0000 * (x / 0x1_0000_0000), x % 0x1_0000_0000);
  }

  lemma MultipleOf512(h: int, r: int)
    ensures (512 * h + r) % 512 == r % 512
  {
  }

  lemma SectorParity(sector: int)
    ensures (sector + 1) % 0x1_0000_0000 % 2 == 1 - sector % 2
  {
    ModKeepsParity(sector + 1);
    NextParity(sector);
  }

  lemma NextParity(x: int)
    ensures (x + 1) % 2 == 1 - x % 2
  {
  }

  lemma SectorOdd(cluster: int)
    ensures SectorOf(cluster) % 2 == 1
  {
    ModKeepsParity(33 + (cluster - 2) * 2);
  }

  lemma ModKeepsParity(x: int)
    ensures x % 0x1_0000_0000 % 2 == x % 2
  {
    var r := x % 0x1_0000_0000;
    EvenPlus(0x8000_0000 * (x / 0x1_0000_0000), r);
  }

  lemma EvenPlus(h: int, r: int)
    ensures (2 * h + r) % 2 == r % 2
  {
  }

  datatype FollowOut = FollowOut(t: seq<int>, code: Code, cluster: int)

  /** The step of fs_write to the next cluster: along the chain, or to a new cluster linked to its end. */
  function Follow(t: seq<int>, cluster: int): (r: FollowOut)
    requires TableOk(t) && 0 <= cluster
    ensures TableOk(r.t) && 0 <= r.cluster < 0x10000
    ensures r.code != Success ==> r.t == t
  {
    if cluster >= CLUSTERS then FollowOut(t, IoError, 0)
    else if t[cluster] < END_OF_CHAIN then FollowOut(t, Success, t[cluster])
    else
      var n := FreeFrom(t, 2);
      if n == CLUSTERS then FollowOut(t, DiskFull, 0)
      else FollowOut(t[n := LAST][cluster := n], Success, n)
  }

  /** The loop of fs_write with remaining bytes left: its effect on the FAT and the handle. */
  function WriteLoop(t: seq<int>, cluster: int, sector: int, offset: int, size: int, remaining: nat): (out: WriteOut)
    requires TableOk(t) && 0 <= cluster && 0 <= offset
    ensures TableOk(out.t) && 0 <= out.offset && (offset < 0x1_0000_0000 ==> out.offset < 0x1_0000_0000)
    decreases remaining
  {
    if remaining == 0 then WriteOut(t, offset, size, Success)
    else
      var bytes := Chunk(offset, remaining);
      var offset' := NextOffset(offset, remaining);
      var size' := if offset' > size then offset' else size;
      var sector' := (sector + 1) % 0x1_0000_0000;
      if offset' % 512 != 0 then WriteLoop(t, cluster, sector, offset', size', remaining - bytes)
      else if sector' % 2 != 0 then WriteLoop(t, cluster, sector', offset', size', remaining - bytes)
      else
        var next := Follow(t, cluster);
        if next.code != Success then WriteOut(t, offset', size', next.code)
        else WriteLoop(next.t, next.cluster, SectorOf(next.cluster), offset', size', remaining - bytes)
  }

  /** u is t with the chain cs extended by ext: clusters that were free, and nothing else but
      the old last entry has changed. */
  ghost predicate Extends(t: seq<int>, u: seq<int>, cs: seq<int>, ext: seq<int>)
  {
    && TableOk(u) && |t| == CLUSTERS && cs != []
    && IsChain(u, cs + ext)
    && (forall c | c in ext :: 2 <= c < CLUSTERS && t[c] == 0)
    && (ext == [] ==> u == t)
    && (forall c | 0 <= c < CLUSTERS && c !in ext && c != cs[|cs| - 1] :: u[c] == t[c])
  }

  lemma ExtendsNothing(t: seq<int>, cs: seq<int>)
    requires TableOk(t) && IsChain(t, cs)
    ensures Extends(t, t, cs, [])
  {
    assert cs + [] == cs;
  }

  lemma ExtendsStep(t: seq<int>, u: seq<int>, cs: seq<int>, n: int, ext: seq<int>)
    requires TableOk(t) && IsChain(t, cs) && 2 <= n < CLUSTERS && t[n] == 0
    requires 2 <= cs[|cs| - 1] < CLUSTERS && n !in cs
    requires Extends(t[n := LAST][cs[|cs| - 1] := n], u, cs + [n], ext)
    ensures Extends(t, u, cs, [n] + ext)
  {
    assert cs + [n] + ext == cs + ([n] + ext);
    ChainAt(t, cs, |cs| - 1);
  }

  /** How many clusters a write adds that starts in the given sector of a cluster with after more
      clusters behind it: every 512 bytes completed lead to a new sector, every second sector
      number, and with it the first one of a cluster, is odd, and leaving it leads to the next cluster. */
  function Needed(offset: int, remaining: nat, sector: int, after: int): (n: nat)
  {
    var steps := Sectors(offset, remaining) - (1 - sector % 2) - after;
    if steps < 0 then 0 else steps
  }

  /** The data clusters that are free. */
  ghost function FreeClusters(t: seq<int>): set<int>
    requires |t| == CLUSTERS
  {
    set c | 2 <= c < CLUSTERS && t[c] == 0
  }

  lemma NeededStep(offset: int, remaining: nat, sector: int, after: nat)
    requires 0 <= offset
    ensures var rest := remaining - Chunk(offset, remaining); var offset' := NextOffset(offset, remaining);
            var sector' := (sector + 1) % 0x1_0000_0000; var n := Needed(offset, remaining, sector, after);
            if remaining == 0 then n == 0
            else if offset' % 512 != 0 then n == Needed(offset', rest, sector, after)
            else if sector' % 2 != 0 then n == Needed(offset', rest, sector', after)
            else forall c :: n == if after > 0 then Needed(offset', rest, SectorOf(c), after - 1)
                                  else 1 + Needed(offset', rest, SectorOf(c), 0)
  {
    hide Chunk, NextOffset, SectorOf, Sectors;
    SectorsStep(offset, remaining);
    SectorParity(sector);
    forall c
      ensures SectorOf(c) % 2 == 1
    {
      SectorOdd(c);
    }
  }

  /** A write only extends the chain it is on, by clusters that were free: as many as it needs, or
      as many as there were before the disk was full. */
  lemma {:induction false} WriteExtends(t: seq<int>, cs: seq<int>, j: nat, sector: int, offset: int, size: int,
                                        remaining: nat)
    returns (ext: seq<int>)
    requires TableOk(t) && IsChain(t, cs) && j < |cs| && 0 <= offset
    ensures 0 <= cs[j]
    ensures var out := WriteLoop(t, cs[j], sector, offset, size, remaining);
            var needed := Needed(offset, remaining, sector, |cs| - 1 - j);
            && Extends(t, out.t, cs, ext)
            && out.code == (if needed <= |FreeClusters(t)| then Success else DiskFull)
            && |ext| == if out.code == Success then needed else |FreeClusters(t)|
    decreases remaining
  {
    hide IsChain, Chunk, NextOffset, SectorOf, Extends, FreeFrom, Needed;
    ChainAt(t, cs, j);
    NeededStep(offset, remaining, sector, |cs| - 1 - j);
    var bytes := Chunk(offset, remaining);
    var offset' := NextOffset(offset, remaining);
    var size' := if offset' > size then offset' else size;
    var sector' := (sector + 1) % 0x1_0000_0000;
    ext := [];
    ExtendsNothing(t, cs);
    if remaining == 0 {
    } else if offset' % 512 != 0 {
      ext := WriteExtends(t, cs, j, sector, offset', size', remaining - bytes);
    } else if sector' % 2 != 0 {
      ext := WriteExtends(t, cs, j, sector', offset', size', remaining - bytes);
    } else if t[cs[j]] < END_OF_CHAIN {
      ext := WriteExtends(t, cs, j + 1, SectorOf(cs[j + 1]), offset', size', remaining - bytes);
    } else {
      assert j == |cs| - 1;
      var n := FreeFrom(t, 2);
      if n < CLUSTERS {
        ChainAppend(t, cs, n);
        FreeAfterAppend(t, cs[j], n);
        var u := t[n := LAST][cs[j] := n];
        var rest := WriteExtends(u, cs + [n], j + 1, SectorOf(n), offset', size', remaining - bytes);
        ExtendsStep(t, WriteLoop(u, n, SectorOf(n), offset', size', remaining - bytes).t, cs, n, rest);
        ext := [n] + rest;
      } else {
        assert FreeClusters(t) == {};
      }
    }
  }

  lemma FreeAfterAppend(t: seq<int>, c: int, n: int)
    requires TableOk(t) && 2 <= c < CLUSTERS && t[c] != 0 && 2 <= n < CLUSTERS && t[n] == 0
    ensures |FreeClusters(t)| == 1 + |FreeClusters(t[n := LAST][c := n])|
  {
    assert FreeClusters(t) == FreeClusters(t[n := LAST][c := n]) + {n};
  }

  lemma {:induction false} LoopAdvances(t: seq<int>, cluster: int, sector: int, offset: int, size: int, remaining: nat)
    requires TableOk(t) && 0 <= cluster && 0 <= offset < 0x1_0000_0000
    ensures var out := WriteLoop(t, cluster, sector, offset, size, remaining); var end := offset + remaining;
            out.code == Success ==>
              && out.offset == end % 0x1_0000_0000
              && (end < 0x1_0000_0000 ==> out.size == if remaining > 0 && end > size then end else size)
    decreases remaining
  {
    hide SectorOf, Follow, Chunk;
    if remaining > 0 {
      var rest := remaining - Chunk(offset, remaining);
      var offset' := NextOffset(offset, remaining);
      OffsetsAddUp(offset, remaining);
      var size' := if offset' > size then offset' else size;
      LoopAdvances(t, cluster, sector, offset', size', rest);
      LoopAdvances(t, cluster, (sector + 1) % 0x1_0000_0000, offset', size', rest);
      var next := Follow(t, cluster);
      LoopAdvances(next.t, next.cluster, SectorOf(next.cluster), offset', size', rest);
    }
  }

  lemma OffsetsAddUp(offset: int, remaining: nat)
    requires 0 <= offset < 0x1_0000_0000 && remaining > 0
    ensures 0 <= NextOffset(offset, remaining) < 0x1_0000_0000
    ensures (NextOffset(offset, remaining) + (remaining - Chunk(offset, remaining))) % 0x1_0000_0000
            == (offset + remaining) % 0x1_0000_0000
    ensures offset + remaining < 0x1_0000_0000 ==> NextOffset(offset, remaining) == offset + Chunk(offset, remaining)
  {
    hide Chunk;
  }

  /** Extending the chain of slot i keeps ownership. */
  lemma ExtendKeepsOwned(s: Fs, chains: seq<seq<int>>, i: nat, u: seq<int>, ext: seq<int>)
    requires FsOk(s) && Owned(s.t, s.root, chains) && i < |s.root| && Used(s.root[i])
    requires Extends(s.t, u, chains[i], ext)
    ensures Owned(u, s.root, chains[i := chains[i] + ext])
  {
    hide IsChain;
    var cs := chains[i];
    var chains' := chains[i := cs + ext];
    assert Heads(s.t, s.root[i], cs);
    ChainInRange(u, cs + ext);
    ChainInRange(s.t, cs);
    forall c | c in ext
      ensures forall j | 0 <= j < |chains| :: c !in chains[j]
    {
      OthersClear(s, chains, c);
    }
    forall j | 0 <= j < |s.root|
      ensures Heads(u, s.root[j], chains'[j])
    {
      if j != i {
        OtherChainKept(s, chains, i, u, ext, j);
      }
    }
    forall d | 2 <= d < CLUSTERS
      ensures u[d] != 0 <==> InSome(chains', d)
    {
      InSomeUpdated(chains, i, cs + ext, d);
      assert s.t[d] != 0 <==> InSome(chains, d);
    }
  }

  lemma OtherChainKept(s: Fs, chains: seq<seq<int>>, i: nat, u: seq<int>, ext: seq<int>, j: nat)
    requires FsOk(s) && Owned(s.t, s.root, chains) && i < |s.root| && j < |s.root| && i != j && Used(s.root[i])
    requires Extends(s.t, u, chains[i], ext)
    requires forall c | c in ext :: c !in chains[j]
    ensures Heads(u, s.root[j], chains[j])
  {
    assert Heads(s.t, s.root[j], chains[j]);
    if Used(s.root[j]) {
      ChainInRange(s.t, chains[j]);
      assert Apart(chains[i], chains[j]);
      assert chains[i][|chains[i]| - 1] in chains[i];
      ChainFrame(s.t, u, chains[j]);
    }
  }

  datatype WriteResult = WriteResult(fs: Fs, handle: Handle, code: Code)

  /** fs_write of count bytes through a handle. */
  function Write(s: Fs, h: Handle, count: nat): (r: WriteResult)
    requires TableOk(s.t) && 0 <= h.cluster && 0 <= h.offset
    ensures TableOk(r.fs.t) && r.fs.root == s.root && r.handle.cluster == h.cluster && 0 <= r.handle.offset
    ensures h.offset < 0x1_0000_0000 ==> r.handle.offset < 0x1_0000_0000
    ensures r.handle == h.(offset := r.handle.offset, size := r.handle.size)
  {
    if !h.valid || !CanWrite(h.mode) then WriteResult(s, h, IoError)
    else
      var sector := (33 + (h.cluster - 2) * 2 + h.offset / 512) % 0x1_0000_0000;
      var out := WriteLoop(s.t, h.cluster, sector, h.offset, h.size, count);
      WriteResult(Fs(out.t, s.root), h.(offset := out.offset, size := out.size), out.code)
  }

  /** A write that succeeds moves the offset on by what it wrote, as a 32-bit word, and the size of
      the handle with it. */
  lemma WriteAdvances(s: Fs, h: Handle, count: nat)
    requires TableOk(s.t) && 0 <= h.cluster && 0 <= h.offset < 0x1_0000_0000
    ensures var r := Write(s, h, count); var end := h.offset + count;
            r.code == Success ==>
              && r.handle.offset == end % 0x1_0000_0000
              && (end < 0x1_0000_0000 ==> r.handle.size == if count > 0 && end > h.size then end else h.size)
              && h.valid && CanWrite(h.mode)
  {
    hide WriteLoop;
    LoopAdvances(s.t, h.cluster, (33 + (h.cluster - 2) * 2 + h.offset / 512) % 0x1_0000_0000, h.offset, h.size, count);
  }

  /** How many clusters a write of count bytes at the offset adds to a file that has held: the
      bytes are counted from the file's first cluster on, whatever the offset. */
  function Growth(offset: int, count: nat, held: nat): (n: nat)
  {
    var steps := Sectors(offset, count) - offset / 512 % 2 - (held - 1);
    if steps < 0 then 0 else steps
  }

  lemma GrowthIsNeeded(cluster: int, offset: int, count: nat, held: nat)
    requires 0 <= offset
    ensures Needed(offset, count, (33 + (cluster - 2) * 2 + offset / 512) % 0x1_0000_0000, held - 1)
            == Growth(offset, count, held)
  {
    ModKeepsParity(33 + (cluster - 2) * 2 + offset / 512);
    EvenPlus(16 + cluster - 2, 1 + offset / 512);
  }

  /** A write through a handle of slot i extends the chain of slot i by clusters that were free,
      and leaves every other slot's chain as it was.  It succeeds exactly if there are as many
      as it needs. */
  lemma WriteKeepsOwned(s: Fs, h: Handle, count: nat, chains: seq<seq<int>>, i: nat) returns (ext: seq<int>)
    requires FsOk(s) && Owned(s.t, s.root, chains) && i < |s.root| && Used(s.root[i])
    requires h.cluster == s.root[i].cluster && 0 <= h.offset && 0 <= h.cluster
    ensures |chains| == |s.root|
    ensures var r := Write(s, h, count);
            var growth := Growth(h.offset, count, |chains[i]|); var free := |FreeClusters(s.t)|;
            && FsOk(r.fs) && r.fs.root == s.root
            && Extends(s.t, r.fs.t, chains[i], ext)
            && Owned(r.fs.t, r.fs.root, chains[i := chains[i] + ext])
            && r.code == (if !h.valid || !CanWrite(h.mode) then IoError
                          else if growth <= free then Success else DiskFull)
            && |ext| == match r.code case Success => growth case DiskFull => free case _ => 0
  {
    hide IsChain, WriteLoop, Needed, Growth;
    assert Heads(s.t, s.root[i], chains[i]);
    ChainInRange(s.t, chains[i]);
    ChainAt(s.t, chains[i], 0);
    if !h.valid || !CanWrite(h.mode) {
      ext := [];
      ExtendsNothing(s.t, chains[i]);
      assert chains[i] + [] == chains[i];
    } else {
      var sector := (33 + (h.cluster - 2) * 2 + h.offset / 512) % 0x1_0000_0000;
      GrowthIsNeeded(h.cluster, h.offset, count, |chains[i]|);
      ext := WriteExtends(s.t, chains[i], 0, sector, h.offset, h.size, count);
      ExtendKeepsOwned(s, chains, i, WriteLoop(s.t, h.cluster, sector, h.offset, h.size, count).t, ext);
      ExtendsLow(s.t, WriteLoop(s.t, h.cluster, sector, h.offset, h.size, count).t, chains[i], ext);
    }
  }

  lemma ExtendsLow(t: seq<int>, u: seq<int>, cs: seq<int>, ext: seq<int>)
    requires Extends(t, u, cs, ext) && IsChain(t, cs)
    ensures u[0] == t[0] && u[1] == t[1]
  {
    ChainAt(t, cs, |cs| - 1);
  }

  /** A file just created and written once holds one cluster more for every 512 bytes, although
      a cluster has two sectors. */
  lemma FreshFileLength(s: Fs, h: Handle, count: nat, chains: seq<seq<int>>, i: nat) returns (cs: seq<int>)
    requires FsOk(s) && Owned(s.t, s.root, chains) && i < |s.root| && Used(s.root[i])
    requires h.cluster == s.root[i].cluster && h.offset == 0 && |chains[i]| == 1
    requires 0 <= h.cluster && Write(s, h, count).code == Success
    ensures IsChain(Write(s, h, count).fs.t, cs) && cs[0] == h.cluster && |cs| == 1 + count / 512
  {
    hide IsChain, Write;
    var ext := WriteKeepsOwned(s, h, count, chains, i);
    cs := chains[i] + ext;
    assert Heads(Write(s, h, count).fs.t, s.root[i], chains[i := cs][i]);
  }

  /** Writes of at most 512 * m bytes never bring a file beyond m + 1 clusters, wherever they write. */
  lemma SmallWritesStop(offset: int, count: nat, held: nat, m: nat)
    requires 0 <= offset && count <= 512 * m
    ensures held <= m + 1 ==> held + Growth(offset, count, held) <= m + 1
    ensures held > m ==> Growth(offset, count, held) == 0
  {
  }

  // ---------------------------------------------------------------- writing through any handle

  /** From a free cluster a write goes round on cluster 0, and leaves the table as it is. */
  lemma {:induction false} FreeClusterWrite(t: seq<int>, c: int, sector: int, offset: int, size: int, remaining: nat)
    requires TableOk(t) && t[0] == 0 && 0 <= c < CLUSTERS && t[c] == 0 && 0 <= offset
    ensures WriteLoop(t, c, sector, offset, size, remaining).t == t
    decreases remaining
  {
    hide SectorOf, Chunk, NextOffset;
    if remaining > 0 {
      var rest, offset' := remaining - Chunk(offset, remaining), NextOffset(offset, remaining);
      var size' := if offset' > size then offset' else size;
      FreeClusterWrite(t, c, sector, offset', size', rest);
      FreeClusterWrite(t, c, (sector + 1) % 0x1_0000_0000, offset', size', rest);
      FreeClusterWrite(t, 0, SectorOf(0), offset', size', rest);
    }
  }

  /** Whatever data cluster a handle starts on, a write keeps ownership: on a free one it changes
      nothing, and otherwise it extends the chain of the entry that owns the cluster now. */
  lemma AnyWriteKeepsOwned(s: Fs, h: Handle, count: nat, chains: seq<seq<int>>) returns (chains': seq<seq<int>>)
    requires FsOk(s) && Owned(s.t, s.root, chains) && 2 <= h.cluster < CLUSTERS && 0 <= h.offset
    ensures var r := Write(s, h, count); FsOk(r.fs) && Owned(r.fs.t, r.fs.root, chains')
    ensures s.t[h.cluster] == 0 ==> Write(s, h, count).fs == s
  {
    hide IsChain, WriteLoop;
    chains' := chains;
    if h.valid && CanWrite(h.mode) {
      var sector := (33 + (h.cluster - 2) * 2 + h.offset / 512) % 0x1_0000_0000;
      if s.t[h.cluster] == 0 {
        FreeClusterWrite(s.t, h.cluster, sector, h.offset, h.size, count);
      } else {
        var i, j := OwnerOf(s, chains, h.cluster);
        var ext := WriteExtends(s.t, chains[i], j, sector, h.offset, h.size, count);
        var u := WriteLoop(s.t, h.cluster, sector, h.offset, h.size, count).t;
        ExtendKeepsOwned(s, chains, i, u, ext);
        ExtendsLow(s.t, u, chains[i], ext);
        chains' := chains[i := chains[i] + ext];
      }
    }
  }

  lemma OwnerOf(s: Fs, chains: seq<seq<int>>, c: int) returns (i: nat, j: nat)
    requires FsOk(s) && Owned(s.t, s.root, chains) && 2 <= c < CLUSTERS && s.t[c] != 0
    ensures |chains| == |s.root| && i < |s.root| && Used(s.root[i]) && IsChain(s.t, chains[i])
    ensures j < |chains[i]| && chains[i][j] == c
  {
    hide IsChain;
    assert InSome(chains, c);
    i :| 0 <= i < |chains| && c in chains[i];
    assert Heads(s.t, s.root[i], chains[i]);
    j :| 0 <= j < |chains[i]| && chains[i][j] == c;
  }

  // ---------------------------------------------------------------- deleting

  /** fs_delete: cs is the chain of the entry found.  The entry is looked up without the leading
      slash, but removed under the path as given. */
  function Delete(s: Fs, path: seq<Byte>, cs: seq<int>): (r: CreateResult)
    requires SlotsOk(s.root) && InTable(s.t, cs)
    ensures SlotsOk(r.fs.root) && |r.fs.root| == |s.root| && (TableOk(s.t) ==> TableOk(r.fs.t))
  {
    var i := Lookup(s.root, Key(Strip(path)));
    if !IsValidPath(path) then CreateResult(s, InvalidPath)
    else if i == |s.root| then CreateResult(s, NotFound)
    else if IsDirectory(s.root[i].attr) then CreateResult(s, AccessDenied)
    else
      var t := Cleared(s.t, cs);
      var j := Lookup(s.root, Key(path));
      if j == |s.root| then CreateResult(Fs(t, s.root), IoError)
      else CreateResult(Fs(t, s.root[j := s.root[j].(key := s.root[j].key[0 := DELETED])]), Success)
  }

  /** Deleting a file keeps ownership exactly when the key of the path as given is the key of
      the path without its slash. */
  lemma DeleteKeepsOwnedIff(s: Fs, path: seq<Byte>, chains: seq<seq<int>>)
    requires FsOk(s) && UniqueKeys(s.root) && Owned(s.t, s.root, chains) && IsValidPath(path)
    requires var i := Lookup(s.root, Key(Strip(path))); i < |s.root| && !IsDirectory(s.root[i].attr)
    ensures var i := Lookup(s.root, Key(Strip(path)));
            InTable(s.t, chains[i]) &&
            var r := Delete(s, path, chains[i]);
            SlotsOk(r.fs.root) &&
            ((exists chains' :: Owned(r.fs.t, r.fs.root, chains')) <==> Key(path) == Key(Strip(path)))
  {
    hide Key, Strip, IsChain, IsValidPath;
    var i := Lookup(s.root, Key(Strip(path)));
    assert Heads(s.t, s.root[i], chains[i]);
    ChainInRange(s.t, chains[i]);
    var r := Delete(s, path, chains[i]);
    if Key(path) == Key(Strip(path)) {
      RemoveKeepsOwned(s, chains, i);
      assert Owned(r.fs.t, r.fs.root, chains[i := []]);
    } else {
      DeleteOrphans(s, path, chains);
    }
  }

  lemma RemoveKeepsOwned(s: Fs, chains: seq<seq<int>>, i: nat)
    requires FsOk(s) && Owned(s.t, s.root, chains) && i < |s.root| && Used(s.root[i])
    requires InTable(s.t, chains[i])
    ensures Owned(Cleared(s.t, chains[i]), s.root[i := s.root[i].(key := s.root[i].key[0 := DELETED])], chains[i := []])
  {
    hide IsChain;
    var u := Cleared(s.t, chains[i]);
    var root := s.root[i := s.root[i].(key := s.root[i].key[0 := DELETED])];
    var chains' := chains[i := []];
    forall j | 0 <= j < |root|
      ensures Heads(u, root[j], chains'[j])
    {
      if j != i {
        assert Heads(s.t, s.root[j], chains[j]) && Apart(chains[i], chains[j]);
        if Used(s.root[j]) {
          ChainInRange(s.t, chains[j]);
          ChainFrame(s.t, u, chains[j]);
        }
      }
    }
    forall d | 2 <= d < CLUSTERS
      ensures u[d] != 0 <==> InSome(chains', d)
    {
      InSomeUpdated(chains, i, [], d);
      assert s.t[d] != 0 <==> InSome(chains, d);
      if j :| 0 <= j < |chains| && j != i && d in chains[j] {
        assert Apart(chains[i], chains[j]);
      }
    }
  }

  /** Otherwise the entry stays, heading clusters that are now free. */
  lemma DeleteOrphans(s: Fs, path: seq<Byte>, chains: seq<seq<int>>)
    requires FsOk(s) && UniqueKeys(s.root) && Owned(s.t, s.root, chains) && IsValidPath(path)
    requires Key(path) != Key(Strip(path))
    requires var i := Lookup(s.root, Key(Strip(path)));
             i < |s.root| && !IsDirectory(s.root[i].attr) && InTable(s.t, chains[i])
    ensures var i := Lookup(s.root, Key(Strip(path))); var r := Delete(s, path, chains[i]);
            && SlotsOk(r.fs.root) && |r.fs.root| == |s.root|
            && r.fs.root[i] == s.root[i] && 2 <= s.root[i].cluster < CLUSTERS && r.fs.t[s.root[i].cluster] == 0
            && Lookup(r.fs.root, Key(Strip(path))) == i
            && forall chains' :: !Owned(r.fs.t, r.fs.root, chains')
  {
    hide Key, Strip, IsValidPath;
    var i := Lookup(s.root, Key(Strip(path)));
    var r := Delete(s, path, chains[i]);
    assert Heads(s.t, s.root[i], chains[i]);
    assert chains[i][0] in chains[i];
    LookupIs(r.fs.root, Key(Strip(path)), i);
    forall chains'
      ensures !Owned(r.fs.t, r.fs.root, chains')
    {
      if Owned(r.fs.t, r.fs.root, chains') {
        assert Heads(r.fs.t, r.fs.root[i], chains'[i]);
        ChainAt(r.fs.t, chains'[i], 0);
      }
    }
  }

  /** Deleting the same file again then never ends: the loop that frees its clusters starts on a
      free cluster. */
  lemma DeletingTwiceHangs(s: Fs, path: seq<Byte>, chains: seq<seq<int>>, k: nat)
    requires FsOk(s) && UniqueKeys(s.root) && Owned(s.t, s.root, chains) && IsValidPath(path)
    requires Key(path) != Key(Strip(path))
    requires var i := Lookup(s.root, Key(Strip(path)));
             i < |s.root| && !IsDirectory(s.root[i].attr) && InTable(s.t, chains[i])
    ensures var i := Lookup(s.root, Key(Strip(path))); var r := Delete(s, path, chains[i]);
            && SlotsOk(r.fs.root) && |r.fs.root| == |s.root| && TableOk(r.fs.t)
            && var i' := Lookup(r.fs.root, Key(Strip(path)));
               && i' < |r.fs.root| && !IsDirectory(r.fs.root[i'].attr) && 0 < r.fs.root[i'].cluster
               && FreeLoop(r.fs.t, r.fs.root[i'].cluster, k).Running?
  {
    hide Key, Strip, IsValidPath, FreeLoop, Lookup;
    var i := Lookup(s.root, Key(Strip(path)));
    DeleteOrphans(s, path, chains);
    FreeingFreeClusterHangs(Delete(s, path, chains[i]).fs.t, s.root[i].cluster, k);
  }

  /** The keys of a valid path with and without its slash agree for no ordinary name: only if
      there is no slash, or the name's base is eight slashes. */
  lemma KeysAgreeIff(path: seq<Byte>)
    requires IsValidPath(path)
    ensures Key(path) == Key(Strip(path)) <==>
              path[0] != SLASH || Base(path[1..]) == seq(8, _ => SLASH)
  {
    if path[0] == SLASH {
      var n := path[1..];
      var d := IndexOf(n, DOT);
      IndexOfIs(path, DOT, d + 1);
      assert Base(path) == [SLASH] + Base(n) && Ext(path) == Ext(n);
      assert Key(path)[..8] == Field([SLASH] + Base(n), 8) && Key(n)[..8] == Field(Base(n), 8);
      ShiftedField(Base(n));
    }
  }

  lemma ShiftedField(b: seq<Byte>)
    requires |b| <= 8
    ensures Field([SLASH] + b, 8) == Field(b, 8) <==> b == seq(8, _ => SLASH)
  {
    if Field([SLASH] + b, 8) == Field(b, 8) {
      SlashAt(b, 7);
    }
  }

  lemma {:induction false} SlashAt(b: seq<Byte>, i: nat)
    requires Field([SLASH] + b, 8) == Field(b, 8) && i < 8
    ensures |b| > i && forall j | 0 <= j <= i :: b[j] == SLASH
  {
    var f := Field(b, 8);
    if i > 0 {
      SlashAt(b, i - 1);
    }
    assert f[i] == Field([SLASH] + b, 8)[i] == SLASH;
  }

  /** Every answer of fs_delete, and that it changes nothing unless it finds a file. */
  lemma DeleteAnswers(s: Fs, path: seq<Byte>, cs: seq<int>)
    requires SlotsOk(s.root) && UniqueKeys(s.root) && InTable(s.t, cs)
    ensures var key := Key(Strip(path)); var r := Delete(s, path, cs);
            && (r.code == InvalidPath <==> !IsValidPath(path))
            && (r.code == NotFound <==> IsValidPath(path) && !HasKey(s.root, key))
            && (forall j | 0 <= j < |s.root| && IsEntry(s.root[j], key) && IsValidPath(path) ::
                  if s.root[j].attr / 16 % 2 == 1 then r == CreateResult(s, AccessDenied)
                  else r.code == if HasKey(s.root, Key(path)) then Success else IoError)
            && (r.code == InvalidPath || r.code == NotFound || r.code == AccessDenied ==> r.fs == s)
  {
    hide Key, Strip, IsValidPath;
    LookupFinds(s.root, Key(Strip(path)));
    LookupFinds(s.root, Key(path));
  }

  /** A directory just made cannot be deleted. */
  lemma MadeDirectoryStays(s: Fs, path: seq<Byte>, cs: seq<int>)
    requires FsOk(s) && UniqueKeys(s.root) && Mkdir(s, path).code == Success
    requires Key(Strip(path))[0] != DELETED && Key(Strip(path))[0] != 0 && InTable(s.t, cs)
    ensures var made := Mkdir(s, path).fs;
            SlotsOk(made.root) && InTable(made.t, cs) && Delete(made, path, cs) == CreateResult(made, AccessDenied)
  {
    hide Key, Strip, IsValidPath, UniqueKeys;
    MkdirAnswers(s, path);
  }
}
