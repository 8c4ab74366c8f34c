/** The kernel heap in memory: 20-byte headers inside the heap range, linked by address. */
module KernelHeap {
  import opened Machine
  import opened BlockList
  import opened HeapTheorems

  const MEMORY_FREE: Word := 0
  const MEMORY_ALLOCATED: Word := 1
  const NULL: Word := 0

  /** memory_block_t */
  datatype Header = Header(start: int, size: int, kind: int, next: int, prev: int)

  ghost function HeaderAt(m: seq<Byte>, a: int): Header
    requires 0 <= a && a + HEADER <= |m|
  {
    Header(LoadWord(m, a), LoadWord(m, a + 4), LoadWord(m, a + 8), LoadWord(m, a + 12), LoadWord(m, a + 16))
  }

  /** The header address of block i, or NULL outside the list. */
  ghost function AddrAt(bs: seq<Block>, i: int): int
  {
    if 0 <= i < |bs| then bs[i].addr else NULL
  }

  /** The header block i of the list must have, with both links. */
  ghost function HeaderOf(bs: seq<Block>, i: int): Header
    requires 0 <= i < |bs|
  {
    Header(bs[i].Payload(), bs[i].size, if bs[i].free then MEMORY_FREE else MEMORY_ALLOCATED,
           AddrAt(bs, i + 1), AddrAt(bs, i - 1))
  }

  lemma HeaderFields(bs: seq<Block>, i: nat)
    requires Tiles(bs, HEAP_START, HEAP_END) && i < |bs|
    ensures var h := HeaderOf(bs, i);
            && h.start == bs[i].Payload() && h.size == bs[i].size
            && (h.kind == MEMORY_FREE <==> bs[i].free) && (h.kind == MEMORY_ALLOCATED <==> !bs[i].free)
            && h.next == AddrAt(bs, i + 1) && h.prev == AddrAt(bs, i - 1)
            && (h.next == NULL <==> i + 1 == |bs|)
  {
    TilesAll(bs, HEAP_START, HEAP_END);
  }

  lemma AddrNonNull(bs: seq<Block>, i: nat)
    requires Tiles(bs, HEAP_START, HEAP_END) && i <= |bs|
    ensures AddrAt(bs, i) == NULL <==> i == |bs|
  {
    TilesAll(bs, HEAP_START, HEAP_END);
  }

  ghost predicate HasHeader(m: seq<Byte>, a: int, h: Header)
  {
    0 <= a && a + HEADER <= |m| && HeaderAt(m, a) == h
  }

  ghost predicate InMemory(m: seq<Byte>, bs: seq<Block>)
  {
    forall i | 0 <= i < |bs| :: HasHeader(m, bs[i].addr, HeaderOf(bs, i))
  }

  /** No payload byte of the given blocks differs. */
  /** The five words in memory at every block of the list. */
  lemma HeaderWords(m: seq<Byte>, bs: seq<Block>, i: nat)
    requires InMemory(m, bs) && i < |bs|
    ensures var a := bs[i].addr;
            && 0 <= a && a + 20 <= |m|
            && LoadWord(m, a) == a + 20
            && LoadWord(m, a + 4) == bs[i].size
            && LoadWord(m, a + 8) == (if bs[i].free then 0 else 1)
            && LoadWord(m, a + 12) == (if i + 1 < |bs| then bs[i + 1].addr else 0)
            && LoadWord(m, a + 16) == (if i > 0 then bs[i - 1].addr else 0)
  {
    assert HasHeader(m, bs[i].addr, HeaderOf(bs, i));
  }

  ghost predicate PayloadsKept(m: seq<Byte>, n: seq<Byte>, live: set<Block>)
    requires |m| == |n|
  {
    forall b | b in live :: SameOn(m, n, b.Payload(), b.End())
  }

  // ---------------------------------------------------------------- frames

  lemma HeaderFrame(m: seq<Byte>, n: seq<Byte>, lo: int, hi: int, a: int, h: Header)
    requires SameOutside(m, n, lo, hi)
    requires HasHeader(m, a, h) && (a + HEADER <= lo || hi <= a)
    ensures HasHeader(n, a, h)
  {
  }

  /** A write to lo..hi, inside block k and clear of its payload if it is in use, leaves all
      other headers and all live payloads alone. */
  lemma BlockWrite(m: seq<Byte>, n: seq<Byte>, bs: seq<Block>, k: nat, lo: int, hi: int)
    requires Tiles(bs, HEAP_START, HEAP_END) && k < |bs| && |m| == ADDRESS_SPACE
    requires bs[k].addr <= lo <= hi <= (if bs[k].free then bs[k].End() else bs[k].Payload())
    requires SameOutside(m, n, lo, hi)
    ensures forall i, h | 0 <= i < |bs| && i != k && HasHeader(m, bs[i].addr, h) :: HasHeader(n, bs[i].addr, h)
    ensures PayloadsKept(m, n, Live(bs))
    ensures SameOutside(m, n, HEAP_START, HEAP_END)
  {
    TilesAll(bs, HEAP_START, HEAP_END);
    forall i, h | 0 <= i < |bs| && i != k && HasHeader(m, bs[i].addr, h)
      ensures HasHeader(n, bs[i].addr, h)
    {
      HeaderFrame(m, n, lo, hi, bs[i].addr, h);
    }
  }

  lemma InitialInMemory(m: seq<Byte>)
    requires HasHeader(m, HEAP_START, Header(HEAP_START + HEADER, HEAP_SIZE - HEADER, MEMORY_FREE, NULL, NULL))
    ensures HeapOk([INITIAL_BLOCK]) && InMemory(m, [INITIAL_BLOCK])
  {
    hide HasHeader;
    InitialHeapOk();
  }

  lemma PayloadsKeptTrans(m: seq<Byte>, n: seq<Byte>, o: seq<Byte>, live: set<Block>)
    requires |m| == |n| == |o| && PayloadsKept(m, n, live) && PayloadsKept(n, o, live)
    ensures PayloadsKept(m, o, live)
  {
  }

  lemma KindsKeptTrans(m: seq<Byte>, n: seq<Byte>, o: seq<Byte>, addrs: set<int>)
    requires |m| == |n| == |o| && KindsKept(m, n, addrs) && KindsKept(n, o, addrs)
    ensures KindsKept(m, o, addrs)
  {
  }

  // ---------------------------------------------------------------- list surgery

  function Split(bs: seq<Block>, k: nat, size: int): seq<Block>
    requires k < |bs|
  {
    bs[..k] + Carve(bs[k], size) + bs[k + 1..]
  }

  lemma SplitTiles(bs: seq<Block>, k: nat, size: int)
    requires Tiles(bs, HEAP_START, HEAP_END) && k < |bs| && bs[k].free
    requires 0 <= size && size % 4 == 0 && bs[k].size > size + HEADER
    ensures Tiles(Split(bs, k, size), HEAP_START, HEAP_END)
    ensures HEAP_START <= bs[k].addr && bs[k].End() <= HEAP_END
    ensures bs[k].End() == if k + 1 < |bs| then bs[k + 1].addr else HEAP_END
  {
    TilesAt(bs, HEAP_START, HEAP_END, k);
    CarveTiles(bs[k], size);
    TilesReplace(bs, HEAP_START, HEAP_END, k, Carve(bs[k], size));
  }

  /** Cutting block k in two changes two fields of its header and the link back to it, and
      adds one header. */
  lemma SplitInMemory(n: seq<Byte>, bs: seq<Block>, k: nat, size: int)
    requires k < |bs| && bs[k].free && bs[k].size > size + HEADER
    requires var new_ := bs[k].Payload() + size;
             && HasHeader(n, bs[k].addr, HeaderOf(bs, k).(size := size, next := new_))
             && HasHeader(n, new_, Header(new_ + HEADER, bs[k].size - size - HEADER, MEMORY_FREE,
                                          HeaderOf(bs, k).next, bs[k].addr))
             && (k + 1 < |bs| ==> HasHeader(n, bs[k + 1].addr, HeaderOf(bs, k + 1).(prev := new_)))
    requires forall i | 0 <= i < |bs| && i != k && i != k + 1 :: HasHeader(n, bs[i].addr, HeaderOf(bs, i))
    ensures InMemory(n, Split(bs, k, size))
  {
    hide HasHeader, HeaderOf;
    var cs := Split(bs, k, size);
    forall i | 0 <= i < |cs|
      ensures HasHeader(n, cs[i].addr, HeaderOf(cs, i))
    {
      SplitHeader(bs, k, size, i);
    }
  }

  /** The header of block i after cutting block k in two. */
  lemma SplitHeader(bs: seq<Block>, k: nat, size: int, i: nat)
    requires k < |bs| && bs[k].free && bs[k].size > size + HEADER && i < |bs| + 1
    ensures var cs := Split(bs, k, size); var new_ := bs[k].Payload() + size;
            && |cs| == |bs| + 1
            && cs[i].addr == (if i <= k then bs[i].addr else if i == k + 1 then new_ else bs[i - 1].addr)
            && HeaderOf(cs, i) ==
               if i < k then HeaderOf(bs, i)
               else if i == k then HeaderOf(bs, k).(size := size, next := new_)
               else if i == k + 1 then
                 Header(new_ + HEADER, bs[k].size - size - HEADER, MEMORY_FREE, HeaderOf(bs, k).next, bs[k].addr)
               else if i == k + 2 then HeaderOf(bs, k + 1).(prev := new_)
               else HeaderOf(bs, i - 1)
  {
  }

  lemma MergeInMemory(n: seq<Byte>, bs: seq<Block>, k: nat)
    requires k + 1 < |bs| && bs[k].free
    requires HasHeader(n, bs[k].addr, HeaderOf(bs, k).(size := bs[k].size + bs[k + 1].size + HEADER,
                                                       next := AddrAt(bs, k + 2)))
    requires k + 2 < |bs| ==> HasHeader(n, bs[k + 2].addr, HeaderOf(bs, k + 2).(prev := bs[k].addr))
    requires forall i | 0 <= i < |bs| && i != k && i != k + 1 && i != k + 2 :: HasHeader(n, bs[i].addr, HeaderOf(bs, i))
    ensures InMemory(n, MergeNext(bs, k))
  {
    hide HasHeader, HeaderOf;
    var cs := MergeNext(bs, k);
    forall i | 0 <= i < |cs|
      ensures HasHeader(n, cs[i].addr, HeaderOf(cs, i))
    {
      MergeHeader(bs, k, i);
    }
  }

  /** The header of block i after block k took in its successor. */
  lemma MergeHeader(bs: seq<Block>, k: nat, i: nat)
    requires k + 1 < |bs| && bs[k].free && i < |bs| - 1
    ensures var cs := MergeNext(bs, k);
            && |cs| == |bs| - 1
            && cs[i].addr == (if i <= k then bs[i].addr else bs[i + 1].addr)
            && HeaderOf(cs, i) ==
               if i < k then HeaderOf(bs, i)
               else if i == k
               then HeaderOf(bs, k).(size := bs[k].size + bs[k + 1].size + HEADER, next := AddrAt(bs, k + 2))
               else if i == k + 1 then HeaderOf(bs, k + 2).(prev := bs[k].addr)
               else HeaderOf(bs, i + 1)
  {
  }

  /** Block k with its type changed. */
  function Retype(bs: seq<Block>, k: nat, free: bool): seq<Block>
    requires k < |bs|
  {
    bs[k := bs[k].(free := free)]
  }

  lemma RetypeTiles(bs: seq<Block>, k: nat, free: bool)
    requires Tiles(bs, HEAP_START, HEAP_END) && k < |bs|
    ensures Tiles(Retype(bs, k, free), HEAP_START, HEAP_END)
  {
    var b := bs[k].(free := free);
    TilesAt(bs, HEAP_START, HEAP_END, k);
    assert Tiles([b][1..], b.End(), b.End());
    TilesReplace(bs, HEAP_START, HEAP_END, k, [b]);
    assert bs[k := b] == bs[..k] + [b] + bs[k + 1..];
  }

  lemma RetypeInMemory(n: seq<Byte>, bs: seq<Block>, k: nat, free: bool)
    requires k < |bs|
    requires HasHeader(n, bs[k].addr, HeaderOf(bs, k).(kind := if free then MEMORY_FREE else MEMORY_ALLOCATED))
    requires forall i | 0 <= i < |bs| && i != k :: HasHeader(n, bs[i].addr, HeaderOf(bs, i))
    ensures InMemory(n, Retype(bs, k, free))
  {
    hide HasHeader, HeaderOf;
    var cs := Retype(bs, k, free);
    forall i | 0 <= i < |cs|
      ensures HasHeader(n, cs[i].addr, HeaderOf(cs, i))
    {
      RetypeHeader(bs, k, free, i);
    }
  }

  lemma RetypeHeader(bs: seq<Block>, k: nat, free: bool, i: nat)
    requires k < |bs| && i < |bs|
    ensures Retype(bs, k, free)[i].addr == bs[i].addr
    ensures HeaderOf(Retype(bs, k, free), i) ==
            if i == k then HeaderOf(bs, k).(kind := if free then MEMORY_FREE else MEMORY_ALLOCATED) else HeaderOf(bs, i)
  {
  }

  /** The list still to be merged from block k on. */
  function CoalesceFrom(bs: seq<Block>, k: nat): seq<Block>
    requires k < |bs|
  {
    bs[..k] + Coalesce(bs[k..])
  }

  /** One iteration of the merge loop, seen from block k on. */
  lemma CoalesceStep(bs: seq<Block>, k: nat)
    requires k + 1 < |bs|
    ensures bs[k].free && bs[k + 1].free ==> CoalesceFrom(bs, k) == CoalesceFrom(MergeNext(bs, k), k)
    ensures !(bs[k].free && bs[k + 1].free) ==> CoalesceFrom(bs, k) == CoalesceFrom(bs, k + 1)
  {
    hide Coalesce;
    CoalesceHead(bs[k..]);
    if bs[k].free && bs[k + 1].free {
      var merged := Block(bs[k].addr, bs[k].size + bs[k + 1].size + HEADER, true);
      assert MergeNext(bs, k)[k..] == [merged] + bs[k + 2..] == [merged] + bs[k..][2..];
      assert MergeNext(bs, k)[..k] == bs[..k];
    } else {
      assert bs[k..][1..] == bs[k + 1..];
      assert bs[..k + 1] == bs[..k] + [bs[k]];
    }
  }

  lemma CoalesceHead(bs: seq<Block>)
    requires |bs| >= 2
    ensures Coalesce(bs) ==
            if bs[0].free && bs[1].free
            then Coalesce([Block(bs[0].addr, bs[0].size + bs[1].size + HEADER, true)] + bs[2..])
            else [bs[0]] + Coalesce(bs[1..])
  {
  }

  lemma CoalesceEnds(bs: seq<Block>)
    requires bs != []
    ensures CoalesceFrom(bs, 0) == Coalesce(bs)
    ensures CoalesceFrom(bs, |bs| - 1) == bs
  {
    assert bs[0..] == bs;
  }

  lemma KeptRefl(m: seq<Byte>, live: set<Block>, addrs: set<int>)
    ensures PayloadsKept(m, m, live) && KindsKept(m, m, addrs)
  {
  }

  lemma SplitIdle(bs: seq<Block>, k: nat, size: int)
    requires k < |bs| && bs[k].size <= size + HEADER
    ensures Split(bs, k, size) == bs
  {
  }

  /** Cutting a free block and marking the first part is what Malloc does. */
  lemma SplitAt(bs: seq<Block>, k: nat, size: int)
    requires k < |bs| && bs[k].free
    ensures k < |Split(bs, k, size)| && Split(bs, k, size)[k].addr == bs[k].addr
    ensures Live(Split(bs, k, size)) == Live(bs)
    ensures var parts := Carve(bs[k], size);
            Retype(Split(bs, k, size), k, false) == bs[..k] + parts[0 := parts[0].(free := false)] + bs[k + 1..]
  {
    LiveReplace(bs, k, Carve(bs[k], size));
  }

  ghost function Addrs(bs: seq<Block>): set<int>
  {
    set b | b in bs :: b.addr
  }

  ghost predicate Spaced(addrs: set<int>)
  {
    forall x, y | x in addrs && y in addrs && x != y :: x + HEADER <= y || y + HEADER <= x
  }

  lemma AddrsSpaced(bs: seq<Block>)
    requires Tiles(bs, HEAP_START, HEAP_END)
    ensures Spaced(Addrs(bs))
  {
    TilesAll(bs, HEAP_START, HEAP_END);
  }

  lemma MergeNextAddrs(bs: seq<Block>, k: nat)
    requires k + 1 < |bs|
    ensures Addrs(MergeNext(bs, k)) <= Addrs(bs)
  {
    assert forall b | b in MergeNext(bs, k) :: b in bs || b.addr == bs[k].addr;
    assert bs[k].addr in Addrs(bs);
  }

  /** The type fields at the given header addresses are the same. */
  ghost predicate KindsKept(m: seq<Byte>, n: seq<Byte>, addrs: set<int>)
    requires |m| == |n|
  {
    forall a | a in addrs :: SameOn(m, n, a + 8, a + 12)
  }

  lemma PayloadsKeptMore(m: seq<Byte>, n: seq<Byte>, live: set<Block>, fewer: set<Block>)
    requires |m| == |n| && PayloadsKept(m, n, live) && fewer <= live
    ensures PayloadsKept(m, n, fewer)
  {
  }

  lemma PayloadKeptOne(m: seq<Byte>, n: seq<Byte>, live: set<Block>, b: Block)
    requires |m| == |n| && PayloadsKept(m, n, live) && b in live
    ensures SameOn(m, n, b.Payload(), b.End())
  {
  }

  lemma RetypeLive(bs: seq<Block>, k: nat)
    requires k < |bs|
    ensures Live(Retype(bs, k, true)) <= Live(bs)
  {
    LiveReplace(bs, k, [bs[k].(free := true)]);
    assert Retype(bs, k, true) == bs[..k] + [bs[k].(free := true)] + bs[k + 1..];
  }

  /** The type field at a header address of the list says whether that block is free. */
  lemma KindAgrees(m: seq<Byte>, bs: seq<Block>, a: int)
    requires InMemory(m, bs) && 0 <= a && a + HEADER <= |m|
    requires LoadWord(m, a + 8) == MEMORY_ALLOCATED ==> a in Addrs(bs)
    ensures var k := IndexOf(bs, a);
            LoadWord(m, a + 8) == MEMORY_ALLOCATED <==> k < |bs| && !bs[k].free
  {
    hide HasHeader, LoadWord;
    var k := IndexOf(bs, a);
    if k < |bs| {
      HeaderKind(m, a, HeaderOf(bs, k));
    }
  }

  lemma HeaderKind(m: seq<Byte>, a: int, h: Header)
    requires HasHeader(m, a, h)
    ensures 0 <= a && a + HEADER <= |m| && LoadWord(m, a + 8) == h.kind
  {
  }

  lemma KindAfter(m: seq<Byte>, n: seq<Byte>, bs: seq<Block>, k: nat)
    requires |m| == |n| && KindsKept(m, n, Addrs(bs)) && k < |bs| && 0 <= bs[k].addr && bs[k].Payload() <= |m|
    ensures LoadWord(m, bs[k].addr + 8) == LoadWord(n, bs[k].addr + 8)
  {
    assert bs[k].addr in Addrs(bs);
  }

  lemma LiveInList(bs: seq<Block>, b: Block)
    requires Tiles(bs, HEAP_START, HEAP_END) && b in Live(bs)
    ensures HEAP_START <= b.addr && 0 <= b.size && b.End() <= HEAP_END && b.addr in Addrs(bs)
  {
    TilesAll(bs, HEAP_START, HEAP_END);
  }

  lemma LiveDisjoint(bs: seq<Block>, b: Block, c: Block)
    requires Tiles(bs, HEAP_START, HEAP_END) && b in Live(bs) && c in Live(bs) && b != c
    ensures b.End() <= c.addr || c.End() <= b.addr
  {
    TilesAll(bs, HEAP_START, HEAP_END);
    var i :| 0 <= i < |bs| && bs[i] == b;
    var j :| 0 <= j < |bs| && bs[j] == c;
  }

  /** The owner of a block may write its payload: no header and no other payload changes. */
  lemma PayloadWrite(m: seq<Byte>, n: seq<Byte>, bs: seq<Block>, b: Block)
    requires Tiles(bs, HEAP_START, HEAP_END) && InMemory(m, bs) && b in Live(bs) && |m| == ADDRESS_SPACE
    requires SameOutside(m, n, b.Payload(), b.End())
    ensures InMemory(n, bs)
    ensures PayloadsKept(m, n, Live(bs) - {b})
    ensures SameOutside(m, n, HEAP_START, HEAP_END)
  {
    hide HasHeader, HeaderOf;
    TilesAll(bs, HEAP_START, HEAP_END);
    var k :| 0 <= k < |bs| && bs[k] == b;
    forall i | 0 <= i < |bs|
      ensures HasHeader(n, bs[i].addr, HeaderOf(bs, i))
    {
      HeaderFrame(m, n, b.Payload(), b.End(), bs[i].addr, HeaderOf(bs, i));
    }
  }

  /** The len bytes at dest in n are those at src in m. */
  ghost predicate Copied(m: seq<Byte>, n: seq<Byte>, src: int, dest: int, len: int)
  {
    && 0 <= len && 0 <= src && src + len <= |m| && 0 <= dest && dest + len <= |n|
    && n[dest..dest + len] == m[src..src + len]
  }

  /** Between areas that do not overlap, what is at the source arrives. */
  lemma CopyArrives(m: seq<Byte>, n: seq<Byte>, dest: int, src: int, num: int, len: int)
    requires CopiedForward(m, n, dest, src, num) && 0 <= len <= num && (src + len <= dest || dest + num <= src)
    ensures Copied(m, n, src, dest, len)
  {
    assert forall a | dest <= a < dest + len :: n[a] == m[a - dest + src];
  }

  /** The copy is still there if its destination is unchanged. */
  lemma CopyStays(m: seq<Byte>, n: seq<Byte>, r: seq<Byte>, dest: int, src: int, len: int)
    requires Copied(m, n, src, dest, len) && |n| == |r| && SameOn(n, r, dest, dest + len)
    ensures Copied(m, r, src, dest, len)
  {
    assert n[dest..dest + len] == r[dest..dest + len];
  }

  ghost function Min(x: int, y: int): int
  {
    if x < y then x else y
  }

  // ---------------------------------------------------------------- header fields

  method GetHeader(mem: array<Byte>, a: Word, ghost h: Header) returns (r: Header)
    requires HasHeader(mem[..], a, h)
    ensures r == h && 0 <= r.start < ADDRESS_SPACE && 0 <= r.size < ADDRESS_SPACE && 0 <= r.next < ADDRESS_SPACE
  {
    var start := ReadWord(mem, a);
    var size := ReadWord(mem, a + 4);
    var kind := ReadWord(mem, a + 8);
    var next := ReadWord(mem, a + 12);
    var prev := ReadWord(mem, a + 16);
    r := Header(start, size, kind, next, prev);
  }

  method SetSize(mem: array<Byte>, a: int, v: Word, ghost h: Header)
    requires HasHeader(mem[..], a, h)
    modifies mem
    ensures HasHeader(mem[..], a, h.(size := v))
    ensures SameOn(old(mem[..]), mem[..], a + 8, a + 12)
    ensures SameOutside(old(mem[..]), mem[..], a, a + HEADER)
  {
    WriteWord(mem, a + 4, v);
  }

  method SetKind(mem: array<Byte>, a: int, v: Word, ghost h: Header)
    requires HasHeader(mem[..], a, h)
    modifies mem
    ensures HasHeader(mem[..], a, h.(kind := v))
    ensures LoadWord(mem[..], a + 8) == v
    ensures SameOutside(old(mem[..]), mem[..], a, a + HEADER)
  {
    WriteWord(mem, a + 8, v);
  }

  method SetNext(mem: array<Byte>, a: int, v: Word, ghost h: Header)
    requires HasHeader(mem[..], a, h)
    modifies mem
    ensures HasHeader(mem[..], a, h.(next := v))
    ensures SameOn(old(mem[..]), mem[..], a + 8, a + 12)
    ensures SameOutside(old(mem[..]), mem[..], a, a + HEADER)
  {
    WriteWord(mem, a + 12, v);
  }

  method SetPrev(mem: array<Byte>, a: int, v: Word, ghost h: Header)
    requires HasHeader(mem[..], a, h)
    modifies mem
    ensures HasHeader(mem[..], a, h.(prev := v))
    ensures SameOn(old(mem[..]), mem[..], a + 8, a + 12)
    ensures SameOutside(old(mem[..]), mem[..], a, a + HEADER)
  {
    WriteWord(mem, a + 16, v);
  }

  method WriteHeader(mem: array<Byte>, a: int, h: Header)
    requires 0 <= a && a + HEADER <= mem.Length
    requires 0 <= h.start < ADDRESS_SPACE && 0 <= h.size < ADDRESS_SPACE && 0 <= h.kind < ADDRESS_SPACE
    requires 0 <= h.next < ADDRESS_SPACE && 0 <= h.prev < ADDRESS_SPACE
    modifies mem
    ensures HasHeader(mem[..], a, h)
    ensures SameOutside(old(mem[..]), mem[..], a, a + HEADER)
  {
    WriteWord(mem, a, h.start);
    ghost var h1 := HeaderAt(mem[..], a);
    SetSize(mem, a, h.size, h1);
    SetKind(mem, a, h.kind, h1.(size := h.size));
    SetNext(mem, a, h.next, h1.(size := h.size, kind := h.kind));
    SetPrev(mem, a, h.prev, h1.(size := h.size, kind := h.kind, next := h.next));
  }

  // ---------------------------------------------------------------- the allocator

  class Heap {
    const mem: array<Byte>
    /** memory_map: the address of the first header. */
    var memoryMap: Word
    var usedMemory: int
    var freeMemory: int
    ghost var blocks: seq<Block>

    /** The list in memory is the block list, and the block list tiles the heap range. */
    ghost predicate Linked()
      reads this, mem
    {
      && mem.Length == ADDRESS_SPACE
      && memoryMap == HEAP_START
      && Tiles(blocks, HEAP_START, HEAP_END)
      && InMemory(mem[..], blocks)
    }

    ghost predicate Valid()
      reads this, mem
    {
      Linked() && NoAdjacentFree(blocks)
    }

    /** heap_init */
    constructor (memory: array<Byte>)
      requires memory.Length == ADDRESS_SPACE
      modifies memory
      ensures Valid() && mem == memory
      ensures blocks == [INITIAL_BLOCK]
      ensures SameOutside(old(memory[..]), memory[..], HEAP_START, HEAP_END)
    {
      mem := memory;
      memoryMap := HEAP_START;
      usedMemory, freeMemory := 0, 0;
      blocks := [INITIAL_BLOCK];
      new;
      WriteHeader(mem, HEAP_START, Header(HEAP_START + HEADER, HEAP_SIZE - HEADER, MEMORY_FREE, NULL, NULL));
      InitialInMemory(mem[..]);
    }

    method FindFreeBlock(size: Word) returns (current: Word)
      requires Linked()
      ensures current == AddrAt(blocks, FirstFit(blocks, size))
    {
      hide HasHeader;
      current := memoryMap;
      ghost var k := 0;
      TilesAll(blocks, HEAP_START, HEAP_END);
      while current != NULL
        invariant 0 <= k <= |blocks| && current == AddrAt(blocks, k)
        invariant forall j | 0 <= j < k :: !Fits(blocks[j], size)
        decreases |blocks| - k
      {
        var h := GetHeader(mem, current, HeaderOf(blocks, k));
        if h.kind == MEMORY_FREE && h.size >= size {
          return;
        }
        current := h.next;
        k := k + 1;
      }
    }

    method SplitBlock(block: Word, size: Word, ghost k: nat) returns (r: Word)
      requires Linked()
      requires k < |blocks| && blocks[k].addr == block && Fits(blocks[k], size) && size % 4 == 0
      modifies this`blocks, mem
      ensures Linked() && r == block
      ensures blocks == Split(old(blocks), k, size)
      ensures PayloadsKept(old(mem[..]), mem[..], Live(old(blocks)))
      ensures SameOutside(old(mem[..]), mem[..], HEAP_START, HEAP_END)
    {
      hide HasHeader, HeaderOf, PayloadsKept, Tiles;
      r := block;
      ghost var bs, m0 := blocks, mem[..];
      ghost var hk := HeaderOf(bs, k);
      TilesAt(bs, HEAP_START, HEAP_END, k);
      var h := GetHeader(mem, block, hk);
      HeaderFields(bs, k);
      if h.size <= (size + HEADER) % ADDRESS_SPACE {
        assert bs == bs[..k] + [bs[k]] + bs[k + 1..];
        KeptRefl(m0, Live(bs), {});
        return;
      }
      SplitTiles(bs, k, size);
      var newBlock: Word := h.start + size;
      var hn := Header(newBlock + HEADER, h.size - size - HEADER, MEMORY_FREE, h.next, block);
      WriteHeader(mem, newBlock, hn);
      ghost var m1 := mem[..];
      BlockWrite(m0, m1, bs, k, newBlock, newBlock + HEADER);
      HeaderFrame(m0, m1, newBlock, newBlock + HEADER, block, hk);
      SetSize(mem, block, size, hk);
      SetNext(mem, block, newBlock, hk.(size := size));
      ghost var m2 := mem[..];
      BlockWrite(m1, m2, bs, k, block, block + HEADER);
      PayloadsKeptTrans(m0, m1, m2, Live(bs));
      HeaderFrame(m1, m2, block, block + HEADER, newBlock, hn);
      if h.next != NULL {
        TilesAt(bs, HEAP_START, HEAP_END, k + 1);
        SetPrev(mem, h.next, newBlock, HeaderOf(bs, k + 1));
        BlockWrite(m2, mem[..], bs, k + 1, h.next, h.next + HEADER);
        PayloadsKeptTrans(m0, m2, mem[..], Live(bs));
        HeaderFrame(m2, mem[..], h.next, h.next + HEADER, newBlock, hn);
        HeaderFrame(m2, mem[..], h.next, h.next + HEADER, block, hk.(size := size, next := newBlock));
      }
      SplitInMemory(mem[..], bs, k, size);
      blocks := Split(bs, k, size);
    }

    /** The loop body of merge_adjacent_blocks when both blocks are free. */
    method AbsorbNext(current: Word, ghost k: nat, ghost addrs: set<int>)
      requires Linked()
      requires k + 1 < |blocks| && blocks[k].addr == current && blocks[k].free && blocks[k + 1].free
      requires Addrs(blocks) <= addrs && Spaced(addrs)
      modifies this`blocks, mem
      ensures Linked() && blocks == MergeNext(old(blocks), k)
      ensures PayloadsKept(old(mem[..]), mem[..], Live(old(blocks)))
      ensures SameOutside(old(mem[..]), mem[..], HEAP_START, HEAP_END)
      ensures KindsKept(old(mem[..]), mem[..], addrs)
    {
      hide HasHeader, HeaderOf, PayloadsKept, Tiles;
      ghost var bs, m0 := blocks, mem[..];
      ghost var hk := HeaderOf(bs, k);
      TilesAt(bs, HEAP_START, HEAP_END, k);
      TilesAt(bs, HEAP_START, HEAP_END, k + 1);
      HeaderFields(bs, k);
      HeaderFields(bs, k + 1);
      assert bs[k].addr in Addrs(bs);
      var h := GetHeader(mem, current, hk);
      var hn := GetHeader(mem, h.next, HeaderOf(bs, k + 1));
      var size: Word := h.size + hn.size + HEADER;
      SetSize(mem, current, size, hk);
      SetNext(mem, current, hn.next, hk.(size := size));
      ghost var m1 := mem[..];
      BlockWrite(m0, m1, bs, k, current, current + HEADER);
      if hn.next != NULL {
        TilesAt(bs, HEAP_START, HEAP_END, k + 2);
        assert bs[k + 2].addr in Addrs(bs);
        SetPrev(mem, hn.next, current, HeaderOf(bs, k + 2));
        BlockWrite(m1, mem[..], bs, k + 2, hn.next, hn.next + HEADER);
        PayloadsKeptTrans(m0, m1, mem[..], Live(bs));
        HeaderFrame(m1, mem[..], hn.next, hn.next + HEADER, current, hk.(size := size, next := hn.next));
      }
      MergeInMemory(mem[..], bs, k);
      MergeNextTiles(bs, HEAP_START, HEAP_END, k);
      blocks := MergeNext(bs, k);
    }

    method MergeAdjacentBlocks()
      requires Linked()
      modifies this`blocks, mem
      ensures Linked() && blocks == Coalesce(old(blocks))
      ensures PayloadsKept(old(mem[..]), mem[..], Live(old(blocks)))
      ensures SameOutside(old(mem[..]), mem[..], HEAP_START, HEAP_END)
      ensures KindsKept(old(mem[..]), mem[..], Addrs(old(blocks)))
    {
      hide HasHeader, HeaderOf, PayloadsKept, KindsKept, CoalesceFrom, Addrs, Spaced;
      ghost var bs, m, addrs := blocks, mem[..], Addrs(blocks);
      AddrsSpaced(bs);
      var current := memoryMap;
      ghost var k := 0;
      var h := GetHeader(mem, current, HeaderOf(blocks, k));
      HeaderFields(blocks, k);
      CoalesceEnds(blocks);
      KeptRefl(m, Live(bs), addrs);
      while h.next != NULL
        invariant Linked() && 0 <= k < |blocks| && current == blocks[k].addr
        invariant h == HeaderOf(blocks, k) && 0 <= h.next < ADDRESS_SPACE
        invariant h.next == NULL <==> k + 1 == |blocks|
        invariant Coalesce(bs) == CoalesceFrom(blocks, k)
        invariant Live(blocks) == Live(bs) && Addrs(blocks) <= addrs
        invariant PayloadsKept(m, mem[..], Live(bs))
        invariant SameOutside(m, mem[..], HEAP_START, HEAP_END)
        invariant KindsKept(m, mem[..], addrs)
        decreases |blocks| - k
      {
        HeaderFields(blocks, k);
        HeaderFields(blocks, k + 1);
        TilesAt(blocks, HEAP_START, HEAP_END, k);
        TilesAt(blocks, HEAP_START, HEAP_END, k + 1);
        CoalesceStep(blocks, k);
        var n := GetHeader(mem, h.next, HeaderOf(blocks, k + 1));
        if h.kind == MEMORY_FREE && n.kind == MEMORY_FREE && (h.start + h.size + HEADER) % ADDRESS_SPACE == n.start {
          MergeNextKeepsLive(blocks, k);
          MergeNextAddrs(blocks, k);
          ghost var before := mem[..];
          AbsorbNext(current, k, addrs);
          PayloadsKeptTrans(m, before, mem[..], Live(bs));
          KindsKeptTrans(m, before, mem[..], addrs);
        } else {
          current := h.next;
          k := k + 1;
        }
        h := GetHeader(mem, current, HeaderOf(blocks, k));
        HeaderFields(blocks, k);
      }
      CoalesceEnds(blocks);
    }

    method UpdateMemoryStats()
      requires Linked()
      modifies this`usedMemory, this`freeMemory
      ensures usedMemory == UsedBytes(blocks) && freeMemory == FreeBytes(blocks)
      ensures usedMemory + freeMemory + HEADER * |blocks| == HEAP_SIZE
    {
      hide HasHeader, HeaderOf;
      usedMemory, freeMemory := 0, 0;
      var current := memoryMap;
      ghost var k := 0;
      TilesAt(blocks, HEAP_START, HEAP_END, 0);
      assert blocks[0..] == blocks;
      while current != NULL
        invariant 0 <= k <= |blocks| && 0 <= current < ADDRESS_SPACE && current == AddrAt(blocks, k)
        invariant usedMemory + UsedBytes(blocks[k..]) == UsedBytes(blocks)
        invariant freeMemory + FreeBytes(blocks[k..]) == FreeBytes(blocks)
        decreases |blocks| - k
      {
        HeaderFields(blocks, k);
        var h := GetHeader(mem, current, HeaderOf(blocks, k));
        if h.kind == MEMORY_ALLOCATED {
          usedMemory := usedMemory + h.size;
        } else if h.kind == MEMORY_FREE {
          freeMemory := freeMemory + h.size;
        }
        assert blocks[k..][1..] == blocks[k + 1..];
        current := h.next;
        k := k + 1;
      }
      AddrNonNull(blocks, k);
      BytesAddUp(blocks, HEAP_START, HEAP_END);
    }

    /** block->type = ... */
    method SetType(block: Word, ghost k: nat, free: bool)
      requires Linked() && k < |blocks| && blocks[k].addr == block
      modifies this`blocks, mem
      ensures Linked() && blocks == Retype(old(blocks), k, free)
      ensures PayloadsKept(old(mem[..]), mem[..], Live(old(blocks)))
      ensures SameOutside(old(mem[..]), mem[..], HEAP_START, HEAP_END)
      ensures LoadWord(mem[..], block + 8) == if free then MEMORY_FREE else MEMORY_ALLOCATED
    {
      hide HasHeader, HeaderOf, PayloadsKept, LoadWord;
      ghost var bs, m := blocks, mem[..];
      TilesAt(bs, HEAP_START, HEAP_END, k);
      SetKind(mem, block, if free then MEMORY_FREE else MEMORY_ALLOCATED, HeaderOf(bs, k));
      BlockWrite(m, mem[..], bs, k, block, block + HEADER);
      RetypeInMemory(mem[..], bs, k, free);
      RetypeTiles(bs, k, free);
      blocks := Retype(bs, k, free);
    }

    /** The part of kmalloc after a block has been found. */
    method TakeBlock(found: Word, size: Word, ghost k: nat) returns (ptr: Word)
      requires Linked()
      requires k < |blocks| && blocks[k].addr == found && Fits(blocks[k], size) && size % 4 == 0
      modifies this`blocks, this`usedMemory, this`freeMemory, mem
      ensures Linked() && blocks == Retype(Split(old(blocks), k, size), k, false)
      ensures ptr == old(blocks)[k].Payload()
      ensures PayloadsKept(old(mem[..]), mem[..], Live(old(blocks)))
      ensures SameOutside(old(mem[..]), mem[..], HEAP_START, HEAP_END)
      ensures usedMemory + freeMemory + HEADER * |blocks| == HEAP_SIZE
    {
      hide HasHeader, HeaderOf, PayloadsKept, Carve, UsedBytes, FreeBytes;
      ghost var bs, m := blocks, mem[..];
      KeptRefl(m, Live(bs), {});
      TilesAt(bs, HEAP_START, HEAP_END, k);
      var h := GetHeader(mem, found, HeaderOf(bs, k));
      HeaderFields(bs, k);
      var block := found;
      if h.size > (size + HEADER) % ADDRESS_SPACE {
        block := SplitBlock(block, size, k);
      } else {
        SplitIdle(bs, k, size);
      }
      SplitAt(bs, k, size);
      ghost var m' := mem[..];
      SetType(block, k, false);
      PayloadsKeptTrans(m, m', mem[..], Live(bs));
      UpdateMemoryStats();
      TilesAt(blocks, HEAP_START, HEAP_END, k);
      HeaderFields(blocks, k);
      var h' := GetHeader(mem, block, HeaderOf(blocks, k));
      ptr := h'.start;
    }

    method Kmalloc(n: Word) returns (ptr: Word)
      requires Valid()
      modifies this`blocks, this`usedMemory, this`freeMemory, mem
      ensures Valid()
      ensures Malloc(old(blocks), n) == MallocResult(blocks, ptr)
      ensures PayloadsKept(old(mem[..]), mem[..], Live(old(blocks)))
      ensures SameOutside(old(mem[..]), mem[..], HEAP_START, HEAP_END)
      ensures ptr != NULL ==> usedMemory + freeMemory + HEADER * |blocks| == HEAP_SIZE
    {
      hide HasHeader, HeaderOf, PayloadsKept;
      ghost var bs := blocks;
      KeptRefl(mem[..], Live(bs), {});
      if n == 0 {
        return NULL;
      }
      var size: Word := RoundUp4(n);
      var block := FindFreeBlock(size);
      ghost var k := FirstFit(bs, size);
      AddrNonNull(bs, k);
      if block == NULL {
        return NULL;
      }
      TilesAt(bs, HEAP_START, HEAP_END, k);
      ptr := TakeBlock(block, size, k);
      SplitAt(bs, k, size);
      MallocKeeps(bs, n);
    }

    /** kfree trusts its argument: what it takes for a header must be one of the list's, unless
        its type field does not say allocated. */
    ghost predicate Freeable(ptr: Word)
      requires mem.Length == ADDRESS_SPACE
      reads this, mem
    {
      ptr == NULL ||
      (HEADER <= ptr && (LoadWord(mem[..], ptr - HEADER + 8) == MEMORY_ALLOCATED ==> ptr - HEADER in Addrs(blocks)))
    }

    method Kfree(ptr: Word)
      requires Valid() && Freeable(ptr)
      modifies this`blocks, this`usedMemory, this`freeMemory, mem
      ensures Valid() && blocks == Free(old(blocks), ptr)
      ensures PayloadsKept(old(mem[..]), mem[..], Live(blocks))
      ensures SameOutside(old(mem[..]), mem[..], HEAP_START, HEAP_END)
      ensures blocks != old(blocks) ==> usedMemory + freeMemory + HEADER * |blocks| == HEAP_SIZE
      ensures ptr != NULL ==> LoadWord(mem[..], ptr - HEADER + 8) != MEMORY_ALLOCATED
    {
      hide HasHeader, HeaderOf, PayloadsKept, KindsKept, UsedBytes, FreeBytes;
      ghost var bs, m := blocks, mem[..];
      KeptRefl(m, Live(bs), {});
      if ptr == NULL {
        return;
      }
      var block: Word := ptr - HEADER;
      ghost var k := IndexOf(bs, block);
      var kind := ReadWord(mem, block + 8);
      KindAgrees(m, bs, block);
      if kind == MEMORY_ALLOCATED {
        SetType(block, k, true);
        ghost var m' := mem[..];
        RetypeLive(bs, k);
        MergeAdjacentBlocks();
        KindAfter(m', mem[..], Retype(bs, k, true), k);
        PayloadsKeptMore(m, m', Live(bs), Live(Retype(bs, k, true)));
        PayloadsKeptTrans(m, m', mem[..], Live(Retype(bs, k, true)));
        FreeKeeps(bs, ptr);
        RetypeTiles(bs, k, true);
        CoalesceKeeps(Retype(bs, k, true), HEAP_START, HEAP_END);
        UpdateMemoryStats();
      }
    }

    /** The part of krealloc after the allocation: copy size bytes, then free the old block. */
    method CopyAndFree(ptr: Word, size: Word, newPtr: Word, ghost from: Block, ghost to: Block)
      requires Valid() && from in Live(blocks) && to in Live(blocks) && from != to
      requires ptr == from.Payload() && newPtr == to.Payload() && size <= to.size
      modifies this`blocks, this`usedMemory, this`freeMemory, mem
      ensures Valid() && blocks == Free(old(blocks), ptr)
      ensures Copied(old(mem[..]), mem[..], ptr, newPtr, Min(from.size, size))
      ensures PayloadsKept(old(mem[..]), mem[..], Live(old(blocks)) - {from, to})
      ensures SameOutside(old(mem[..]), mem[..], HEAP_START, HEAP_END)
    {
      hide HasHeader, HeaderOf, PayloadsKept, Tiles, NoAdjacentFree, InMemory, Free, Copied, CopiedForward;
      ghost var bs, m, len := blocks, mem[..], Min(from.size, size);
      LiveInList(bs, from);
      LiveInList(bs, to);
      LiveDisjoint(bs, from, to);
      Memcpy(mem, newPtr, ptr, size);
      ghost var m1 := mem[..];
      CopyArrives(m, m1, newPtr, ptr, size, len);
      PayloadWrite(m, m1, bs, to);
      Kfree(ptr);
      FreeRemoves(bs, from);
      PayloadKeptOne(m1, mem[..], Live(blocks), to);
      CopyStays(m, m1, mem[..], newPtr, ptr, len);
      PayloadsKeptMore(m, m1, Live(bs) - {to}, Live(bs) - {from, to});
      PayloadsKeptMore(m1, mem[..], Live(blocks), Live(bs) - {from, to});
      PayloadsKeptTrans(m, m1, mem[..], Live(bs) - {from, to});
    }

    /** krealloc: allocate, copy, free.  The copy may read past the old block, but what the old
        block held arrives, and no other block in use is disturbed. */
    method Krealloc(ptr: Word, size: Word, ghost from: Block) returns (newPtr: Word)
      requires Valid() && size <= 0xFFFF_FFFC
      requires ptr != NULL ==> from in Live(blocks) && from.Payload() == ptr
      modifies this`blocks, this`usedMemory, this`freeMemory, mem
      ensures Valid()
      ensures ptr == NULL ==> Malloc(old(blocks), size) == MallocResult(blocks, newPtr)
      ensures ptr != NULL && size == 0 ==> newPtr == NULL && blocks == Free(old(blocks), ptr)
      ensures ptr != NULL && size != 0 ==>
                && newPtr == Malloc(old(blocks), size).ptr
                && blocks == if newPtr == NULL then old(blocks) else Free(Malloc(old(blocks), size).blocks, ptr)
      ensures ptr != NULL && newPtr != NULL ==> Copied(old(mem[..]), mem[..], ptr, newPtr, Min(from.size, size))
      ensures PayloadsKept(old(mem[..]), mem[..], Live(old(blocks)) - {from})
      ensures ptr == NULL || (newPtr == NULL && size != 0) ==> PayloadsKept(old(mem[..]), mem[..], Live(old(blocks)))
      ensures SameOutside(old(mem[..]), mem[..], HEAP_START, HEAP_END)
    {
      hide HasHeader, HeaderOf, PayloadsKept, Tiles, NoAdjacentFree, InMemory, Free, Malloc, Granted, FirstFit;
      ghost var bs, m := blocks, mem[..];
      if ptr == NULL {
        newPtr := Kmalloc(size);
        PayloadsKeptMore(m, mem[..], Live(bs), Live(bs) - {from});
        return;
      }
      LiveInList(bs, from);
      if size == 0 {
        Kfree(ptr);
        FreeRemoves(bs, from);
        return NULL;
      }
      newPtr := Kmalloc(size);
      ghost var m1, cs := mem[..], blocks;
      MallocContract(bs, size);
      MallocKeeps(bs, size);
      PayloadsKeptMore(m, m1, Live(bs), Live(bs) - {from});
      if newPtr != NULL {
        ghost var to := Granted(bs, size);
        GrantHoldsRequestIff(bs, size);
        CopyAndFree(ptr, size, newPtr, from, to);
        PayloadKeptOne(m, m1, Live(bs), from);
        PayloadsKeptMore(m1, mem[..], Live(cs) - {from, to}, Live(bs) - {from});
        PayloadsKeptTrans(m, m1, mem[..], Live(bs) - {from});
      }
    }
  }
}
