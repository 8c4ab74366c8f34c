/** What every run of kmalloc and kfree keeps, proved on the block list. */
module HeapTheorems {
  import opened BlockList

  // ---------------------------------------------------------------- coalescing

  /** Merging keeps the covered range and the blocks in use, and leaves no two free neighbours. */
  lemma {:induction false} CoalesceKeeps(bs: seq<Block>, lo: int, hi: int)
    requires Tiles(bs, lo, hi)
    ensures Tiles(Coalesce(bs), lo, hi)
    ensures NoAdjacentFree(Coalesce(bs))
    ensures Live(Coalesce(bs)) == Live(bs)
    ensures bs != [] && !bs[0].free ==> Coalesce(bs) != [] && Coalesce(bs)[0] == bs[0]
    decreases |bs|
  {
    if |bs| < 2 {
    } else if bs[0].free && bs[1].free {
      MergeNextTiles(bs, lo, hi, 0);
      MergeNextKeepsLive(bs, 0);
      var merged := MergeNext(bs, 0);
      assert merged == [Block(bs[0].addr, bs[0].size + bs[1].size + HEADER, true)] + bs[2..];
      CoalesceKeeps(merged, lo, hi);
    } else {
      CoalesceKeeps(bs[1..], bs[0].End(), hi);
      var r := [bs[0]] + Coalesce(bs[1..]);
      assert r[1..] == Coalesce(bs[1..]);
      LiveHead(bs);
      LiveHead(r);
    }
  }

  lemma LiveHead(bs: seq<Block>)
    requires bs != []
    ensures Live(bs) == (if bs[0].free then {} else {bs[0]}) + Live(bs[1..])
  {
    assert bs == [bs[0]] + bs[1..];
  }

  lemma MergeNextKeepsLive(bs: seq<Block>, k: nat)
    requires k + 1 < |bs| && bs[k].free && bs[k + 1].free
    ensures Live(MergeNext(bs, k)) == Live(bs)
  {
    assert bs == bs[..k] + [bs[k], bs[k + 1]] + bs[k + 2..];
  }

  /** A list without two free neighbours is left alone. */
  lemma {:induction false} CoalesceIdle(bs: seq<Block>)
    requires NoAdjacentFree(bs)
    ensures Coalesce(bs) == bs
  {
    if |bs| >= 2 {
      CoalesceIdle(bs[1..]);
    }
  }

  // ---------------------------------------------------------------- canonical form

  /** The central fact: a tiling without two free neighbours is determined by its blocks in
      use.  The free blocks are exactly the maximal gaps between them. */
  lemma {:induction false} DeterminedByLive(a: seq<Block>, b: seq<Block>, lo: int, hi: int)
    requires Tiles(a, lo, hi) && NoAdjacentFree(a)
    requires Tiles(b, lo, hi) && NoAdjacentFree(b)
    requires Live(a) == Live(b)
    ensures a == b
    decreases |a|
  {
    TilesAll(a, lo, hi);
    TilesAll(b, lo, hi);
    if a != [] && b != [] {
      FirstBlockDetermined(a, b, lo, hi);
      LiveHead(a);
      LiveHead(b);
      assert a[0] !in a[1..] && b[0] !in b[1..];
      DeterminedByLive(a[1..], b[1..], a[0].End(), hi);
    }
  }

  lemma FirstBlockDetermined(a: seq<Block>, b: seq<Block>, lo: int, hi: int)
    requires Tiles(a, lo, hi) && NoAdjacentFree(a)
    requires Tiles(b, lo, hi) && NoAdjacentFree(b)
    requires Live(a) == Live(b)
    requires a != [] && b != []
    ensures a[0] == b[0]
  {
    TilesAll(a, lo, hi);
    TilesAll(b, lo, hi);
    if !a[0].free {
      assert a[0] in Live(b);
    } else if !b[0].free {
      assert b[0] in Live(a);
    } else {
      FreeHeadEnd(a, b, lo, hi);
      FreeHeadEnd(b, a, lo, hi);
    }
  }

  /** A free first block reaches at least as far as that of any list with the same live blocks. */
  lemma FreeHeadEnd(a: seq<Block>, b: seq<Block>, lo: int, hi: int)
    requires Tiles(a, lo, hi) && Tiles(b, lo, hi) && NoAdjacentFree(a)
    requires Live(a) == Live(b)
    requires a != [] && b != [] && a[0].free && b[0].free
    ensures b[0].End() <= a[0].End()
  {
    TilesAt(a, lo, hi, 0);
    TilesAll(b, lo, hi);
    if |a| > 1 {
      assert a[1] in Live(a) && a[1] in Live(b);
      var j :| 0 <= j < |b| && b[j] == a[1];
      assert b[0].End() <= b[j].addr;
    }
  }

  // ---------------------------------------------------------------- kmalloc

  /** kmalloc succeeds exactly when some free block holds the rounded size.  It takes the
      lowest such block; the address is 4-aligned; at most a header's worth is wasted. */
  lemma MallocContract(bs: seq<Block>, n: int)
    requires HeapOk(bs) && 0 <= n < 0x1_0000_0000
    ensures var r := Malloc(bs, n); var size := RoundUp4(n);
            && (r.ptr == 0 <==> n == 0 || forall b | b in bs :: !Fits(b, size))
            && (r.ptr == 0 ==> r.blocks == bs)
            && (r.ptr != 0 ==>
                  && r.ptr % 4 == 0
                  && r.ptr == Granted(bs, n).Payload()
                  && size <= Granted(bs, n).size <= size + HEADER
                  && (exists b :: b in bs && Fits(b, size) && b.addr == Granted(bs, n).addr)
                  && (forall b | b in bs && Fits(b, size) :: Granted(bs, n).addr <= b.addr))
  {
    var size := RoundUp4(n);
    var k := FirstFit(bs, size);
    TilesAll(bs, HEAP_START, HEAP_END);
    if k < |bs| {
      TilesAt(bs, HEAP_START, HEAP_END, k);
      assert bs[k] in bs;
    }
  }

  /** kmalloc keeps the invariant and adds exactly one block in use, cut out of free space. */
  lemma MallocKeeps(bs: seq<Block>, n: int)
    requires HeapOk(bs) && 0 <= n < 0x1_0000_0000
    ensures HeapOk(Malloc(bs, n).blocks)
    ensures var r := Malloc(bs, n);
            Live(r.blocks) == if r.ptr == 0 then Live(bs) else Live(bs) + {Granted(bs, n)}
    ensures Malloc(bs, n).ptr != 0 ==> forall b | b in Live(bs) :: b.Payload() != Malloc(bs, n).ptr
  {
    hide Tiles, NoAdjacentFree;
    var size := RoundUp4(n);
    var k := FirstFit(bs, size);
    if n != 0 && k < |bs| {
      TilesAt(bs, HEAP_START, HEAP_END, k);
      var parts := Carve(bs[k], size);
      var mid := parts[0 := parts[0].(free := false)];
      CarveTiles(bs[k], size);
      TilesSameHead(parts, mid, bs[k].addr, bs[k].End());
      TilesReplace(bs, HEAP_START, HEAP_END, k, mid);
      MallocNoAdjacent(bs, k, mid);
      LiveReplace(bs, k, mid);
      LiveElsewhere(bs, HEAP_START, HEAP_END, k);
      assert Live(mid) == {mid[0]} && Live([bs[k]]) == {};
    }
  }

  lemma TilesSameHead(a: seq<Block>, b: seq<Block>, lo: int, hi: int)
    requires Tiles(a, lo, hi) && a != [] && b != []
    requires b[0].addr == a[0].addr && b[0].size == a[0].size && b[1..] == a[1..]
    ensures Tiles(b, lo, hi)
  {
  }

  lemma LiveReplace(bs: seq<Block>, k: nat, mid: seq<Block>)
    requires k < |bs|
    ensures Live(bs[..k] + mid + bs[k + 1..]) == Live(bs[..k]) + Live(mid) + Live(bs[k + 1..])
    ensures Live(bs) == Live(bs[..k]) + Live([bs[k]]) + Live(bs[k + 1..])
  {
    assert bs == bs[..k] + [bs[k]] + bs[k + 1..];
  }

  /** No other block shares an address with block k. */
  lemma LiveElsewhere(bs: seq<Block>, lo: int, hi: int, k: nat)
    requires Tiles(bs, lo, hi) && k < |bs|
    ensures forall b | b in Live(bs[..k]) + Live(bs[k + 1..]) :: b.addr != bs[k].addr
  {
    TilesAll(bs, lo, hi);
  }

  lemma MallocNoAdjacent(bs: seq<Block>, k: nat, mid: seq<Block>)
    requires NoAdjacentFree(bs) && k < |bs| && bs[k].free
    requires 1 <= |mid| <= 2 && !mid[0].free
    ensures NoAdjacentFree(bs[..k] + mid + bs[k + 1..])
  {
    var r := bs[..k] + mid + bs[k + 1..];
    forall i, j | 0 <= i && j == i + 1 < |r|
      ensures !(r[i].free && r[j].free)
    {
      if j < k {
        NoAdjacentAt(bs, i);
      } else if i >= k + |mid| {
        NoAdjacentAt(bs, i - |mid| + 1);
      } else if i == k + |mid| - 1 {
        NoAdjacentAt(bs, k);
      }
    }
    NoAdjacentFrom(r);
  }

  // ---------------------------------------------------------------- kfree

  /** kfree keeps the invariant and removes exactly the block whose payload starts at p. */
  lemma FreeKeeps(bs: seq<Block>, p: int)
    requires HeapOk(bs)
    ensures HeapOk(Free(bs, p))
    ensures Live(Free(bs, p)) == set b | b in Live(bs) && b.Payload() != p
  {
    var k := IndexOf(bs, p - HEADER);
    if k < |bs| {
      TilesAt(bs, HEAP_START, HEAP_END, k);
      LiveReplace(bs, k, [bs[k].(free := true)]);
      LiveElsewhere(bs, HEAP_START, HEAP_END, k);
      if !bs[k].free {
        var freed := bs[k].(free := true);
        assert Tiles([freed][1..], freed.End(), bs[k].End());
        TilesReplace(bs, HEAP_START, HEAP_END, k, [freed]);
        assert bs[k := freed] == bs[..k] + [freed] + bs[k + 1..];
        CoalesceKeeps(bs[k := freed], HEAP_START, HEAP_END);
      }
    }
  }

  lemma FreeRemoves(bs: seq<Block>, b: Block)
    requires HeapOk(bs) && b in Live(bs)
    ensures Live(Free(bs, b.Payload())) == Live(bs) - {b}
  {
    FreeKeeps(bs, b.Payload());
    TilesAll(bs, HEAP_START, HEAP_END);
    var k :| 0 <= k < |bs| && bs[k] == b;
    assert forall c | c in Live(bs) && c.addr == b.addr :: c == b;
  }

  /** Freeing what kmalloc just returned restores the very same block list. */
  lemma FreeUndoesMalloc(bs: seq<Block>, n: int)
    requires HeapOk(bs) && 0 <= n < 0x1_0000_0000
    ensures Free(Malloc(bs, n).blocks, Malloc(bs, n).ptr) == bs
  {
    var r := Malloc(bs, n);
    MallocContract(bs, n);
    if r.ptr != 0 {
      MallocKeeps(bs, n);
      FreeKeeps(r.blocks, r.ptr);
      assert Live(Free(r.blocks, r.ptr)) == Live(bs);
      DeterminedByLive(Free(r.blocks, r.ptr), bs, HEAP_START, HEAP_END);
    }
  }

  /** A block that was freed is handed out again to the next request of the same size, and a second
      free by its first owner then takes it from the second. */
  lemma SecondFreeTakesAnothersBlock(bs: seq<Block>, n: int)
    requires HeapOk(bs) && 0 <= n < 0x1_0000_0000 && Malloc(bs, n).ptr != 0
    ensures var p := Malloc(bs, n).ptr; var freed := Free(Malloc(bs, n).blocks, p); var again := Malloc(freed, n);
            && again.ptr == p && Granted(freed, n) in Live(again.blocks) && Granted(freed, n).Payload() == p
            && Granted(freed, n) !in Live(Free(again.blocks, p))
  {
    FreeUndoesMalloc(bs, n);
    MallocContract(bs, n);
    MallocKeeps(bs, n);
    FreeKeeps(Malloc(bs, n).blocks, Malloc(bs, n).ptr);
  }

  /** The order of two frees does not matter. */
  lemma FreeCommutes(bs: seq<Block>, p: int, q: int)
    requires HeapOk(bs)
    ensures Free(Free(bs, p), q) == Free(Free(bs, q), p)
  {
    FreeKeeps(bs, p);
    FreeKeeps(bs, q);
    FreeKeeps(Free(bs, p), q);
    FreeKeeps(Free(bs, q), p);
    DeterminedByLive(Free(Free(bs, p), q), Free(Free(bs, q), p), HEAP_START, HEAP_END);
  }

  // ---------------------------------------------------------------- runs

  datatype HeapOp = OpMalloc(n: int) | OpFree(p: int)

  ghost predicate ValidOp(op: HeapOp)
  {
    op.OpMalloc? ==> 0 <= op.n < 0x1_0000_0000
  }

  /** A free of an address at which no block in use starts changes nothing here; kfree trusts the
      word it finds there, and KernelHeap.Heap.Kfree says what it must be. */
  function Step(bs: seq<Block>, op: HeapOp): seq<Block>
    requires ValidOp(op)
  {
    match op
    case OpMalloc(n) => Malloc(bs, n).blocks
    case OpFree(p) => Free(bs, p)
  }

  /** The heap after a run of calls on a freshly initialised heap, the last call last. */
  function Run(ops: seq<HeapOp>): seq<Block>
    requires forall i | 0 <= i < |ops| :: ValidOp(ops[i])
  {
    if ops == [] then [INITIAL_BLOCK] else Step(Run(ops[..|ops| - 1]), ops[|ops| - 1])
  }

  lemma InitialHeapOk()
    ensures HeapOk([INITIAL_BLOCK])
  {
    assert Tiles([INITIAL_BLOCK][1..], HEAP_END, HEAP_END);
  }

  /** Every reachable heap tiles the heap range and has no two free neighbours. */
  lemma {:induction false} RunKeepsHeapOk(ops: seq<HeapOp>)
    requires forall i | 0 <= i < |ops| :: ValidOp(ops[i])
    ensures HeapOk(Run(ops))
  {
    if ops == [] {
      InitialHeapOk();
    } else {
      var before := ops[..|ops| - 1];
      RunKeepsHeapOk(before);
      match ops[|ops| - 1]
      case OpMalloc(n) => MallocKeeps(Run(before), n);
      case OpFree(p) => FreeKeeps(Run(before), p);
    }
  }

  /** Histories do not matter: two runs that leave the same blocks in use leave the same heap. */
  lemma RunsWithSameLiveBlocksAgree(ops: seq<HeapOp>, ops': seq<HeapOp>)
    requires forall i | 0 <= i < |ops| :: ValidOp(ops[i])
    requires forall i | 0 <= i < |ops'| :: ValidOp(ops'[i])
    requires Live(Run(ops)) == Live(Run(ops'))
    ensures Run(ops) == Run(ops')
  {
    RunKeepsHeapOk(ops);
    RunKeepsHeapOk(ops');
    DeterminedByLive(Run(ops), Run(ops'), HEAP_START, HEAP_END);
  }

  function FreeEach(bs: seq<Block>, ps: seq<int>): seq<Block>
    decreases |ps|
  {
    if ps == [] then bs else FreeEach(Free(bs, ps[0]), ps[1..])
  }

  lemma {:induction false} FreeEachKeeps(bs: seq<Block>, ps: seq<int>)
    requires HeapOk(bs)
    ensures HeapOk(FreeEach(bs, ps))
    ensures Live(FreeEach(bs, ps)) == set b | b in Live(bs) && b.Payload() !in ps
    decreases |ps|
  {
    if ps != [] {
      FreeKeeps(bs, ps[0]);
      FreeEachKeeps(Free(bs, ps[0]), ps[1..]);
      assert ps == [ps[0]] + ps[1..];
      assert forall b: Block :: b.Payload() in ps <==> b.Payload() == ps[0] || b.Payload() in ps[1..];
    }
  }

  /** Freeing every block in use, in any order, ends in the initial heap. */
  lemma FreeEverything(bs: seq<Block>, ps: seq<int>)
    requires HeapOk(bs)
    requires forall b | b in Live(bs) :: b.Payload() in ps
    ensures FreeEach(bs, ps) == [INITIAL_BLOCK]
  {
    FreeEachKeeps(bs, ps);
    InitialHeapOk();
    assert Live(FreeEach(bs, ps)) == {} == Live([INITIAL_BLOCK]);
    DeterminedByLive(FreeEach(bs, ps), [INITIAL_BLOCK], HEAP_START, HEAP_END);
  }

  // ---------------------------------------------------------------- sizes

  /** kmalloc's answer holds n bytes exactly when rounding n up to 4 does not wrap. */
  lemma GrantHoldsRequestIff(bs: seq<Block>, n: int)
    requires HeapOk(bs) && 0 <= n < 0x1_0000_0000 && Malloc(bs, n).ptr != 0
    ensures n <= Granted(bs, n).size <==> n <= 0xFFFF_FFFC
  {
    MallocContract(bs, n);
    TilesAll(bs, HEAP_START, HEAP_END);
  }

  /** A request above 0xFFFFFFFC on a fresh heap is granted with an empty payload. */
  lemma WrappedRequestIsGranted()
    ensures HeapOk([INITIAL_BLOCK])
    ensures Malloc([INITIAL_BLOCK], 0xFFFF_FFFD) ==
            MallocResult([Block(HEAP_START, 0, false), Block(HEAP_START + HEADER, HEAP_SIZE - 2 * HEADER, true)],
                         HEAP_START + HEADER)
  {
    InitialHeapOk();
    var bs := [INITIAL_BLOCK];
    assert FirstFit(bs, 0) == 0;
    assert bs[1..] == [] && bs[..0] == [];
  }

  function UsedBytes(bs: seq<Block>): int
  {
    if bs == [] then 0 else (if bs[0].free then 0 else bs[0].size) + UsedBytes(bs[1..])
  }

  function FreeBytes(bs: seq<Block>): int
  {
    if bs == [] then 0 else (if bs[0].free then bs[0].size else 0) + FreeBytes(bs[1..])
  }

  /** The payload bytes of a set of blocks. */
  ghost function SizeSum(blocks: set<Block>): int
  {
    if blocks == {} then 0 else
      var b :| b in blocks;
      b.size + SizeSum(blocks - {b})
  }

  lemma {:induction false} SizeSumTake(blocks: set<Block>, b: Block)
    requires b in blocks
    ensures SizeSum(blocks) == b.size + SizeSum(blocks - {b})
    decreases |blocks|
  {
    var c :| c in blocks && SizeSum(blocks) == c.size + SizeSum(blocks - {c});
    if c != b {
      SizeSumTake(blocks - {c}, b);
      SizeSumTake(blocks - {b}, c);
      assert blocks - {c} - {b} == blocks - {b} - {c};
    }
  }

  /** The used bytes are those of the blocks in use. */
  lemma {:induction false} UsedIsLive(bs: seq<Block>, lo: int, hi: int)
    requires Tiles(bs, lo, hi)
    ensures UsedBytes(bs) == SizeSum(Live(bs))
  {
    if bs != [] {
      UsedIsLive(bs[1..], bs[0].End(), hi);
      LiveHead(bs);
      TilesAll(bs, lo, hi);
      if !bs[0].free {
        assert bs[0] !in bs[1..];
        SizeSumTake(Live(bs), bs[0]);
        assert Live(bs) - {bs[0]} == Live(bs[1..]);
      } else {
        assert Live(bs) == Live(bs[1..]);
      }
    }
  }

  /** kmalloc adds the size it grants to the used bytes. */
  lemma MallocUses(bs: seq<Block>, n: int)
    requires HeapOk(bs) && 0 <= n < 0x1_0000_0000
    ensures var r := Malloc(bs, n);
            UsedBytes(r.blocks) == UsedBytes(bs) + if r.ptr == 0 then 0 else Granted(bs, n).size
  {
    hide Malloc, Granted, Tiles, NoAdjacentFree;
    var r := Malloc(bs, n);
    MallocContract(bs, n);
    MallocKeeps(bs, n);
    UsedIsLive(bs, HEAP_START, HEAP_END);
    UsedIsLive(r.blocks, HEAP_START, HEAP_END);
    if r.ptr != 0 {
      var b := Granted(bs, n);
      SizeSumTake(Live(r.blocks), b);
      assert Live(r.blocks) - {b} == Live(bs);
    }
  }

  /** kfree takes the size of the block off the used bytes. */
  lemma FreeGivesBack(bs: seq<Block>, b: Block)
    requires HeapOk(bs) && b in Live(bs)
    ensures UsedBytes(Free(bs, b.Payload())) == UsedBytes(bs) - b.size
  {
    hide Free, Tiles, NoAdjacentFree;
    FreeKeeps(bs, b.Payload());
    FreeRemoves(bs, b);
    UsedIsLive(bs, HEAP_START, HEAP_END);
    UsedIsLive(Free(bs, b.Payload()), HEAP_START, HEAP_END);
    SizeSumTake(Live(bs), b);
  }

  /** Conservation: used and free payload bytes and the headers add up to the covered range. */
  lemma {:induction false} BytesAddUp(bs: seq<Block>, lo: int, hi: int)
    requires Tiles(bs, lo, hi)
    ensures UsedBytes(bs) + FreeBytes(bs) + HEADER * |bs| == hi - lo
    ensures UsedBytes(bs) >= 0 && FreeBytes(bs) >= 0
  {
    if bs != [] {
      BytesAddUp(bs[1..], bs[0].End(), hi);
    }
  }
}
