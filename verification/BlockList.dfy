/** The kernel heap as a value: the address-ordered list of blocks, and what kmalloc and
    kfree do to it.  KernelHeap proves that the in-memory list follows these functions. */
module BlockList {

  const HEAP_START := 0x200000
  const HEAP_SIZE := 0x100000
  const HEAP_END := 0x300000
  /** sizeof(memory_block_t): five four-byte fields. */
  const HEADER := 20

  /** A block: the address of its header, the size of its payload, and its type. */
  datatype Block = Block(addr: int, size: int, free: bool) {
    function Payload(): int { addr + HEADER }
    function End(): int { addr + HEADER + size }
  }

  const INITIAL_BLOCK := Block(HEAP_START, HEAP_SIZE - HEADER, true)

  // ---------------------------------------------------------------- shape

  /** The blocks cover lo..hi in address order: each starts where the one before ends. */
  ghost predicate Tiles(bs: seq<Block>, lo: int, hi: int)
  {
    if bs == [] then lo == hi else
      && bs[0].addr == lo
      && 0 <= bs[0].size
      && bs[0].size % 4 == 0
      && bs[0].End() <= hi
      && Tiles(bs[1..], bs[0].End(), hi)
  }

  ghost predicate NoAdjacentFree(bs: seq<Block>)
  {
    |bs| < 2 || (!(bs[0].free && bs[1].free) && NoAdjacentFree(bs[1..]))
  }

  /** The invariant of the heap between calls. */
  ghost predicate HeapOk(bs: seq<Block>)
  {
    Tiles(bs, HEAP_START, HEAP_END) && NoAdjacentFree(bs)
  }

  /** The blocks in use. */
  ghost function Live(bs: seq<Block>): set<Block>
  {
    set b | b in bs && !b.free
  }

  lemma {:induction false} TilesAt(bs: seq<Block>, lo: int, hi: int, i: nat)
    requires Tiles(bs, lo, hi) && i < |bs|
    ensures lo <= bs[i].addr && bs[i].End() <= hi && 0 <= bs[i].size && bs[i].size % 4 == 0
    ensures (bs[i].addr - lo) % 4 == 0
    ensures i == 0 ==> bs[i].addr == lo
    ensures i + 1 < |bs| ==> bs[i + 1].addr == bs[i].End()
    ensures i + 1 == |bs| ==> bs[i].End() == hi
  {
    if i > 0 {
      TilesAt(bs[1..], bs[0].End(), hi, i - 1);
    }
  }

  lemma {:induction false} TilesOrder(bs: seq<Block>, lo: int, hi: int, i: nat, j: nat)
    requires Tiles(bs, lo, hi) && i < j < |bs|
    ensures bs[i].End() <= bs[j].addr
  {
    if i > 0 {
      TilesOrder(bs[1..], bs[0].End(), hi, i - 1, j - 1);
    } else {
      TilesAt(bs[1..], bs[0].End(), hi, j - 1);
    }
  }

  /** Blocks of a tiling lie inside it and never overlap. */
  lemma TilesAll(bs: seq<Block>, lo: int, hi: int)
    requires Tiles(bs, lo, hi)
    ensures forall i | 0 <= i < |bs| :: lo <= bs[i].addr && bs[i].End() <= hi && 0 <= bs[i].size
    ensures forall i, j | 0 <= i < j < |bs| :: bs[i].End() <= bs[j].addr
  {
    forall i | 0 <= i < |bs|
      ensures lo <= bs[i].addr && bs[i].End() <= hi && 0 <= bs[i].size
    {
      TilesAt(bs, lo, hi, i);
    }
    forall i, j | 0 <= i < j < |bs|
      ensures bs[i].End() <= bs[j].addr
    {
      TilesOrder(bs, lo, hi, i, j);
    }
  }

  lemma {:induction false} TilesConcat(a: seq<Block>, b: seq<Block>, lo: int, mid: int, hi: int)
    requires Tiles(a, lo, mid) && Tiles(b, mid, hi) && mid <= hi
    ensures Tiles(a + b, lo, hi)
  {
    if a == [] {
      assert a + b == b;
    } else {
      TilesConcat(a[1..], b, a[0].End(), mid, hi);
      assert (a + b)[1..] == a[1..] + b;
    }
  }

  lemma {:induction false} TilesSplit(bs: seq<Block>, lo: int, hi: int, k: nat)
    requires Tiles(bs, lo, hi) && k < |bs|
    ensures Tiles(bs[..k], lo, bs[k].addr) && Tiles(bs[k..], bs[k].addr, hi) && lo <= bs[k].addr <= hi
    ensures Tiles(bs[k + 1..], bs[k].End(), hi) && bs[k].End() <= hi
  {
    TilesAt(bs, lo, hi, k);
    if k > 0 {
      TilesSplit(bs[1..], bs[0].End(), hi, k - 1);
      assert bs[1..][..k - 1] == bs[..k][1..];
      assert bs[1..][k - 1..] == bs[k..];
    } else {
      assert bs[0..] == bs;
    }
    assert bs[k..][1..] == bs[k + 1..];
  }

  /** Replacing one block by blocks covering the same range keeps the tiling. */
  lemma TilesReplace(bs: seq<Block>, lo: int, hi: int, k: nat, mid: seq<Block>)
    requires Tiles(bs, lo, hi) && k < |bs| && Tiles(mid, bs[k].addr, bs[k].End())
    ensures Tiles(bs[..k] + mid + bs[k + 1..], lo, hi)
  {
    TilesSplit(bs, lo, hi, k);
    TilesAt(bs, lo, hi, k);
    TilesConcat(bs[..k], mid, lo, bs[k].addr, bs[k].End());
    TilesConcat(bs[..k] + mid, bs[k + 1..], lo, bs[k].End(), hi);
  }

  lemma {:induction false} NoAdjacentAt(bs: seq<Block>, i: nat)
    requires NoAdjacentFree(bs) && i + 1 < |bs|
    ensures !(bs[i].free && bs[i + 1].free)
  {
    if i > 0 {
      NoAdjacentAt(bs[1..], i - 1);
    }
  }

  lemma {:induction false} NoAdjacentFrom(bs: seq<Block>)
    requires forall i, j | 0 <= i && j == i + 1 < |bs| :: !(bs[i].free && bs[j].free)
    ensures NoAdjacentFree(bs)
  {
    if |bs| >= 2 {
      assert forall i, j | 0 <= i && j == i + 1 < |bs[1..]| :: bs[1..][i] == bs[i + 1] && bs[1..][j] == bs[j + 1];
      NoAdjacentFrom(bs[1..]);
    }
  }

  // ---------------------------------------------------------------- kmalloc

  /** (size + 3) & ~3 in 32-bit arithmetic: wraps to 0 above 0xFFFFFFFC. */
  function RoundUp4(n: int): (r: int)
    requires 0 <= n < 0x1_0000_0000
    ensures 0 <= r < 0x1_0000_0000 && r % 4 == 0
    ensures n <= 0xFFFF_FFFC ==> n <= r < n + 4
    ensures n > 0xFFFF_FFFC ==> r == 0
  {
    (n + 3) % 0x1_0000_0000 / 4 * 4
  }

  predicate Fits(b: Block, size: int)
  {
    b.free && b.size >= size
  }

  /** The index of the first free block large enough, or |bs|. */
  function FirstFit(bs: seq<Block>, size: int): (k: nat)
    ensures k <= |bs|
    ensures k < |bs| ==> Fits(bs[k], size)
    ensures forall j | 0 <= j < k :: !Fits(bs[j], size)
  {
    if bs == [] || Fits(bs[0], size) then 0 else 1 + FirstFit(bs[1..], size)
  }

  /** The block b cut to a payload of size bytes: what stays, and the free rest if it is
      larger than a header. */
  function Carve(b: Block, size: int): (parts: seq<Block>)
  {
    if b.size > size + HEADER
    then [Block(b.addr, size, b.free), Block(b.addr + HEADER + size, b.size - size - HEADER, true)]
    else [b]
  }

  lemma CarveTiles(b: Block, size: int)
    requires 0 <= size <= b.size && size % 4 == 0 && b.size % 4 == 0
    ensures Tiles(Carve(b, size), b.addr, b.End())
  {
    var parts := Carve(b, size);
    assert |parts| == 2 ==> parts[1..] == [parts[1]] && parts[1..][1..] == [];
  }

  datatype MallocResult = MallocResult(blocks: seq<Block>, ptr: int)

  function Malloc(bs: seq<Block>, n: int): (r: MallocResult)
    requires 0 <= n < 0x1_0000_0000
  {
    var size := RoundUp4(n);
    var k := FirstFit(bs, size);
    if n == 0 || k == |bs| then MallocResult(bs, 0)
    else
      var parts := Carve(bs[k], size);
      MallocResult(bs[..k] + parts[0 := parts[0].(free := false)] + bs[k + 1..], bs[k].Payload())
  }

  /** The block handed out by Malloc(bs, n). */
  ghost function Granted(bs: seq<Block>, n: int): Block
    requires 0 <= n < 0x1_0000_0000 && Malloc(bs, n).ptr != 0
  {
    Carve(bs[FirstFit(bs, RoundUp4(n))], RoundUp4(n))[0].(free := false)
  }

  // ---------------------------------------------------------------- kfree

  function Coalesce(bs: seq<Block>): (r: seq<Block>)
    decreases |bs|
  {
    if |bs| < 2 then bs
    else if bs[0].free && bs[1].free then
      Coalesce([Block(bs[0].addr, bs[0].size + bs[1].size + HEADER, true)] + bs[2..])
    else [bs[0]] + Coalesce(bs[1..])
  }

  /** Block k and its successor made one free block. */
  function MergeNext(bs: seq<Block>, k: nat): seq<Block>
    requires k + 1 < |bs|
  {
    bs[..k] + [Block(bs[k].addr, bs[k].size + bs[k + 1].size + HEADER, true)] + bs[k + 2..]
  }

  lemma MergeNextTiles(bs: seq<Block>, lo: int, hi: int, k: nat)
    requires Tiles(bs, lo, hi) && k + 1 < |bs|
    ensures Tiles(MergeNext(bs, k), lo, hi)
  {
    TilesSplit(bs, lo, hi, k);
    TilesAt(bs, lo, hi, k);
    TilesAt(bs, lo, hi, k + 1);
    TilesSplit(bs, lo, hi, k + 1);
    var merged := Block(bs[k].addr, bs[k].size + bs[k + 1].size + HEADER, true);
    assert ([merged] + bs[k + 2..])[1..] == bs[k + 2..];
    TilesConcat(bs[..k], [merged] + bs[k + 2..], lo, bs[k].addr, hi);
    assert MergeNext(bs, k) == bs[..k] + ([merged] + bs[k + 2..]);
  }

  /** The index of the block with header address a, or |bs|. */
  function IndexOf(bs: seq<Block>, a: int): (k: nat)
    ensures k <= |bs|
    ensures k < |bs| ==> bs[k].addr == a
    ensures forall j | 0 <= j < k :: bs[j].addr != a
  {
    if bs == [] || bs[0].addr == a then 0 else 1 + IndexOf(bs[1..], a)
  }

  function Free(bs: seq<Block>, p: int): (r: seq<Block>)
  {
    var k := IndexOf(bs, p - HEADER);
    if p == 0 || k == |bs| || bs[k].free then bs
    else Coalesce(bs[k := bs[k].(free := true)])
  }
}
