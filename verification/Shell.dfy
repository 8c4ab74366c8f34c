/** The shell's malloc and free commands: text in, text out, over the kernel heap. */
module Shell {
  import opened BlockList
  import opened HeapTheorems
  import opened Numbers

  /** What the malloc command prints as the address of a block of n bytes. */
  function PrintedAddress(bs: seq<Block>, n: int): seq<int>
    requires 0 <= n < 0x1_0000_0000 && 0 <= Malloc(bs, n).ptr
  {
    HexText(Malloc(bs, n).ptr)
  }

  /** The free command on the heap: an argument that is no address is refused. */
  function FreeCommand(bs: seq<Block>, argument: seq<int>): seq<Block>
  {
    match ParseAddress(argument)
    case Invalid => bs
    case Address(a) => Free(bs, a)
  }

  /** Typing the address the malloc command printed into the free command restores the heap. */
  lemma FreeUndoesMallocAtTheShell(bs: seq<Block>, n: int)
    requires HeapOk(bs) && 0 <= n < 0x1_0000_0000
    ensures 0 <= Malloc(bs, n).ptr < 0x1_0000_0000
    ensures FreeCommand(Malloc(bs, n).blocks, PrintedAddress(bs, n)) == bs
  {
    TilesAll(bs, HEAP_START, HEAP_END);
    hide Tiles, HexText, ParseAddress;
    ParsePrinted(Malloc(bs, n).ptr);
    FreeUndoesMalloc(bs, n);
  }
}
