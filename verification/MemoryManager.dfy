/** Heap, page tables and page bitmap share one memory.  Every run that mixes their operations, and
    writes of owners to their own blocks, keeps them well-formed, and none disturbs another. */
module MemoryManager {
  import opened Machine
  import opened BlockList
  import opened HeapTheorems
  import opened KernelHeap
  import opened PageTables
  import opened PageBitmap

  datatype State = State(m: seq<Byte>, blocks: seq<Block>, owners: seq<int>)

  ghost predicate Ok(s: State)
  {
    |s.m| == ADDRESS_SPACE && HeapOk(s.blocks) && InMemory(s.m, s.blocks) && PagingOk(s.m, s.owners)
  }

  datatype Call =
    | CallMalloc(n: Word)
    | CallFree(p: Word)
    | CallRealloc(p: Word, n: Word, from: Block)
    | CallMap(virtual: Word, physical: Word, flags: Word)
    | CallUnmap(virtual: Word)
    | CallAllocPage
    | CallFreePage(address: Word)
    | OwnerWrites(b: Block)

  /** The blocks after a krealloc: NULL allocates, size 0 frees, and otherwise the block moves, if
      there is room for the new one. */
  ghost function Realloc(bs: seq<Block>, p: Word, n: Word): seq<Block>
  {
    var r := Malloc(bs, n);
    if p == NULL then r.blocks
    else if n == 0 then Free(bs, p)
    else if r.ptr == 0 then bs
    else Free(r.blocks, p)
  }

  /** What one call may do: the contracts of the methods, nothing more.  A free of an address at
      which no block in use starts changes nothing here; kfree trusts the word it finds there, and
      KernelHeap.Heap.Kfree says what it must be. */
  ghost predicate CallStep(s: State, c: Call, t: State)
  {
    && |s.m| == |t.m|
    && match c
       case CallMalloc(n) =>
         && t.blocks == Malloc(s.blocks, n).blocks && InMemory(t.m, t.blocks) && t.owners == s.owners
         && PayloadsKept(s.m, t.m, Live(s.blocks)) && SameOutside(s.m, t.m, HEAP_START, HEAP_END)
       case CallFree(p) =>
         && t.blocks == Free(s.blocks, p) && InMemory(t.m, t.blocks) && t.owners == s.owners
         && PayloadsKept(s.m, t.m, Live(t.blocks)) && SameOutside(s.m, t.m, HEAP_START, HEAP_END)
       case CallRealloc(p, n, from) =>
         && n <= 0xFFFF_FFFC && (p != NULL ==> from in Live(s.blocks) && from.Payload() == p)
         && t.blocks == Realloc(s.blocks, p, n) && InMemory(t.m, t.blocks) && t.owners == s.owners
         && PayloadsKept(s.m, t.m, Live(s.blocks) * Live(t.blocks)) && SameOutside(s.m, t.m, HEAP_START, HEAP_END)
         && (p != NULL && n != 0 && Malloc(s.blocks, n).ptr != 0 ==>
               Copied(s.m, t.m, p, Malloc(s.blocks, n).ptr, Min(from.size, n)))
       case CallMap(v, p, flags) =>
         && t.blocks == s.blocks && PagingOk(t.m, t.owners) && SameExceptPaging(s.m, t.m)
         && Remaps(s.m, t.m, v / PAGE_SIZE, Mapping(p, flags))
       case CallUnmap(v) =>
         && t.blocks == s.blocks && PagingOk(t.m, t.owners) && SameExceptPaging(s.m, t.m)
         && Remaps(s.m, t.m, v / PAGE_SIZE, None)
       case CallAllocPage =>
         && t.blocks == s.blocks && t.owners == s.owners && SameOutside(s.m, t.m, BITMAP, BITMAP_END)
         && |s.m| == ADDRESS_SPACE && PagesOf(t.m) == AllocPage(PagesOf(s.m)).marked
       case CallFreePage(address) =>
         && t.blocks == s.blocks && t.owners == s.owners && SameOutside(s.m, t.m, BITMAP, BITMAP_END)
         && |s.m| == ADDRESS_SPACE && PagesOf(t.m) == FreePage(PagesOf(s.m), address)
       case OwnerWrites(b) =>
         && t.blocks == s.blocks && t.owners == s.owners
         && b in Live(s.blocks) && SameOutside(s.m, t.m, b.Payload(), b.End())
  }

  // ---------------------------------------------------------------- one step

  /** Nothing outside the paging areas matters to translation. */
  lemma PagingFrame(m: seq<Byte>, n: seq<Byte>, owners: seq<int>)
    requires PagingOk(m, owners) && |m| == |n|
    requires SameOn(m, n, FIRST_TABLE, TABLES_END) && SameOn(m, n, DIRECTORY, DIRECTORY + PAGE_SIZE)
    ensures PagingOk(n, owners)
    ensures forall p | 0 <= p < PAGES :: Walk(n, p) == Walk(m, p)
  {
    hide EntryAt;
    TablesBounded(m, owners);
    forall d | 0 <= d < ENTRIES
      ensures EntryAt(m, DIRECTORY, d) == EntryAt(n, DIRECTORY, d)
    {
      EntryFrame(m, n, DIRECTORY, d);
    }
    forall p | 0 <= p < PAGES
      ensures Walk(n, p) == Walk(m, p)
    {
      if EntryAt(m, DIRECTORY, p / ENTRIES).present {
        EntryFrame(m, n, EntryAt(m, DIRECTORY, p / ENTRIES).address * PAGE_SIZE, p % ENTRIES);
      }
    }
  }

  /** Nothing outside the heap matters to it. */
  lemma HeapFrame(m: seq<Byte>, n: seq<Byte>, bs: seq<Block>)
    requires Tiles(bs, HEAP_START, HEAP_END) && InMemory(m, bs) && |m| == |n| == ADDRESS_SPACE
    requires SameOn(m, n, HEAP_START, HEAP_END)
    ensures InMemory(n, bs)
  {
    hide HasHeader, HeaderOf, Tiles;
    TilesAll(bs, HEAP_START, HEAP_END);
    forall i | 0 <= i < |bs|
      ensures HasHeader(n, bs[i].addr, HeaderOf(bs, i))
    {
      HeaderSame(m, n, bs[i].addr, HeaderOf(bs, i));
    }
  }

  lemma HeaderSame(m: seq<Byte>, n: seq<Byte>, a: int, h: Header)
    requires |m| == |n| && SameOn(m, n, a, a + HEADER) && HasHeader(m, a, h)
    ensures HasHeader(n, a, h)
  {
  }

  /** The areas lie apart, so that writing in one leaves the others. */
  lemma AreasApart(m: seq<Byte>, n: seq<Byte>)
    requires |m| == |n|
    ensures SameOutside(m, n, HEAP_START, HEAP_END) || SameOutside(m, n, BITMAP, BITMAP_END) ==>
              SameOn(m, n, FIRST_TABLE, TABLES_END) && SameOn(m, n, DIRECTORY, DIRECTORY + PAGE_SIZE)
    ensures SameExceptPaging(m, n) || SameOutside(m, n, BITMAP, BITMAP_END) ==> SameOn(m, n, HEAP_START, HEAP_END)
    ensures SameExceptPaging(m, n) || SameOutside(m, n, HEAP_START, HEAP_END) ==> SameOn(m, n, BITMAP, BITMAP_END)
  {
  }

  lemma ReallocKeeps(bs: seq<Block>, p: Word, n: Word)
    requires HeapOk(bs)
    ensures HeapOk(Realloc(bs, p, n))
  {
    hide HeapOk, Malloc, Free;
    MallocKeeps(bs, n);
    FreeKeeps(bs, p);
    FreeKeeps(Malloc(bs, n).blocks, p);
  }

  /** Which area a call may change. */
  lemma StepFrame(s: State, c: Call, t: State)
    requires Ok(s) && CallStep(s, c, t)
    ensures |s.m| == |t.m| == ADDRESS_SPACE
    ensures c.CallMap? || c.CallUnmap? ==> SameExceptPaging(s.m, t.m)
    ensures c.CallAllocPage? || c.CallFreePage? ==> SameOutside(s.m, t.m, BITMAP, BITMAP_END)
    ensures c.CallMalloc? || c.CallFree? || c.CallRealloc? || c.OwnerWrites? ==>
              SameOutside(s.m, t.m, HEAP_START, HEAP_END)
  {
    hide PagingOk, InMemory, Remaps, PayloadsKept, Tiles, NoAdjacentFree, Malloc, Free, Realloc, Copied, PagesOf;
    if c.OwnerWrites? {
      PayloadWrite(s.m, t.m, s.blocks, c.b);
    }
  }

  /** Every step keeps all structures well-formed. */
  lemma StepKeepsOk(s: State, c: Call, t: State)
    requires Ok(s) && CallStep(s, c, t)
    ensures Ok(t)
  {
    StepFrame(s, c, t);
    hide PagingOk, InMemory, Remaps, PayloadsKept, Tiles, NoAdjacentFree, SameOn, SameOutside, SameExceptPaging;
    hide Copied, PagesOf, Malloc, Free, Realloc;
    AreasApart(s.m, t.m);
    if c.CallMap? || c.CallUnmap? {
      HeapFrame(s.m, t.m, s.blocks);
    } else {
      PagingFrame(s.m, t.m, s.owners);
    }
    match c
    case CallMalloc(n) => MallocKeeps(s.blocks, n);
    case CallFree(p) => FreeKeeps(s.blocks, p);
    case CallRealloc(p, n, _) => ReallocKeeps(s.blocks, p, n);
    case CallAllocPage => HeapFrame(s.m, t.m, s.blocks);
    case CallFreePage(_) => HeapFrame(s.m, t.m, s.blocks);
    case OwnerWrites(b) => PayloadWrite(s.m, t.m, s.blocks, b);
    case _ =>
  }

  /** A block in use before and after keeps its contents, unless its owner wrote them. */
  lemma StepKeepsPayload(s: State, c: Call, t: State, b: Block)
    requires Ok(s) && CallStep(s, c, t) && b in Live(s.blocks) && b in Live(t.blocks) && c != OwnerWrites(b)
    ensures |s.m| == |t.m| && SameOn(s.m, t.m, b.Payload(), b.End())
  {
    hide PagingOk, InMemory, Remaps, Tiles, NoAdjacentFree, Malloc, Free, Realloc, Copied, PagesOf;
    LiveInList(s.blocks, b);
    StepFrame(s, c, t);
    AreasApart(s.m, t.m);
    if c.OwnerWrites? {
      PayloadWrite(s.m, t.m, s.blocks, c.b);
    }
  }

  /** What a call says about page p: a new mapping, or nothing. */
  ghost function Says(c: Call, p: int, before: Option<Target>): Option<Target>
  {
    match c
    case CallMap(v, physical, flags) => if v / PAGE_SIZE == p then Mapping(physical, flags) else before
    case CallUnmap(v) => if v / PAGE_SIZE == p then None else before
    case _ => before
  }

  lemma StepTranslates(s: State, c: Call, t: State, p: int)
    requires Ok(s) && CallStep(s, c, t) && 0 <= p < PAGES
    ensures |s.m| == |t.m| == ADDRESS_SPACE && Walk(t.m, p) == Says(c, p, Walk(s.m, p))
  {
    StepFrame(s, c, t);
    hide PagingOk, InMemory, PayloadsKept, Tiles, NoAdjacentFree, Walk, Malloc, Free, Realloc, Copied, PagesOf;
    hide SameOn, SameOutside, SameExceptPaging;
    AreasApart(s.m, t.m);
    if !c.CallMap? && !c.CallUnmap? {
      PagingFrame(s.m, t.m, s.owners);
    }
  }

  /** The physical pages taken after a call. */
  ghost function PagesAfter(c: Call, pages: set<int>): set<int>
  {
    match c
    case CallAllocPage => AllocPage(pages).marked
    case CallFreePage(address) => FreePage(pages, address)
    case _ => pages
  }

  lemma StepMarks(s: State, c: Call, t: State)
    requires Ok(s) && CallStep(s, c, t)
    ensures |s.m| == |t.m| == ADDRESS_SPACE && PagesOf(t.m) == PagesAfter(c, PagesOf(s.m))
  {
    StepFrame(s, c, t);
    hide PagingOk, InMemory, PayloadsKept, Tiles, NoAdjacentFree, Remaps, Malloc, Free, Realloc, Copied, PagesOf;
    hide SameOn, SameOutside, SameExceptPaging, AllocPage, FreePage;
    AreasApart(s.m, t.m);
    if !c.CallAllocPage? && !c.CallFreePage? {
      BitmapFrame(s.m, t.m);
    }
  }

  // ---------------------------------------------------------------- runs

  /** states[0] takes call calls[0] to states[1], and so on. */
  ghost predicate IsRun(states: seq<State>, calls: seq<Call>)
  {
    && |states| == |calls| + 1
    && forall i | 0 <= i < |calls| :: CallStep(states[i], calls[i], states[i + 1])
  }

  /** Every state of every run is well-formed. */
  lemma {:induction false} RunKeepsOk(states: seq<State>, calls: seq<Call>, i: nat)
    requires IsRun(states, calls) && Ok(states[0]) && i < |states|
    ensures Ok(states[i])
  {
    hide Ok, CallStep;
    if i > 0 {
      RunKeepsOk(states, calls, i - 1);
      StepKeepsOk(states[i - 1], calls[i - 1], states[i]);
    }
  }

  /** Over a whole run, a block that stays in use keeps its contents if its owner does not write. */
  lemma {:induction false} RunKeepsPayload(states: seq<State>, calls: seq<Call>, i: nat, b: Block)
    requires IsRun(states, calls) && Ok(states[0]) && i < |states|
    requires forall j | 0 <= j <= i :: b in Live(states[j].blocks)
    requires OwnerWrites(b) !in calls
    ensures |states[0].m| == |states[i].m| && SameOn(states[0].m, states[i].m, b.Payload(), b.End())
  {
    hide Ok, CallStep;
    RunKeepsOk(states, calls, 0);
    if i > 0 {
      RunKeepsPayload(states, calls, i - 1, b);
      RunKeepsOk(states, calls, i - 1);
      RunKeepsOk(states, calls, i);
      StepKeepsPayload(states[i - 1], calls[i - 1], states[i], b);
      SizesAgree(states[i - 1], states[i]);
    }
  }

  lemma SizesAgree(s: State, t: State)
    requires Ok(s) && Ok(t)
    ensures |s.m| == |t.m| == ADDRESS_SPACE
  {
    hide HeapOk, InMemory, PagingOk;
  }

  /** The last call that says something about page p decides its translation. */
  ghost function LastWord(calls: seq<Call>, p: int, before: Option<Target>): Option<Target>
  {
    if calls == [] then before
    else Says(calls[|calls| - 1], p, LastWord(calls[..|calls| - 1], p, before))
  }

  lemma {:induction false} RunTranslates(states: seq<State>, calls: seq<Call>, i: nat, p: int)
    requires IsRun(states, calls) && Ok(states[0]) && i < |states| && 0 <= p < PAGES
    ensures |states[0].m| == |states[i].m| == ADDRESS_SPACE
    ensures Walk(states[i].m, p) == LastWord(calls[..i], p, Walk(states[0].m, p))
  {
    hide Ok, CallStep, Says, Walk;
    RunKeepsOk(states, calls, i);
    SizesAgree(states[0], states[i]);
    if i > 0 {
      RunTranslates(states, calls, i - 1, p);
      RunKeepsOk(states, calls, i - 1);
      StepTranslates(states[i - 1], calls[i - 1], states[i], p);
      assert calls[..i][..i - 1] == calls[..i - 1];
    }
  }

  /** The physical pages taken after some calls. */
  ghost function PagesAfterAll(calls: seq<Call>, pages: set<int>): set<int>
  {
    if calls == [] then pages else PagesAfter(calls[|calls| - 1], PagesAfterAll(calls[..|calls| - 1], pages))
  }

  /** The bitmap always holds what the calls about physical pages have made of it, whatever else
      is called between them. */
  lemma {:induction false} RunMarks(states: seq<State>, calls: seq<Call>, i: nat)
    requires IsRun(states, calls) && Ok(states[0]) && i < |states|
    ensures |states[0].m| == |states[i].m| == ADDRESS_SPACE
    ensures PagesOf(states[i].m) == PagesAfterAll(calls[..i], PagesOf(states[0].m))
  {
    hide Ok, CallStep, PagesAfter, PagesOf;
    RunKeepsOk(states, calls, i);
    SizesAgree(states[0], states[i]);
    if i > 0 {
      RunMarks(states, calls, i - 1);
      RunKeepsOk(states, calls, i - 1);
      StepMarks(states[i - 1], calls[i - 1], states[i]);
      assert calls[..i][..i - 1] == calls[..i - 1];
    }
  }

  /** From boot, the n-th physical page handed out is a page table in use, or the page directory,
      exactly for these n: the bitmap does not know of them. */
  lemma NthPageIsPaging(m: seq<Byte>, owners: seq<int>, n: nat)
    requires PagingOk(m, owners) && n < MAX_PAGES - RESERVED_PAGES
    ensures var address := AllocPage(AllocTimes(n)).address;
            (exists d | 0 <= d < ENTRIES ::
               EntryAt(m, DIRECTORY, d).present && EntryAt(m, DIRECTORY, d).address * PAGE_SIZE == address)
            || address == DIRECTORY
            <==> 256 <= n < 256 + |owners| || n == 2560
  {
    hide EntryAt, AllocPage, AllocTimes;
    AllocTimesIs(n);
    TablesBounded(m, owners);
    if 256 <= n < 256 + |owners| {
      var d := owners[n - 256];
      assert Installed(EntryAt(m, DIRECTORY, d), n - 256);
    }
    if d :| 0 <= d < ENTRIES && EntryAt(m, DIRECTORY, d).present &&
            EntryAt(m, DIRECTORY, d).address * PAGE_SIZE == (RESERVED_PAGES + n) * PAGE_SIZE {
      var k :| 0 <= k < |owners| && owners[k] == d;
      assert Installed(EntryAt(m, DIRECTORY, d), k);
    }
  }

  // ---------------------------------------------------------------- the methods take such steps

  class Kernel {
    const heap: Heap
    const paging: Paging
    const bitmap: Bitmap
    const mem: array<Byte>

    ghost predicate Valid()
      reads this, heap, paging, bitmap, mem
    {
      && heap.mem == mem && paging.mem == mem && bitmap.mem == mem
      && heap.Valid() && paging.Valid() && bitmap.Valid()
    }

    ghost function Now(): State
      reads this, heap, paging, mem
    {
      State(mem[..], heap.blocks, paging.owners)
    }

    /** memory_init */
    constructor (memory: array<Byte>)
      requires memory.Length == ADDRESS_SPACE
      modifies memory
      ensures Valid() && Ok(Now()) && mem == memory && fresh(heap) && fresh(paging) && fresh(bitmap)
      ensures heap.blocks == [INITIAL_BLOCK]
      ensures forall p | 0 <= p < PAGES :: Walk(mem[..], p) == PageTables.Initial(p)
      ensures PagesOf(mem[..]) == Below(RESERVED_PAGES)
    {
      hide PagingOk, InMemory, Walk, PagesOf, Below;
      mem := memory;
      bitmap := new Bitmap(memory);
      ghost var m0 := memory[..];
      paging := new Paging(memory);
      ghost var m1 := memory[..];
      heap := new Heap(memory);
      new;
      AreasApart(m0, m1);
      AreasApart(m1, mem[..]);
      BitmapFrame(m0, m1);
      BitmapFrame(m1, mem[..]);
      PagingFrame(m1, mem[..], paging.owners);
    }

    method Kmalloc(n: Word) returns (ptr: Word)
      requires Valid()
      modifies heap, mem
      ensures Valid() && Ok(Now()) && CallStep(old(Now()), CallMalloc(n), Now())
      ensures ptr == Malloc(old(heap.blocks), n).ptr
    {
      hide PagingOk, InMemory, Walk, PayloadsKept, Tiles, NoAdjacentFree, Malloc;
      ghost var m := mem[..];
      ptr := heap.Kmalloc(n);
      AreasApart(m, mem[..]);
      PagingFrame(m, mem[..], paging.owners);
    }

    method Kfree(ptr: Word)
      requires Valid() && heap.Freeable(ptr)
      modifies heap, mem
      ensures Valid() && Ok(Now()) && CallStep(old(Now()), CallFree(ptr), Now())
    {
      hide PagingOk, InMemory, Walk, PayloadsKept, Tiles, NoAdjacentFree, Free;
      ghost var m := mem[..];
      heap.Kfree(ptr);
      AreasApart(m, mem[..]);
      PagingFrame(m, mem[..], paging.owners);
    }

    method Krealloc(ptr: Word, size: Word, ghost from: Block) returns (newPtr: Word)
      requires Valid() && size <= 0xFFFF_FFFC
      requires ptr != NULL ==> from in Live(heap.blocks) && from.Payload() == ptr
      modifies heap, mem
      ensures Valid() && Ok(Now()) && CallStep(old(Now()), CallRealloc(ptr, size, from), Now())
      ensures newPtr == if ptr != NULL && size == 0 then NULL else Malloc(old(heap.blocks), size).ptr
    {
      hide PagingOk, InMemory, Walk, PayloadsKept, Tiles, NoAdjacentFree, Free, Malloc, Copied;
      ghost var m, bs := mem[..], heap.blocks;
      newPtr := heap.Krealloc(ptr, size, from);
      AreasApart(m, mem[..]);
      PagingFrame(m, mem[..], paging.owners);
      ReallocLive(bs, ptr, size, from);
      PayloadsKeptSome(m, mem[..], Live(bs), from, Live(heap.blocks));
    }

    method MapPage(virtual: Word, physical: Word, flags: Word) returns (ok: bool)
      requires Valid()
      modifies paging, mem
      ensures Valid() && ok && Ok(Now()) && CallStep(old(Now()), CallMap(virtual, physical, flags), Now())
    {
      hide PagingOk, InMemory, Remaps, Tiles, NoAdjacentFree;
      ghost var m := mem[..];
      ok := paging.MapPage(virtual, physical, flags);
      AreasApart(m, mem[..]);
      HeapFrame(m, mem[..], heap.blocks);
    }

    method UnmapPage(virtual: Word) returns (ok: bool)
      requires Valid()
      modifies paging, mem
      ensures Valid() && Ok(Now()) && CallStep(old(Now()), CallUnmap(virtual), Now())
      ensures ok <==> virtual / 0x400000 in paging.owners
    {
      hide PagingOk, InMemory, Remaps, Tiles, NoAdjacentFree;
      ghost var m := mem[..];
      ok := paging.UnmapPage(virtual);
      AreasApart(m, mem[..]);
      HeapFrame(m, mem[..], heap.blocks);
    }

    method AllocPhysicalPage() returns (address: int)
      requires Valid()
      modifies heap, bitmap, mem
      ensures Valid() && Ok(Now()) && CallStep(old(Now()), CallAllocPage, Now())
      ensures address == AllocPage(PagesOf(old(mem[..]))).address
    {
      hide PagingOk, InMemory, PagesOf, Tiles, NoAdjacentFree, AllocPage;
      ghost var m := mem[..];
      address := bitmap.AllocPhysicalPage();
      AreasApart(m, mem[..]);
      HeapFrame(m, mem[..], heap.blocks);
      PagingFrame(m, mem[..], paging.owners);
      if address != 0 {
        heap.UpdateMemoryStats();
      }
    }

    method FreePhysicalPage(address: Word)
      requires Valid()
      modifies heap, bitmap, mem
      ensures Valid() && Ok(Now()) && CallStep(old(Now()), CallFreePage(address), Now())
    {
      hide PagingOk, InMemory, PagesOf, Tiles, NoAdjacentFree, FreePage;
      ghost var m := mem[..];
      bitmap.FreePhysicalPage(address);
      AreasApart(m, mem[..]);
      HeapFrame(m, mem[..], heap.blocks);
      PagingFrame(m, mem[..], paging.owners);
      if address < MAX_PAGES * PAGE_SIZE {
        heap.UpdateMemoryStats();
      }
    }
  }

  /** A block that has been moved or freed by krealloc is no longer in use. */
  lemma ReallocLive(bs: seq<Block>, p: Word, n: Word, from: Block)
    requires HeapOk(bs) && (p != NULL ==> from in Live(bs) && from.Payload() == p)
    ensures p != NULL && (n == 0 || Malloc(bs, n).ptr != 0) ==> from !in Live(Realloc(bs, p, n))
    ensures p == NULL ==> Realloc(bs, p, n) == Malloc(bs, n).blocks
  {
    hide HeapOk, Malloc, Free;
    if p != NULL {
      MallocKeeps(bs, n);
      FreeKeeps(bs, p);
      FreeKeeps(Malloc(bs, n).blocks, p);
    }
  }

  lemma PayloadsKeptSome(m: seq<Byte>, n: seq<Byte>, live: set<Block>, from: Block, after: set<Block>)
    requires |m| == |n| && PayloadsKept(m, n, live - {from})
    requires from in live && from in after ==> PayloadsKept(m, n, live)
    ensures PayloadsKept(m, n, live * after)
  {
  }
}
