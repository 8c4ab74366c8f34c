/** The bitmap of physical pages, as a set of page numbers. */
module PageBitmap {
  import opened Machine

  /** Where init_physical_page_bitmap puts it: at 5 MB. */
  const BITMAP := 0x500000
  const BITMAP_END := 0x502000
  /** bitmap_size: one 32-bit word for each 32 of the 65536 pages of 256 MB. */
  const WORDS := 2048
  const MAX_PAGES := 65536
  /** The first 6 MB. */
  const RESERVED_PAGES := 1536

  // ---------------------------------------------------------------- bits of a word

  function Pow2(j: nat): (r: int)
    ensures r > 0
  {
    if j == 0 then 1 else 2 * Pow2(j - 1)
  }

  /** (w & (1 << j)) != 0 */
  predicate BitSet(w: int, j: nat)
    decreases j
  {
    if j == 0 then w % 2 == 1 else BitSet(w / 2, j - 1)
  }

  lemma HalfThenDivide(w: int, p: int)
    requires 0 <= w && p > 0
    ensures w / 2 / p == w / (2 * p)
  {
    var q := w / 2 / p;
    var r := w / 2 - p * q;
    assert 2 * (p * q) == 2 * p * q;
    assert w == 2 * p * q + (2 * r + w % 2) && 0 <= 2 * r + w % 2 < 2 * p;
    DivideIs(w, 2 * p, q, 2 * r + w % 2);
  }

  lemma DivideIs(x: int, d: int, q: int, r: int)
    requires x == d * q + r && 0 <= r < d
    ensures x / d == q
  {
    MultipleBelow(d, x / d, x % d, q, r);
    MultipleBelow(d, q, r, x / d, x % d);
  }

  lemma MultipleBelow(d: int, a: int, r: int, b: int, s: int)
    requires d * a + r == d * b + s && 0 <= r < d && 0 <= s < d
    ensures a <= b
  {
    var k := a - b - 1;
    assert d * k == d * a - d * b - d;
    assert k >= 0 ==> d * k >= 0;
  }

  /** Digit j is the one of weight 2^j. */
  lemma {:induction false} BitIs(w: int, j: nat)
    requires 0 <= w
    ensures BitSet(w, j) <==> w / Pow2(j) % 2 == 1
    decreases j
  {
    if j > 0 {
      BitIs(w / 2, j - 1);
      HalfThenDivide(w, Pow2(j - 1));
    }
  }

  /** w | (1 << j) or w & ~(1 << j): the word with binary digit j made b. */
  function WithBit(w: int, j: nat, b: bool): (r: int)
    decreases j
  {
    if j == 0 then w - w % 2 + (if b then 1 else 0) else w % 2 + 2 * WithBit(w / 2, j - 1, b)
  }

  /** Making a digit b adds or takes away at most its weight, and changes no other digit. */
  lemma {:induction false} WithBitIs(w: int, j: nat, b: bool, k: nat)
    requires 0 <= w
    ensures WithBit(w, j, b) == if BitSet(w, j) == b then w else if b then w + Pow2(j) else w - Pow2(j)
    ensures BitSet(WithBit(w, j, b), k) == if j == k then b else BitSet(w, k)
    ensures 0 <= WithBit(w, j, b)
  {
    if j > 0 {
      WithBitIs(w / 2, j - 1, b, if k > 0 then k - 1 else j);
    } else {
      assert WithBit(w, 0, b) / 2 == w / 2;
    }
  }

  lemma {:induction false} WithBitBelow(w: int, j: nat, b: bool, n: nat)
    requires 0 <= w < Pow2(n) && j < n
    ensures 0 <= WithBit(w, j, b) < Pow2(n)
  {
    if j > 0 {
      WithBitBelow(w / 2, j - 1, b, n - 1);
    }
  }

  /** A word of all ones has no clear digit, so the scan may skip it. */
  lemma {:induction false} OnesBit(n: nat, j: nat)
    requires j < n
    ensures BitSet(Pow2(n) - 1, j)
  {
    assert (Pow2(n) - 1) / 2 == Pow2(n - 1) - 1;
    if j > 0 {
      OnesBit(n - 1, j - 1);
    }
  }

  lemma {:induction false} ZeroBits(j: nat)
    ensures !BitSet(0, j)
  {
    if j > 0 {
      ZeroBits(j - 1);
    }
  }

  lemma Pow2Of32()
    ensures Pow2(32) == 0x1_0000_0000
  {
    assert Pow2(4) == 16;
    assert Pow2(8) == 16 * Pow2(4);
    assert Pow2(12) == 16 * Pow2(8);
    assert Pow2(16) == 16 * Pow2(12);
    assert Pow2(20) == 16 * Pow2(16);
    assert Pow2(24) == 16 * Pow2(20);
    assert Pow2(28) == 16 * Pow2(24);
    assert Pow2(32) == 16 * Pow2(28);
  }

  // ---------------------------------------------------------------- the set of marked pages

  predicate IsMarked(words: seq<Word>, p: int)
    requires |words| == WORDS && 0 <= p < MAX_PAGES
  {
    BitSet(words[p / 32], p % 32)
  }

  ghost predicate AllMarked(words: seq<Word>, n: int)
    requires |words| == WORDS && n <= MAX_PAGES
  {
    forall p | 0 <= p < n :: IsMarked(words, p)
  }

  ghost function Marked(words: seq<Word>): set<int>
    requires |words| == WORDS
  {
    set p | 0 <= p < MAX_PAGES && IsMarked(words, p)
  }

  /** The words of the bitmap in memory. */
  ghost function Words(m: seq<Byte>): (ws: seq<Word>)
    requires |m| == ADDRESS_SPACE
    ensures |ws| == WORDS && forall i | 0 <= i < WORDS :: ws[i] == LoadWord(m, BITMAP + 4 * i)
  {
    seq(WORDS, i requires 0 <= i < WORDS => LoadWord(m, BITMAP + 4 * i))
  }

  /** The pages marked in memory. */
  ghost function PagesOf(m: seq<Byte>): set<int>
    requires |m| == ADDRESS_SPACE
  {
    Marked(Words(m))
  }

  /** A page is marked exactly if the binary digit page % 32 of word page / 32 at 5 MB is set. */
  lemma MarkedBy(m: seq<Byte>, page: int)
    requires |m| == ADDRESS_SPACE && 0 <= page < 65536
    ensures page in PagesOf(m) <==> LoadWord(m, 0x500000 + 4 * (page / 32)) / Pow2(page % 32) % 2 == 1
  {
    hide LoadWord, BitSet, Pow2;
    BitIs(LoadWord(m, BITMAP + 4 * (page / 32)), page % 32);
  }

  /** Nothing outside the bitmap matters to it. */
  lemma BitmapFrame(m: seq<Byte>, n: seq<Byte>)
    requires |m| == |n| == ADDRESS_SPACE && SameOn(m, n, BITMAP, BITMAP_END)
    ensures Words(m) == Words(n) && PagesOf(m) == PagesOf(n)
  {
    hide LoadWord, Words;
    forall i | 0 <= i < WORDS
      ensures Words(m)[i] == Words(n)[i]
    {
      WordFrame(m, n, BITMAP + 4 * i);
    }
  }

  /** A word of the bitmap was stored: the others stay. */
  lemma WordStored(m: seq<Byte>, n: seq<Byte>, index: int)
    requires |m| == |n| == ADDRESS_SPACE && 0 <= index < WORDS
    requires SameOutside(m, n, BITMAP + 4 * index, BITMAP + 4 * index + 4)
    ensures Words(n) == Words(m)[index := LoadWord(n, BITMAP + 4 * index)]
  {
    hide LoadWord, Words;
    forall i | 0 <= i < WORDS && i != index
      ensures Words(m)[i] == Words(n)[i]
    {
      WordFrame(m, n, BITMAP + 4 * i);
    }
  }

  // ---------------------------------------------------------------- the specification

  /** The least page from p on that is not marked, or MAX_PAGES. */
  function LeastFree(marked: set<int>, p: int): (q: int)
    requires 0 <= p <= MAX_PAGES
    ensures p <= q <= MAX_PAGES
    ensures q < MAX_PAGES ==> q !in marked
    ensures forall r | p <= r < q :: r in marked
    decreases MAX_PAGES - p
  {
    if p == MAX_PAGES || p !in marked then p else LeastFree(marked, p + 1)
  }

  /** What find_free_physical_page answers: 0 stands for none, and for page 0 itself. */
  function FoundPage(marked: set<int>): int
  {
    var q := LeastFree(marked, 0);
    if q == MAX_PAGES then 0 else q
  }

  datatype PageResult = PageResult(marked: set<int>, address: int)

  function AllocPage(marked: set<int>): PageResult
  {
    var page := FoundPage(marked);
    PageResult(if page != 0 then marked + {page} else marked, page * PAGE_SIZE)
  }

  function FreePage(marked: set<int>, address: int): set<int>
    requires 0 <= address
  {
    if address / PAGE_SIZE < MAX_PAGES then marked - {address / PAGE_SIZE} else marked
  }

  /** Allocation takes the least free page, and fails exactly when every page is taken or
      page 0, whose number means failure, is free. */
  lemma AllocPageContract(marked: set<int>)
    requires forall p | p in marked :: 0 <= p < MAX_PAGES
    ensures var r := AllocPage(marked);
            && (r.address == 0 <==> 0 !in marked || forall p | 0 <= p < MAX_PAGES :: p in marked)
            && (r.address == 0 ==> r.marked == marked)
            && (r.address != 0 ==>
                  exists page | 0 < page < MAX_PAGES ::
                    && r.address == page * PAGE_SIZE && page !in marked && r.marked == marked + {page}
                    && forall q | 0 <= q < page :: q in marked)
  {
    var page := FoundPage(marked);
    if page != 0 {
      assert AllocPage(marked).address == page * PAGE_SIZE;
    }
  }

  /** Freeing the page just allocated restores the set. */
  lemma FreeUndoesAlloc(marked: set<int>)
    requires forall p | p in marked :: 0 <= p < MAX_PAGES
    ensures var r := AllocPage(marked); r.address != 0 ==> FreePage(r.marked, r.address) == marked
  {
    var page := FoundPage(marked);
    assert page * PAGE_SIZE / PAGE_SIZE == page;
  }

  function Below(n: int): (s: set<int>)
    ensures forall p :: p in s <==> 0 <= p < n
  {
    if n <= 0 then {} else Below(n - 1) + {n - 1}
  }

  /** The set after n allocations in a row from the initial set. */
  function AllocTimes(n: nat): set<int>
  {
    if n == 0 then Below(RESERVED_PAGES) else AllocPage(AllocTimes(n - 1)).marked
  }

  /** From boot, exactly the 64000 unreserved pages can be had, in address order, once each. */
  lemma {:induction false} AllocTimesIs(n: nat)
    ensures n <= MAX_PAGES - RESERVED_PAGES ==> AllocTimes(n) == Below(RESERVED_PAGES + n)
    ensures n >= MAX_PAGES - RESERVED_PAGES ==> AllocTimes(n) == Below(MAX_PAGES)
    ensures AllocPage(AllocTimes(n)).address ==
            if n < MAX_PAGES - RESERVED_PAGES then (RESERVED_PAGES + n) * PAGE_SIZE else 0
  {
    hide Below, LeastFree;
    if n > 0 {
      AllocTimesIs(n - 1);
    } else {
      AllocBelow(RESERVED_PAGES);
    }
    AllocBelow(if n < MAX_PAGES - RESERVED_PAGES then RESERVED_PAGES + n else MAX_PAGES);
    assert n > 0 ==> AllocTimes(n) == AllocPage(AllocTimes(n - 1)).marked;
    AllocBelow(if 0 < n <= MAX_PAGES - RESERVED_PAGES then RESERVED_PAGES + n - 1 else MAX_PAGES);
  }

  /** One allocation when exactly the pages below n are marked. */
  lemma AllocBelow(n: int)
    requires 0 < n <= MAX_PAGES
    ensures AllocPage(Below(n)) ==
            if n < MAX_PAGES then PageResult(Below(n + 1), n * PAGE_SIZE) else PageResult(Below(n), 0)
  {
    LeastFreeIs(Below(n), 0, n);
    assert n < MAX_PAGES ==> Below(n) + {n} == Below(n + 1);
  }

  datatype PageOp = Take | Give(address: nat)

  /** The set after a run of allocations and frees from boot. */
  function PageRun(ops: seq<PageOp>): set<int>
  {
    if ops == [] then Below(RESERVED_PAGES) else
      var marked := PageRun(ops[..|ops| - 1]);
      match ops[|ops| - 1]
      case Take => AllocPage(marked).marked
      case Give(address) => FreePage(marked, address)
  }

  predicate GivesPageZero(op: PageOp)
  {
    op.Give? && op.address < PAGE_SIZE
  }

  /** At the end of every run allocation fails exactly when all pages are taken or page 0 was
      ever freed: it is the least page, cannot be had back, and from then on hides all others. */
  lemma {:induction false} RunFailsIff(ops: seq<PageOp>)
    ensures forall p | p in PageRun(ops) :: 0 <= p < MAX_PAGES
    ensures 0 in PageRun(ops) <==> forall i | 0 <= i < |ops| :: !GivesPageZero(ops[i])
    ensures AllocPage(PageRun(ops)).address == 0 <==>
            (exists i | 0 <= i < |ops| :: GivesPageZero(ops[i])) || forall p | 0 <= p < MAX_PAGES :: p in PageRun(ops)
  {
    hide Below, LeastFree;
    if ops != [] {
      var before := ops[..|ops| - 1];
      RunFailsIff(before);
      AllocPageContract(PageRun(before));
      assert forall i | 0 <= i < |before| :: ops[i] == before[i];
    }
    AllocPageContract(PageRun(ops));
  }

  // ---------------------------------------------------------------- the bitmap

  class Bitmap {
    const mem: array<Byte>
    var pageAllocations: nat
    var pageDeallocations: nat

    ghost predicate Valid()
      reads this
    {
      mem.Length == ADDRESS_SPACE
    }

    ghost function Pages(): set<int>
      requires Valid()
      reads this, mem
    {
      PagesOf(mem[..])
    }

    /** init_physical_page_bitmap */
    constructor (memory: array<Byte>)
      requires memory.Length == ADDRESS_SPACE
      modifies memory
      ensures Valid() && mem == memory && Pages() == Below(RESERVED_PAGES)
      ensures SameOutside(old(memory[..]), memory[..], BITMAP, BITMAP_END)
    {
      mem := memory;
      pageAllocations, pageDeallocations := 0, 0;
      new;
      Reserve();
    }

    /** The body of init_physical_page_bitmap. */
    method Reserve()
      requires Valid()
      modifies mem
      ensures Pages() == Below(RESERVED_PAGES) && SameOutside(old(mem[..]), mem[..], BITMAP, BITMAP_END)
    {
      hide PagesOf, Below;
      ghost var m := mem[..];
      Memset(mem, BITMAP, 0, WORDS * 4);
      ZeroBitmap(mem[..]);
      assert Below(0) == {};
      for i := 0 to RESERVED_PAGES
        invariant Pages() == Below(i) && SameOutside(m, mem[..], BITMAP, BITMAP_END)
      {
        SetBitmapBit(i, true);
        assert Below(i + 1) == Below(i) + {i};
      }
    }

    method SetBitmapBit(page: int, on: bool)
      requires Valid() && 0 <= page < MAX_PAGES
      modifies mem
      ensures Pages() == if on then old(Pages()) + {page} else old(Pages()) - {page}
      ensures SameOutside(old(mem[..]), mem[..], BITMAP, BITMAP_END)
    {
      hide BitSet, WithBit, Pow2, LoadWord, Words;
      var index, bit := page / 32, page % 32;
      ghost var before := Words(mem[..]);
      ghost var m := mem[..];
      Pow2Of32();
      var w := ReadWord(mem, BITMAP + 4 * index);
      WithBitBelow(w, bit, on, 32);
      WriteWord(mem, BITMAP + 4 * index, WithBit(w, bit, on));
      WordStored(m, mem[..], index);
      BitStored(before, Words(mem[..]), page, on);
    }

    method GetBitmapBit(page: int) returns (on: bool)
      requires Valid() && 0 <= page < MAX_PAGES
      ensures on <==> page in Pages()
    {
      hide LoadWord;
      var w := ReadWord(mem, BITMAP + 4 * (page / 32));
      on := BitSet(w, page % 32);
      assert on <==> IsMarked(Words(mem[..]), page);
    }

    method FindFreePhysicalPage() returns (page: int)
      requires Valid()
      ensures page == FoundPage(Pages())
    {
      hide BitSet, IsMarked, LoadWord, Words;
      ghost var ws := Words(mem[..]);
      for i := 0 to WORDS
        invariant AllMarked(ws, 32 * i)
      {
        var w := ReadWord(mem, BITMAP + 4 * i);
        if w != 0xFFFF_FFFF {
          for j := 0 to 32
            invariant forall k | 0 <= k < j :: BitSet(ws[i], k)
          {
            if !BitSet(w, j) {
              FoundHere(ws, i, j);
              return i * 32 + j;
            }
          }
        } else {
          Pow2Of32();
          forall k | 0 <= k < 32
            ensures BitSet(w, k)
          {
            OnesBit(32, k);
          }
        }
        WordFull(ws, i);
      }
      NoneFound(ws);
      page := 0;
    }

    method AllocPhysicalPage() returns (address: int)
      requires Valid()
      modifies this`pageAllocations, mem
      ensures AllocPage(old(Pages())) == PageResult(Pages(), address)
      ensures pageAllocations == old(pageAllocations) + if address != 0 then 1 else 0
      ensures SameOutside(old(mem[..]), mem[..], BITMAP, BITMAP_END)
    {
      hide PagesOf;
      var page := FindFreePhysicalPage();
      if page != 0 {
        SetBitmapBit(page, true);
        pageAllocations := pageAllocations + 1;
      }
      address := page * PAGE_SIZE;
    }

    method FreePhysicalPage(address: int)
      requires Valid() && 0 <= address < ADDRESS_SPACE
      modifies this`pageDeallocations, mem
      ensures Pages() == FreePage(old(Pages()), address)
      ensures pageDeallocations == old(pageDeallocations) + if address < MAX_PAGES * PAGE_SIZE then 1 else 0
      ensures SameOutside(old(mem[..]), mem[..], BITMAP, BITMAP_END)
    {
      hide PagesOf;
      var page := address / PAGE_SIZE;
      if page < WORDS * 32 {
        SetBitmapBit(page, false);
        pageDeallocations := pageDeallocations + 1;
      }
    }
  }

  /** One bit of one word was made on: one page more or less is marked. */
  lemma BitStored(before: seq<Word>, after: seq<Word>, page: int, on: bool)
    requires |before| == |after| == WORDS && 0 <= page < MAX_PAGES
    requires after == before[page / 32 := after[page / 32]]
    requires after[page / 32] == WithBit(before[page / 32], page % 32, on)
    ensures Marked(after) == if on then Marked(before) + {page} else Marked(before) - {page}
  {
    hide BitSet, WithBit;
    forall p | 0 <= p < MAX_PAGES
      ensures IsMarked(after, p) <==> if p == page then on else IsMarked(before, p)
    {
      WithBitIs(before[page / 32], page % 32, on, p % 32);
    }
  }

  lemma ZeroBitmap(m: seq<Byte>)
    requires |m| == ADDRESS_SPACE && forall a | BITMAP <= a < BITMAP_END :: m[a] == 0
    ensures PagesOf(m) == {}
  {
    hide LoadWord, BitSet, Words;
    forall p | 0 <= p < MAX_PAGES
      ensures !IsMarked(Words(m), p)
    {
      ZeroWordAt(m, p / 32);
      ZeroBits(p % 32);
    }
  }

  lemma ZeroWordAt(m: seq<Byte>, i: int)
    requires |m| == ADDRESS_SPACE && 0 <= i < WORDS && forall a | BITMAP <= a < BITMAP_END :: m[a] == 0
    ensures LoadWord(m, BITMAP + 4 * i) == 0
  {
    var a := BITMAP + 4 * i;
    assert m[a] == m[a + 1] == m[a + 2] == m[a + 3] == 0;
  }

  lemma FoundHere(words: seq<Word>, i: int, j: int)
    requires |words| == WORDS && 0 <= i < WORDS && 0 <= j < 32 && !BitSet(words[i], j)
    requires AllMarked(words, 32 * i)
    requires forall k | 0 <= k < j :: BitSet(words[i], k)
    ensures FoundPage(Marked(words)) == i * 32 + j
  {
    hide BitSet;
    var page := i * 32 + j;
    assert page / 32 == i && page % 32 == j;
    assert page !in Marked(words);
    forall p | 0 <= p < page
      ensures p in Marked(words)
    {
      assert p >= 32 * i ==> p / 32 == i && p % 32 < j;
      assert IsMarked(words, p);
    }
    LeastFreeIs(Marked(words), 0, page);
  }

  lemma {:induction false} LeastFreeIs(marked: set<int>, p: int, q: int)
    requires 0 <= p <= q <= MAX_PAGES && (q < MAX_PAGES ==> q !in marked)
    requires forall r | p <= r < q :: r in marked
    ensures LeastFree(marked, p) == q
    decreases q - p
  {
    if p < q {
      LeastFreeIs(marked, p + 1, q);
    }
  }

  lemma WordFull(words: seq<Word>, i: int)
    requires |words| == WORDS && 0 <= i < WORDS && (forall k | 0 <= k < 32 :: BitSet(words[i], k))
    requires AllMarked(words, 32 * i)
    ensures AllMarked(words, 32 * (i + 1))
  {
    hide BitSet;
    forall p | 0 <= p < 32 * (i + 1)
      ensures IsMarked(words, p)
    {
      assert p >= 32 * i ==> p / 32 == i;
      assert BitSet(words[i], p % 32);
    }
  }

  lemma NoneFound(words: seq<Word>)
    requires |words| == WORDS && AllMarked(words, MAX_PAGES)
    ensures FoundPage(Marked(words)) == 0
  {
    hide IsMarked;
    LeastFreeIs(Marked(words), 0, MAX_PAGES);
  }
}
