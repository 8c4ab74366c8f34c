/** The two-level page directory, walked in memory, as a flat map from page numbers to frames. */
module PageTables {
  import opened Machine
  import opened Sequences

  const ENTRIES := 1024
  const PAGES := 0x100000
  /** current_page_directory */
  const DIRECTORY := 0x1000000
  /** Where create_page_table starts. */
  const FIRST_TABLE := 0x700000
  const TABLES_END := 0xB00000

  datatype Option<T> = None | Some(value: T)

  // ---------------------------------------------------------------- entries

  /** page_entry_t, its bit-fields in order from bit 0. */
  datatype Entry = Entry(present: bool, rw: bool, user: bool, pwt: bool, pcd: bool, accessed: bool, dirty: bool,
                         size: bool, global: bool, available: int, address: int) {
    ghost predicate Fits() { 0 <= available < 8 && 0 <= address < PAGES }
  }

  function Bit(b: bool): (r: int)
    ensures 0 <= r <= 1
  {
    if b then 1 else 0
  }

  /** The word shifted right by k bits. */
  function Shift(w: int, k: nat): int
  {
    if k == 0 then w else Shift(w, k - 1) / 2
  }

  /** Bit k of the word. */
  function Digit(w: int, k: nat): (r: int)
    ensures 0 <= r <= 1
  {
    Shift(w, k) % 2
  }

  function Encode(e: Entry): (w: int)
    requires e.Fits()
    ensures 0 <= w < ADDRESS_SPACE
  {
    hide Bit;
    Bit(e.present) + 2 * Bit(e.rw) + 4 * Bit(e.user) + 8 * Bit(e.pwt) + 16 * Bit(e.pcd) + 32 * Bit(e.accessed)
    + 64 * Bit(e.dirty) + 128 * Bit(e.size) + 256 * Bit(e.global) + 512 * e.available + 4096 * e.address
  }

  function Decode(w: int): (e: Entry)
    requires 0 <= w < ADDRESS_SPACE
    ensures e.Fits()
  {
    hide Shift, Digit;
    ShiftSmall(w);
    Entry(Digit(w, 0) == 1, Digit(w, 1) == 1, Digit(w, 2) == 1, Digit(w, 3) == 1, Digit(w, 4) == 1, Digit(w, 5) == 1,
          Digit(w, 6) == 1, Digit(w, 7) == 1, Digit(w, 8) == 1, Shift(w, 9) % 8, Shift(w, 9) / 8)
  }

  lemma EncodeIs(e: Entry)
    requires e.Fits()
    ensures Encode(e) == 4096 * e.address + 512 * e.available + 256 * Bit(e.global) + 128 * Bit(e.size)
                         + 64 * Bit(e.dirty) + 32 * Bit(e.accessed) + 16 * Bit(e.pcd) + 8 * Bit(e.pwt)
                         + 4 * Bit(e.user) + 2 * Bit(e.rw) + Bit(e.present)
  {
    hide Bit;
  }

  lemma ShiftNext(w: int, k: nat)
    ensures Shift(w, k) == Digit(w, k) + 2 * Shift(w, k + 1)
  {
  }

  lemma ShiftSmall(w: int)
    requires 0 <= w < ADDRESS_SPACE
    ensures 0 <= Shift(w, 9) < 0x80_0000
  {
    hide Shift, Digit;
    ShiftsAddUp(w);
  }

  /** A word is the sum of its bits. */
  lemma ShiftsAddUp(w: int)
    ensures w == Digit(w, 0) + 2 * Digit(w, 1) + 4 * Digit(w, 2) + 8 * Digit(w, 3) + 16 * Digit(w, 4)
                 + 32 * Digit(w, 5) + 64 * Digit(w, 6) + 128 * Digit(w, 7) + 256 * Digit(w, 8) + 512 * Shift(w, 9)
  {
    assert Shift(w, 0) == w;
    hide Shift, Digit;
    ShiftNext(w, 0);
    ShiftNext(w, 1);
    ShiftNext(w, 2);
    ShiftNext(w, 3);
    ShiftNext(w, 4);
    ShiftNext(w, 5);
    ShiftNext(w, 6);
    ShiftNext(w, 7);
    ShiftNext(w, 8);
  }

  /** The bits above bit 8 are the available bits and the address. */
  lemma HighPart(w: int)
    ensures Shift(w, 9) == Shift(w, 9) % 8 + 8 * (Shift(w, 9) / 8) && Shift(w, 9) / 8 == w / 4096
  {
    ShiftsAddUp(w);
    hide Shift, Digit;
    var low := w - 512 * Shift(w, 9);
    assert 0 <= low < 512;
    Quotient(Shift(w, 9), low);
  }

  lemma Quotient(x: int, low: int)
    requires 0 <= low < 512
    ensures x / 8 == (512 * x + low) / 4096
  {
  }

  lemma Peel(w: int, k: nat, b: bool, rest: int)
    requires Shift(w, k) == Bit(b) + 2 * rest
    ensures (Digit(w, k) == 1) == b && Shift(w, k + 1) == rest
  {
  }

  /** Packing an entry into a word and reading its fields loses nothing. */
  lemma DecodeEncode(e: Entry)
    requires e.Fits()
    ensures Decode(Encode(e)) == e
  {
    hide Bit, Shift, Digit, Encode;
    DigitsOfEncoded(e);
  }

  lemma DigitsOfEncoded(e: Entry)
    requires e.Fits()
    ensures var w := Encode(e);
            && (Digit(w, 0) == 1) == e.present && (Digit(w, 1) == 1) == e.rw && (Digit(w, 2) == 1) == e.user
            && (Digit(w, 3) == 1) == e.pwt && (Digit(w, 4) == 1) == e.pcd && (Digit(w, 5) == 1) == e.accessed
            && (Digit(w, 6) == 1) == e.dirty && (Digit(w, 7) == 1) == e.size && (Digit(w, 8) == 1) == e.global
            && Shift(w, 9) == e.available + 8 * e.address
  {
    hide Bit, Shift, Digit, Encode;
    EncodeIs(e);
    var w := Encode(e);
    var r9 := e.available + 8 * e.address;
    var r8 := Bit(e.global) + 2 * r9;
    var r7 := Bit(e.size) + 2 * r8;
    var r6 := Bit(e.dirty) + 2 * r7;
    var r5 := Bit(e.accessed) + 2 * r6;
    var r4 := Bit(e.pcd) + 2 * r5;
    var r3 := Bit(e.pwt) + 2 * r4;
    var r2 := Bit(e.user) + 2 * r3;
    var r1 := Bit(e.rw) + 2 * r2;
    assert w == Bit(e.present) + 2 * r1;
    NoShift(w);
    Peel(w, 0, e.present, r1);
    Peel(w, 1, e.rw, r2);
    Peel(w, 2, e.user, r3);
    Peel(w, 3, e.pwt, r4);
    Peel(w, 4, e.pcd, r5);
    Peel(w, 5, e.accessed, r6);
    Peel(w, 6, e.dirty, r7);
    Peel(w, 7, e.size, r8);
    Peel(w, 8, e.global, r9);
  }

  lemma NoShift(w: int)
    ensures Shift(w, 0) == w
  {
  }

  lemma BitOfDigit(w: int, k: nat)
    ensures Bit(Digit(w, k) == 1) == Digit(w, k)
  {
    hide Digit;
  }

  /** The fields of a word as numbers. */
  lemma DecodeIs(w: Word)
    ensures var e := Decode(w);
            && Bit(e.present) == Digit(w, 0) && Bit(e.rw) == Digit(w, 1) && Bit(e.user) == Digit(w, 2)
            && Bit(e.pwt) == Digit(w, 3) && Bit(e.pcd) == Digit(w, 4) && Bit(e.accessed) == Digit(w, 5)
            && Bit(e.dirty) == Digit(w, 6) && Bit(e.size) == Digit(w, 7) && Bit(e.global) == Digit(w, 8)
            && e.available == Shift(w, 9) % 8 && e.address == w / 4096
  {
    HighPart(w);
    hide Digit, Shift;
  }

  /** Reading the fields of a word and packing them again gives the word. */
  lemma EncodeDecode(w: Word)
    ensures Encode(Decode(w)) == w
  {
    DecodeIs(w);
    ShiftsAddUp(w);
    HighPart(w);
    hide Decode, Digit, Bit, Shift;
  }

  /** Bit k is the digit of weight 2 to the k. */
  lemma DigitIs(w: int)
    ensures Digit(w, 0) == w % 2 && Digit(w, 1) == w / 2 % 2 && Digit(w, 2) == w / 4 % 2 && Digit(w, 8) == w / 256 % 2
  {
    assert Shift(w, 0) == w && Shift(w, 1) == w / 2;
    assert Shift(w, 2) == w / 2 / 2 == w / 4;
    ShiftsAddUp(w);
    ShiftNext(w, 8);
    hide Shift, Digit;
    var low := Digit(w, 0) + 2 * Digit(w, 1) + 4 * Digit(w, 2) + 8 * Digit(w, 3) + 16 * Digit(w, 4)
               + 32 * Digit(w, 5) + 64 * Digit(w, 6) + 128 * Digit(w, 7);
    assert w == 256 * Shift(w, 8) + low;
    Quotient256(Shift(w, 8), low);
    DigitOf(w, 0);
    DigitOf(w, 1);
    DigitOf(w, 2);
    DigitOf(w, 8);
  }

  lemma DigitOf(w: int, k: nat)
    ensures Digit(w, k) == Shift(w, k) % 2
  {
  }

  lemma Quotient256(x: int, low: int)
    requires 0 <= low < 256
    ensures (256 * x + low) / 256 == x
  {
  }

  // ---------------------------------------------------------------- the walk

  ghost function EntryAt(m: seq<Byte>, base: int, i: int): (e: Entry)
    requires 0 <= base && base + PAGE_SIZE <= |m| && 0 <= i < ENTRIES
    ensures e.Fits()
  {
    Decode(LoadWord(m, base + 4 * i))
  }

  /** What a page is mapped to: a frame, and the rights its users have. */
  datatype Target = Target(frame: int, rw: bool, user: bool, global: bool)

  ghost function Leaf(pte: Entry): Option<Target>
  {
    if pte.present then Some(Target(pte.address, pte.rw, pte.user, pte.global)) else None
  }

  /** The processor's two-level walk: both entries must be present, and both must grant a right.
      PagingOk says that no directory entry is one of a 4 MB page. */
  ghost function Walk(m: seq<Byte>, p: int): Option<Target>
    requires |m| == ADDRESS_SPACE && 0 <= p < PAGES
  {
    var pde := EntryAt(m, DIRECTORY, p / ENTRIES);
    if !pde.present then None else
      var pte := EntryAt(m, pde.address * PAGE_SIZE, p % ENTRIES);
      Leaf(pte.(rw := pde.rw && pte.rw, user := pde.user && pte.user))
  }

  /** The word in the directory for its slot d. */
  ghost function DirWord(m: seq<Byte>, d: int): Word
    requires |m| == ADDRESS_SPACE && 0 <= d < ENTRIES
  {
    LoadWord(m, DIRECTORY + 4 * d)
  }

  /** The word the processor finds for page p, or 0 if there is no table for it. */
  ghost function PageWord(m: seq<Byte>, p: int): Word
    requires |m| == ADDRESS_SPACE && 0 <= p < PAGES
  {
    var d := DirWord(m, p / 1024);
    if d % 2 == 0 then 0 else LoadWord(m, d / 4096 * 4096 + 4 * (p % 1024))
  }

  /** The word of page is w in n, and every other page has the word it has in m. */
  ghost predicate Rewrites(m: seq<Byte>, n: seq<Byte>, page: int, w: int)
  {
    && |m| == |n| == ADDRESS_SPACE
    && forall p | 0 <= p < PAGES :: PageWord(n, p) == if p == page then w else PageWord(m, p)
  }

  /** n maps page to target, and every other page as m does. */
  ghost predicate Remaps(m: seq<Byte>, n: seq<Byte>, page: int, target: Option<Target>)
  {
    && |m| == |n| == ADDRESS_SPACE
    && forall p | 0 <= p < PAGES :: Walk(n, p) == if p == page then target else Walk(m, p)
  }

  function TableAddr(k: int): int
  {
    FIRST_TABLE + PAGE_SIZE * k
  }

  /** The directory entry of the k-th table made. */
  ghost predicate Installed(e: Entry, k: int)
  {
    e.present && e.rw && e.user && !e.size && e.address * PAGE_SIZE == TableAddr(k)
  }

  /** owners lists the directory slots in the order their tables were made: exactly these
      slots are present, granting every right, and the k-th table made is the k-th page from
      FIRST_TABLE on. */
  ghost predicate PagingOk(m: seq<Byte>, owners: seq<int>)
  {
    && |m| == ADDRESS_SPACE
    && NoDup(owners)
    && (forall k | 0 <= k < |owners| :: 0 <= owners[k] < ENTRIES)
    && (forall d | 0 <= d < ENTRIES :: EntryAt(m, DIRECTORY, d).present <==> d in owners)
    && (forall d | 0 <= d < ENTRIES :: !EntryAt(m, DIRECTORY, d).size)
    && (forall k | 0 <= k < |owners| :: Installed(EntryAt(m, DIRECTORY, owners[k]), k))
    && (forall d | 0 <= d < ENTRIES && d !in owners :: DirWord(m, d) == 0)
    && (forall k | 0 <= k < |owners| :: DirWord(m, owners[k]) == TableAddr(k) + 7)
  }

  ghost predicate SameExceptPaging(m: seq<Byte>, n: seq<Byte>)
  {
    && |m| == |n|
    && forall a | 0 <= a < |m| && !(FIRST_TABLE <= a < TABLES_END) && !(DIRECTORY <= a < DIRECTORY + PAGE_SIZE) ::
         m[a] == n[a]
  }

  // ---------------------------------------------------------------- the bound on tables

  /** There are never more than 1024 tables, so they end below 0xB00000 and stay clear of the
      directory; distinct directory slots have distinct tables. */
  lemma TablesBounded(m: seq<Byte>, owners: seq<int>)
    requires PagingOk(m, owners)
    ensures |owners| <= ENTRIES
    ensures TableAddr(|owners|) <= TABLES_END < DIRECTORY
    ensures forall d | 0 <= d < ENTRIES && EntryAt(m, DIRECTORY, d).present ::
              FIRST_TABLE <= EntryAt(m, DIRECTORY, d).address * PAGE_SIZE < TableAddr(|owners|)
    ensures forall d, e | 0 <= d < e < ENTRIES &&
                          EntryAt(m, DIRECTORY, d).present && EntryAt(m, DIRECTORY, e).present ::
              EntryAt(m, DIRECTORY, d).address != EntryAt(m, DIRECTORY, e).address
  {
    hide EntryAt;
    NoDupLength(owners, ENTRIES);
  }

  // ---------------------------------------------------------------- frames

  lemma EntryFrame(m: seq<Byte>, n: seq<Byte>, base: int, i: int)
    requires |m| == |n| && 0 <= base && base + PAGE_SIZE <= |m| && 0 <= i < ENTRIES
    requires SameOn(m, n, base + 4 * i, base + 4 * i + 4)
    ensures EntryAt(m, base, i) == EntryAt(n, base, i)
  {
    hide Decode;
  }

  method GetEntry(mem: array<Byte>, base: int, i: int) returns (e: Entry)
    requires 0 <= base && base + PAGE_SIZE <= mem.Length && 0 <= i < ENTRIES
    ensures e == EntryAt(mem[..], base, i)
  {
    var w := ReadWord(mem, base + 4 * i);
    e := Decode(w);
  }

  method PutEntry(mem: array<Byte>, base: int, i: int, e: Entry)
    requires 0 <= base && base + PAGE_SIZE <= mem.Length && 0 <= i < ENTRIES && e.Fits()
    modifies mem
    ensures EntryAt(mem[..], base, i) == e && LoadWord(mem[..], base + 4 * i) == Encode(e)
    ensures SameOutside(old(mem[..]), mem[..], base + 4 * i, base + 4 * i + 4)
  {
    hide Decode, Encode;
    DecodeEncode(e);
    WriteWord(mem, base + 4 * i, Encode(e));
  }

  /** An entry of the table of directory slot owners[k] was set: only that page is remapped. */
  lemma EntrySet(m: seq<Byte>, n: seq<Byte>, owners: seq<int>, k: nat, i: int)
    requires PagingOk(m, owners) && k < |owners| && 0 <= i < ENTRIES
    requires SameOutside(m, n, TableAddr(k) + 4 * i, TableAddr(k) + 4 * i + 4)
    ensures PagingOk(n, owners) && SameExceptPaging(m, n)
    ensures TableAddr(k) + PAGE_SIZE <= TABLES_END
    ensures Remaps(m, n, owners[k] * ENTRIES + i, Leaf(EntryAt(n, TableAddr(k), i)))
  {
    hide EntryAt, DirWord;
    TablesBounded(m, owners);
    DirWordsKept(m, n);
    forall d | 0 <= d < ENTRIES
      ensures EntryAt(m, DIRECTORY, d) == EntryAt(n, DIRECTORY, d)
    {
      EntryFrame(m, n, DIRECTORY, d);
    }
    forall p | 0 <= p < PAGES
      ensures Walk(n, p) == if p == owners[k] * ENTRIES + i then Leaf(EntryAt(n, TableAddr(k), i)) else Walk(m, p)
    {
      var d := p / ENTRIES;
      var pde := EntryAt(m, DIRECTORY, d);
      if pde.present && p != owners[k] * ENTRIES + i {
        var j :| 0 <= j < |owners| && owners[j] == d;
        EntryFrame(m, n, TableAddr(j), p % ENTRIES);
      }
    }
  }

  lemma DirWordsKept(m: seq<Byte>, n: seq<Byte>)
    requires |m| == |n| == ADDRESS_SPACE && SameOn(m, n, DIRECTORY, DIRECTORY + PAGE_SIZE)
    ensures forall d | 0 <= d < ENTRIES :: DirWord(m, d) == DirWord(n, d)
  {
    hide LoadWord;
    forall d | 0 <= d < ENTRIES
      ensures DirWord(m, d) == DirWord(n, d)
    {
      WordFrame(m, n, DIRECTORY + 4 * d);
    }
  }

  /** The same for the words. */
  lemma WordSet(m: seq<Byte>, n: seq<Byte>, owners: seq<int>, k: nat, i: int)
    requires PagingOk(m, owners) && k < |owners| && 0 <= i < ENTRIES
    requires SameOutside(m, n, TableAddr(k) + 4 * i, TableAddr(k) + 4 * i + 4)
    ensures TableAddr(k) + PAGE_SIZE <= TABLES_END
    ensures Rewrites(m, n, owners[k] * ENTRIES + i, LoadWord(n, TableAddr(k) + 4 * i))
  {
    hide EntryAt, LoadWord, DirWord, Installed;
    TablesBounded(m, owners);
    DirWordsKept(m, n);
    forall p | 0 <= p < PAGES
      ensures PageWord(n, p) ==
              if p == owners[k] * ENTRIES + i then LoadWord(n, TableAddr(k) + 4 * i) else PageWord(m, p)
    {
      if p / 1024 in owners {
        var j :| 0 <= j < |owners| && owners[j] == p / 1024;
        TableOfWord(j);
        if p != owners[k] * ENTRIES + i {
          WordFrame(m, n, TableAddr(j) + 4 * (p % 1024));
        }
      }
    }
  }

  lemma TableOfWord(k: nat)
    ensures (TableAddr(k) + 7) % 2 == 1 && (TableAddr(k) + 7) / 4096 * 4096 == TableAddr(k)
  {
  }

  lemma WordsAdded(m: seq<Byte>, n: seq<Byte>, owners: seq<int>, d: int)
    requires PagingOk(m, owners) && 0 <= d < ENTRIES && d !in owners
    requires |m| == |n| && TableAddr(|owners|) + PAGE_SIZE <= TABLES_END
    requires forall a | 0 <= a < |m| && !(TableAddr(|owners|) <= a < TableAddr(|owners|) + PAGE_SIZE)
                                     && !(DIRECTORY + 4 * d <= a < DIRECTORY + 4 * d + 4) :: m[a] == n[a]
    requires forall i | 0 <= i < ENTRIES :: LoadWord(n, TableAddr(|owners|) + 4 * i) == 0
    requires DirWord(n, d) == TableAddr(|owners|) + 7
    ensures forall c | 0 <= c < ENTRIES && c != d :: DirWord(n, c) == DirWord(m, c)
    ensures forall p | 0 <= p < PAGES :: PageWord(n, p) == PageWord(m, p)
  {
    hide EntryAt, LoadWord, Installed;
    TablesBounded(m, owners);
    forall c | 0 <= c < ENTRIES && c != d
      ensures DirWord(m, c) == DirWord(n, c)
    {
      WordFrame(m, n, DIRECTORY + 4 * c);
    }
    hide DirWord;
    forall p | 0 <= p < PAGES
      ensures PageWord(n, p) == PageWord(m, p)
    {
      TableOfWord(|owners|);
      if p / 1024 in owners {
        var j :| 0 <= j < |owners| && owners[j] == p / 1024;
        TableOfWord(j);
        WordFrame(m, n, TableAddr(j) + 4 * (p % 1024));
      }
    }
  }

  /** A zeroed table was installed in the absent directory slot d: no page is remapped. */
  lemma TableAdded(m: seq<Byte>, n: seq<Byte>, owners: seq<int>, d: int)
    requires PagingOk(m, owners) && 0 <= d < ENTRIES && d !in owners
    requires |m| == |n| && TableAddr(|owners|) + PAGE_SIZE <= TABLES_END
    requires forall a | 0 <= a < |m| && !(TableAddr(|owners|) <= a < TableAddr(|owners|) + PAGE_SIZE)
                                     && !(DIRECTORY + 4 * d <= a < DIRECTORY + 4 * d + 4) :: m[a] == n[a]
    requires forall i | 0 <= i < ENTRIES :: !EntryAt(n, TableAddr(|owners|), i).present
    requires Installed(EntryAt(n, DIRECTORY, d), |owners|) && DirWord(n, d) == TableAddr(|owners|) + 7
    requires forall c | 0 <= c < ENTRIES && c != d :: DirWord(n, c) == DirWord(m, c)
    ensures PagingOk(n, owners + [d]) && SameExceptPaging(m, n)
    ensures forall p | 0 <= p < PAGES :: Walk(n, p) == Walk(m, p)
  {
    hide EntryAt, DirWord, Walk;
    TablesBounded(m, owners);
    forall c | 0 <= c < ENTRIES && c != d
      ensures EntryAt(m, DIRECTORY, c) == EntryAt(n, DIRECTORY, c)
    {
      EntryFrame(m, n, DIRECTORY, c);
    }
    forall p | 0 <= p < PAGES
      ensures Walk(n, p) == Walk(m, p)
    {
      WalkKept(m, n, owners, d, p);
    }
  }

  lemma WalkKept(m: seq<Byte>, n: seq<Byte>, owners: seq<int>, d: int, p: int)
    requires PagingOk(m, owners) && 0 <= d < ENTRIES && d !in owners && 0 <= p < PAGES
    requires |m| == |n| && TableAddr(|owners|) + PAGE_SIZE <= TABLES_END
    requires forall a | 0 <= a < |m| && !(TableAddr(|owners|) <= a < TableAddr(|owners|) + PAGE_SIZE)
                                     && !(DIRECTORY + 4 * d <= a < DIRECTORY + 4 * d + 4) :: m[a] == n[a]
    requires forall i | 0 <= i < ENTRIES :: !EntryAt(n, TableAddr(|owners|), i).present
    requires Installed(EntryAt(n, DIRECTORY, d), |owners|)
    ensures Walk(n, p) == Walk(m, p)
  {
    hide EntryAt, DirWord;
    TablesBounded(m, owners);
    var c := p / ENTRIES;
    if c != d {
      EntryFrame(m, n, DIRECTORY, c);
      if EntryAt(m, DIRECTORY, c).present {
        var j :| 0 <= j < |owners| && owners[j] == c;
        EntryFrame(m, n, TableAddr(j), p % ENTRIES);
      }
    }
  }

  // ---------------------------------------------------------------- the operations

  const PAGE_PRESENT: Word := 0x1
  const PAGE_WRITABLE: Word := 0x2
  const PAGE_USER: Word := 0x4
  const PAGE_GLOBAL: Word := 0x100

  /** (flags & flag) != 0, for a single-bit flag. */
  predicate HasFlag(flags: Word, flag: Word)
    requires flag != 0
  {
    flags / flag % 2 == 1
  }

  ghost function Mapping(physical: Word, flags: Word): Option<Target>
  {
    if !HasFlag(flags, PAGE_PRESENT) then None else
      Some(Target(physical / PAGE_SIZE,
                  HasFlag(flags, PAGE_WRITABLE), HasFlag(flags, PAGE_USER), HasFlag(flags, PAGE_GLOBAL)))
  }

  /** The word map_page leaves for a page whose word was w: the frame of the physical address, bits 0,
      1, 2 and 8 from the flags, and the others as they were. */
  ghost function MappedWord(w: Word, physical: Word, flags: Word): int
  {
    4096 * (physical / 4096) + 512 * (Shift(w, 9) % 8) + 256 * Digit(flags, 8)
    + 128 * Digit(w, 7) + 64 * Digit(w, 6) + 32 * Digit(w, 5) + 16 * Digit(w, 4) + 8 * Digit(w, 3)
    + 4 * Digit(flags, 2) + 2 * Digit(flags, 1) + Digit(flags, 0)
  }

  function MappedEntry(e: Entry, physical: Word, flags: Word): Entry
  {
    e.(address := physical / PAGE_SIZE, present := HasFlag(flags, PAGE_PRESENT),
       rw := HasFlag(flags, PAGE_WRITABLE), user := HasFlag(flags, PAGE_USER), global := HasFlag(flags, PAGE_GLOBAL))
  }

  lemma MappedWordIs(w: Word, physical: Word, flags: Word)
    ensures var e := MappedEntry(Decode(w), physical, flags);
            e.Fits() && Encode(e) == MappedWord(w, physical, flags)
  {
    hide Decode, Digit, Bit, HasFlag, Shift, Encode, MappedWord;
    DecodeIs(w);
    FlagDigits(flags);
    var d := Decode(w);
    var e := MappedEntry(d, physical, flags);
    EncodeIs(e);
    SameSum(e, w, physical, flags);
  }

  lemma SameSum(e: Entry, w: Word, physical: Word, flags: Word)
    requires e.address == physical / 4096 && e.available == Shift(w, 9) % 8
    requires Bit(e.global) == Digit(flags, 8) && Bit(e.user) == Digit(flags, 2)
    requires Bit(e.rw) == Digit(flags, 1) && Bit(e.present) == Digit(flags, 0)
    requires Bit(e.size) == Digit(w, 7) && Bit(e.dirty) == Digit(w, 6) && Bit(e.accessed) == Digit(w, 5)
    requires Bit(e.pcd) == Digit(w, 4) && Bit(e.pwt) == Digit(w, 3)
    ensures MappedWord(w, physical, flags) ==
            4096 * e.address + 512 * e.available + 256 * Bit(e.global)
            + 128 * Bit(e.size) + 64 * Bit(e.dirty) + 32 * Bit(e.accessed) + 16 * Bit(e.pcd) + 8 * Bit(e.pwt)
            + 4 * Bit(e.user) + 2 * Bit(e.rw) + Bit(e.present)
  {
    hide Bit, Digit, Shift;
  }

  /** In particular the frame and the four bits, as numbers. */
  lemma MappedWordBits(w: Word, physical: Word, flags: Word)
    ensures var v := MappedWord(w, physical, flags);
            && 0 <= v < ADDRESS_SPACE && v / 4096 == physical / 4096
            && v % 2 == flags % 2 && v / 2 % 2 == flags / 2 % 2 && v / 4 % 2 == flags / 4 % 2
            && v / 256 % 2 == flags / 256 % 2
  {
    hide Decode, Digit, Bit, HasFlag, Shift, Encode, MappedWord;
    MappedWordIs(w, physical, flags);
    var e := MappedEntry(Decode(w), physical, flags);
    DecodeEncode(e);
    DecodeIs(Encode(e));
    FlagDigits(flags);
    DigitIs(Encode(e));
    DigitIs(flags);
  }

  /** A well-formed page directory translates a page as its word says: bit 0 is present, bit 1
      writable, bit 2 user, bit 8 global, and the bits from 12 on are the frame. */
  lemma WalkIsWord(m: seq<Byte>, owners: seq<int>, p: int)
    requires PagingOk(m, owners) && 0 <= p < PAGES
    ensures var w := PageWord(m, p);
            Walk(m, p) == if w % 2 == 0 then None
                          else Some(Target(w / 4096, w / 2 % 2 == 1, w / 4 % 2 == 1, w / 256 % 2 == 1))
  {
    hide Decode, LoadWord, Digit, Shift;
    TablesBounded(m, owners);
    if p / 1024 in owners {
      var k :| 0 <= k < |owners| && owners[k] == p / 1024;
      TableOfWord(k);
      WordOfPage(m, owners, k, p % 1024);
      EntryIsWord(m, TableAddr(k), p % 1024);
      var w := PageWord(m, p);
      DecodeIs(w);
      DigitIs(w);
      assert Installed(EntryAt(m, DIRECTORY, p / 1024), k);
    }
  }

  lemma FlagDigits(flags: Word)
    ensures Bit(HasFlag(flags, PAGE_PRESENT)) == Digit(flags, 0)
    ensures Bit(HasFlag(flags, PAGE_WRITABLE)) == Digit(flags, 1)
    ensures Bit(HasFlag(flags, PAGE_USER)) == Digit(flags, 2)
    ensures Bit(HasFlag(flags, PAGE_GLOBAL)) == Digit(flags, 8)
  {
    DigitIs(flags);
    hide Digit;
  }

  /** Clearing the present bit. */
  lemma UnmappedWordIs(w: Word)
    ensures Encode(Decode(w).(present := false)) == w - w % 2
  {
    EncodeDecode(w);
    DecodeIs(w);
    DigitIs(w);
    hide Decode, Digit, Shift;
  }

  /** The word of page p after paging_init. */
  ghost function InitialWord(p: int): int
  {
    if p >= 1024 then 0 else if 0x100 <= p < 0x200 then p * 4096 + 0x003 else p * 4096 + 0x103
  }

  /** What paging_init maps page p to: the first 4 MB to themselves, the kernel's 1 MB not globally. */
  ghost function Initial(p: int): Option<Target>
  {
    if p < ENTRIES then Some(Target(p, true, false, !(0x100 <= p < 0x200))) else None
  }

  class Paging {
    const mem: array<Byte>
    /** The static bump pointer of create_page_table. */
    var nextTable: Word
    ghost var owners: seq<int>

    ghost predicate Valid()
      reads this, mem
    {
      mem.Length == ADDRESS_SPACE && PagingOk(mem[..], owners) && nextTable == TableAddr(|owners|)
    }

    /** paging_init: the first 4 MB are mapped to themselves, and nothing else is mapped. */
    constructor (memory: array<Byte>)
      requires memory.Length == ADDRESS_SPACE
      modifies memory
      ensures Valid() && mem == memory && owners == [0]
      ensures SameExceptPaging(old(memory[..]), memory[..])
      ensures forall p | 0 <= p < PAGES ::
                Walk(memory[..], p) == Initial(p) && PageWord(memory[..], p) == InitialWord(p)
    {
      mem := memory;
      nextTable := FIRST_TABLE;
      owners := [];
      new;
      SetUp();
    }

    method SetUp()
      requires mem.Length == ADDRESS_SPACE && nextTable == FIRST_TABLE && owners == []
      modifies this`nextTable, this`owners, mem
      ensures Valid() && owners == [0]
      ensures SameExceptPaging(old(mem[..]), mem[..])
      ensures forall p | 0 <= p < PAGES :: Walk(mem[..], p) == Initial(p) && PageWord(mem[..], p) == InitialWord(p)
    {
      hide EntryAt, Walk, PagingOk, LoadWord, PageWord, MappedWord;
      ghost var m := mem[..];
      Memset(mem, DIRECTORY, 0, PAGE_SIZE);
      EmptyDirectory(mem[..]);
      // setup_identity_paging, then setup_kernel_paging
      MapIdentity(0, 1024, PAGE_PRESENT + PAGE_WRITABLE + PAGE_GLOBAL);
      MapIdentity(0x100000, 0x100000 / PAGE_SIZE, PAGE_PRESENT + PAGE_WRITABLE);
      forall p | 0 <= p < 1024
        ensures PageWord(mem[..], p) == InitialWord(p)
      {
        StartWord(p);
      }
    }

    /** The loop of setup_identity_paging and setup_kernel_paging: map pages of the first 4 MB to themselves. */
    method MapIdentity(start: Word, pages: nat, flags: Word)
      requires Valid() && start % PAGE_SIZE == 0 && start + pages * PAGE_SIZE <= 0x400000 && 0 < pages
      modifies this`nextTable, this`owners, mem
      ensures Valid() && SameExceptPaging(old(mem[..]), mem[..])
      ensures owners == if 0 in old(owners) then old(owners) else old(owners) + [0]
      ensures var first := start / PAGE_SIZE;
              forall p | 0 <= p < PAGES ::
                if first <= p < first + pages
                then Walk(mem[..], p) == Mapping(p * PAGE_SIZE, flags) &&
                     PageWord(mem[..], p) == MappedWord(PageWord(old(mem[..]), p), p * PAGE_SIZE, flags)
                else Walk(mem[..], p) == Walk(old(mem[..]), p) && PageWord(mem[..], p) == PageWord(old(mem[..]), p)
    {
      hide Walk, EntryAt, PagingOk, PageWord, MappedWord, LoadWord, Mapping;
      ghost var m, first := mem[..], start / PAGE_SIZE;
      for i := 0 to pages
        invariant Valid() && SameExceptPaging(m, mem[..])
        invariant owners == if 0 in old(owners) || i == 0 then old(owners) else old(owners) + [0]
        invariant forall p | 0 <= p < PAGES ::
                    if first <= p < first + i
                    then Walk(mem[..], p) == Mapping(p * PAGE_SIZE, flags) &&
                         PageWord(mem[..], p) == MappedWord(PageWord(m, p), p * PAGE_SIZE, flags)
                    else Walk(mem[..], p) == Walk(m, p) && PageWord(mem[..], p) == PageWord(m, p)
      {
        ghost var before := mem[..];
        var address: Word := start + i * PAGE_SIZE;
        assert address / PAGE_SIZE == first + i && address / 0x400000 == 0 && address == (first + i) * PAGE_SIZE;
        var _ := MapPage(address, address, flags);
        assert PageWord(before, first + i) == PageWord(m, first + i);
      }
    }

    /** create_page_table */
    method CreatePageTable() returns (table: Word)
      requires mem.Length == ADDRESS_SPACE && nextTable + PAGE_SIZE <= TABLES_END
      modifies this`nextTable, mem
      ensures table == old(nextTable) && nextTable == old(nextTable) + PAGE_SIZE
      ensures SameOutside(old(mem[..]), mem[..], table, table + PAGE_SIZE)
      ensures forall i | 0 <= i < ENTRIES :: LoadWord(mem[..], table + 4 * i) == 0
    {
      hide LoadWord;
      table := nextTable;
      nextTable := (nextTable + PAGE_SIZE) % ADDRESS_SPACE;
      Memset(mem, table, 0, PAGE_SIZE);
      ZeroWords(mem[..], table);
    }

    /** The first half of map_page: make the table of directory slot d if there is none. */
    method EnsureTable(d: int) returns (table: Word)
      requires Valid() && 0 <= d < ENTRIES
      modifies this`nextTable, this`owners, mem
      ensures Valid() && SameExceptPaging(old(mem[..]), mem[..])
      ensures owners == if d in old(owners) then old(owners) else old(owners) + [d]
      ensures forall k | 0 <= k < |owners| && owners[k] == d :: table == TableAddr(k)
      ensures forall p | 0 <= p < PAGES ::
                Walk(mem[..], p) == Walk(old(mem[..]), p) && PageWord(mem[..], p) == PageWord(old(mem[..]), p)
    {
      hide EntryAt, Encode, Decode, Walk, LoadWord, DirWord, PageWord;
      ghost var m := mem[..];
      var pde := GetEntry(mem, DIRECTORY, d);
      if !pde.present {
        MoreRoom(m, owners, d);
        var pt := CreatePageTable();
        ghost var m1 := mem[..];
        EntryFrame(m, m1, DIRECTORY, d);
        PutEntry(mem, DIRECTORY, d, pde.(address := pt / PAGE_SIZE, present := true, rw := true, user := true));
        NewTable(m, m1, mem[..], owners, d, pde);
        owners := owners + [d];
      }
      pde := GetEntry(mem, DIRECTORY, d);
      assert d in owners;
      table := pde.address * PAGE_SIZE;
    }

    /** The entry for page i of the k-th table is read. */
    method ReadSlot(table: Word, i: int, ghost k: nat) returns (e: Entry)
      requires Valid() && k < |owners| && table == TableAddr(k) && 0 <= i < ENTRIES
      ensures 0 <= owners[k] * ENTRIES + i < PAGES && e == Decode(PageWord(mem[..], owners[k] * ENTRIES + i))
    {
      hide Decode, LoadWord, PageWord;
      WordOfPage(mem[..], owners, k, i);
      e := GetEntry(mem, table, i);
    }

    /** The entry for page i of the k-th table is written. */
    method WriteSlot(table: Word, i: int, e: Entry, ghost k: nat)
      requires Valid() && k < |owners| && table == TableAddr(k) && 0 <= i < ENTRIES && e.Fits()
      modifies mem
      ensures Valid() && SameExceptPaging(old(mem[..]), mem[..])
      ensures Remaps(old(mem[..]), mem[..], owners[k] * ENTRIES + i, Leaf(e))
      ensures Rewrites(old(mem[..]), mem[..], owners[k] * ENTRIES + i, Encode(e))
    {
      hide EntryAt, Encode, Walk, LoadWord, PageWord, PagingOk;
      ghost var m := mem[..];
      TablesBounded(m, owners);
      TableAddrUpTo(k, |owners|);
      PutEntry(mem, table, i, e);
      EntrySet(m, mem[..], owners, k, i);
      WordSet(m, mem[..], owners, k, i);
    }

    method MapPage(virtual: Word, physical: Word, flags: Word) returns (ok: bool)
      requires Valid()
      modifies this`nextTable, this`owners, mem
      ensures Valid() && ok && SameExceptPaging(old(mem[..]), mem[..])
      ensures Remaps(old(mem[..]), mem[..], virtual / PAGE_SIZE, Mapping(physical, flags))
      ensures var page := virtual / PAGE_SIZE;
              Rewrites(old(mem[..]), mem[..], page, MappedWord(PageWord(old(mem[..]), page), physical, flags))
      ensures var d := virtual / 0x400000; owners == if d in old(owners) then old(owners) else old(owners) + [d]
    {
      hide Encode, Decode, Walk, PageWord, MappedWord, PagingOk, Remaps, Rewrites, SameExceptPaging, MappedEntry, Leaf;
      ghost var m0 := mem[..];
      PageSplit(virtual);
      var d := virtual / 0x400000 % ENTRIES;
      var i := virtual / PAGE_SIZE % ENTRIES;
      var table := EnsureTable(d);
      ghost var k :| 0 <= k < |owners| && owners[k] == d;
      ghost var m := mem[..];
      var e := ReadSlot(table, i, k);
      MappedWordIs(PageWord(m, virtual / PAGE_SIZE), physical, flags);
      LeafOfMapped(e, physical, flags);
      WriteSlot(table, i, MappedEntry(e, physical, flags), k);
      AfterSame(m0, m, mem[..], virtual / PAGE_SIZE, Mapping(physical, flags),
                MappedWord(PageWord(m, virtual / PAGE_SIZE), physical, flags));
      ok := true;
    }

    method UnmapPage(virtual: Word) returns (ok: bool)
      requires Valid()
      modifies mem
      ensures Valid() && SameExceptPaging(old(mem[..]), mem[..])
      ensures Remaps(old(mem[..]), mem[..], virtual / PAGE_SIZE, None)
      ensures var page := virtual / PAGE_SIZE; var w := PageWord(old(mem[..]), page);
              Rewrites(old(mem[..]), mem[..], page, w - w % 2)
      ensures ok <==> virtual / 0x400000 in owners
    {
      hide Encode, Decode, LoadWord, EntryAt, DirWord;
      PageSplit(virtual);
      var d := virtual / 0x400000 % ENTRIES;
      var i := virtual / PAGE_SIZE % ENTRIES;
      var pde := GetEntry(mem, DIRECTORY, d);
      if !pde.present {
        return false;
      }
      hide Walk, PageWord, Remaps, Rewrites, SameExceptPaging;
      ghost var k :| 0 <= k < |owners| && owners[k] == d;
      var table := pde.address * PAGE_SIZE;
      var e := ReadSlot(table, i, k);
      UnmappedWordIs(PageWord(mem[..], virtual / PAGE_SIZE));
      WriteSlot(table, i, e.(present := false), k);
      ok := true;
    }

    /** 0 stands for an unmapped address, and is also the translation of an address mapped to
        the first byte of frame 0. */
    method GetPhysicalAddress(virtual: Word) returns (physical: Word)
      requires Valid()
      ensures match Walk(mem[..], virtual / PAGE_SIZE)
              case None => physical == 0
              case Some(target) => physical == target.frame * PAGE_SIZE + virtual % PAGE_SIZE
    {
      hide EntryAt, Encode, Decode;
      var d := virtual / 0x400000 % ENTRIES;
      var i := virtual / PAGE_SIZE % ENTRIES;
      PageSplit(virtual);
      var pde := GetEntry(mem, DIRECTORY, d);
      if !pde.present {
        return 0;
      }
      var pte := GetEntry(mem, pde.address * PAGE_SIZE, i);
      if !pte.present {
        return 0;
      }
      physical := pte.address * PAGE_SIZE + virtual % PAGE_SIZE;
    }
  }

  lemma ZeroTable(m: seq<Byte>, table: int)
    requires 0 <= table && table + PAGE_SIZE <= |m|
    requires forall a | table <= a < table + PAGE_SIZE :: m[a] == 0
    ensures forall i | 0 <= i < ENTRIES :: !EntryAt(m, table, i).present && !EntryAt(m, table, i).size
  {
    hide EntryAt;
    forall i | 0 <= i < ENTRIES
      ensures !EntryAt(m, table, i).present && !EntryAt(m, table, i).size
    {
      ZeroEntry(m, table, i);
    }
  }

  lemma ZeroEntry(m: seq<Byte>, table: int, i: int)
    requires 0 <= table && table + PAGE_SIZE <= |m| && 0 <= i < ENTRIES
    requires forall a | table <= a < table + PAGE_SIZE :: m[a] == 0
    ensures !EntryAt(m, table, i).present && !EntryAt(m, table, i).size
  {
    hide LoadWord, Decode;
    ZeroWord(m, table, 4 * i);
    ZeroAbsent();
  }

  lemma ZeroWord(m: seq<Byte>, table: int, offset: int)
    requires 0 <= table && table + PAGE_SIZE <= |m| && 0 <= offset <= PAGE_SIZE - 4
    requires forall a | table <= a < table + PAGE_SIZE :: m[a] == 0
    ensures LoadWord(m, table + offset) == 0
  {
    var a := table + offset;
    assert m[a] == m[a + 1] == m[a + 2] == m[a + 3] == 0;
  }

  lemma ZeroAbsent()
    ensures !Decode(0).present && !Decode(0).size
  {
  }

  lemma ZeroWords(m: seq<Byte>, table: int)
    requires 0 <= table && table + PAGE_SIZE <= |m|
    requires forall a | table <= a < table + PAGE_SIZE :: m[a] == 0
    ensures forall i | 0 <= i < ENTRIES :: LoadWord(m, table + 4 * i) == 0
  {
    hide LoadWord;
    forall i | 0 <= i < ENTRIES
      ensures LoadWord(m, table + 4 * i) == 0
    {
      ZeroWord(m, table, 4 * i);
    }
  }

  lemma EntryIsWord(m: seq<Byte>, base: int, i: int)
    requires 0 <= base && base + PAGE_SIZE <= |m| && 0 <= i < ENTRIES
    ensures EntryAt(m, base, i) == Decode(LoadWord(m, base + 4 * i))
  {
  }

  lemma TableAddrUpTo(k: nat, n: nat)
    requires k < n && TableAddr(n) <= TABLES_END
    ensures TableAddr(k) + PAGE_SIZE <= TABLES_END
  {
  }

  lemma LeafOfMapped(e: Entry, physical: Word, flags: Word)
    ensures Leaf(MappedEntry(e, physical, flags)) == Mapping(physical, flags)
  {
    hide HasFlag;
  }

  /** A page is remapped in a memory that translates as m0 does. */
  lemma AfterSame(m0: seq<Byte>, m: seq<Byte>, n: seq<Byte>, page: int, target: Option<Target>, w: int)
    requires |m0| == |m| == ADDRESS_SPACE && SameExceptPaging(m0, m) && SameExceptPaging(m, n)
    requires forall p | 0 <= p < PAGES :: Walk(m, p) == Walk(m0, p) && PageWord(m, p) == PageWord(m0, p)
    requires Remaps(m, n, page, target) && Rewrites(m, n, page, w)
    ensures Remaps(m0, n, page, target) && Rewrites(m0, n, page, w) && SameExceptPaging(m0, n)
  {
    hide Walk, PageWord;
  }

  /** The word of page i of the k-th table. */
  lemma WordOfPage(m: seq<Byte>, owners: seq<int>, k: nat, i: int)
    requires PagingOk(m, owners) && k < |owners| && 0 <= i < ENTRIES
    ensures TableAddr(k) + PAGE_SIZE <= TABLES_END
    ensures 0 <= owners[k] * ENTRIES + i < PAGES
    ensures PageWord(m, owners[k] * ENTRIES + i) == LoadWord(m, TableAddr(k) + 4 * i)
  {
    hide EntryAt, LoadWord, DirWord, Installed;
    TablesBounded(m, owners);
    TableOfWord(k);
    var p := owners[k] * ENTRIES + i;
    assert p / 1024 == owners[k] && p % 1024 == i;
  }

  /** The directory entry and word of a table just made. */
  lemma NewTable(m: seq<Byte>, m1: seq<Byte>, n: seq<Byte>, owners: seq<int>, d: int, pde: Entry)
    requires PagingOk(m, owners) && 0 <= d < ENTRIES && d !in owners && |m1| == |n| == ADDRESS_SPACE
    requires TableAddr(|owners|) + PAGE_SIZE <= TABLES_END && pde == EntryAt(m, DIRECTORY, d)
    requires SameOutside(m, m1, TableAddr(|owners|), TableAddr(|owners|) + PAGE_SIZE)
    requires SameOutside(m1, n, DIRECTORY + 4 * d, DIRECTORY + 4 * d + 4)
    requires forall i | 0 <= i < ENTRIES :: LoadWord(m1, TableAddr(|owners|) + 4 * i) == 0
    requires var e := pde.(address := TableAddr(|owners|) / PAGE_SIZE, present := true, rw := true, user := true);
             e.Fits() && EntryAt(n, DIRECTORY, d) == e && LoadWord(n, DIRECTORY + 4 * d) == Encode(e)
    ensures PagingOk(n, owners + [d]) && SameExceptPaging(m, n)
    ensures forall p | 0 <= p < PAGES :: Walk(n, p) == Walk(m, p) && PageWord(n, p) == PageWord(m, p)
  {
    hide LoadWord, Encode, Decode, Walk, PageWord;
    var table := TableAddr(|owners|);
    TablesBounded(m, owners);
    assert table / PAGE_SIZE * PAGE_SIZE == table;
    DirectoryWord(m, d, |owners|);
    hide EntryAt, DirWord;
    forall i | 0 <= i < ENTRIES
      ensures LoadWord(n, table + 4 * i) == 0 && !EntryAt(n, table, i).present
    {
      WordFrame(m1, n, table + 4 * i);
      EntryIsWord(n, table, i);
      ZeroAbsent();
    }
    assert DirWord(n, d) == table + 7 by { DirWordIs(n, d); }
    WordsAdded(m, n, owners, d);
    TableAdded(m, n, owners, d);
  }

  lemma DirWordIs(m: seq<Byte>, d: int)
    requires |m| == ADDRESS_SPACE && 0 <= d < ENTRIES
    ensures DirWord(m, d) == LoadWord(m, DIRECTORY + 4 * d)
  {
  }

  /** The entry of an empty slot with a table put in. */
  lemma DirectoryWord(m: seq<Byte>, d: int, k: nat)
    requires |m| == ADDRESS_SPACE && 0 <= d < ENTRIES && DirWord(m, d) == 0 && TableAddr(k) < TABLES_END
    ensures var e := EntryAt(m, DIRECTORY, d).(address := TableAddr(k) / PAGE_SIZE, present := true, rw := true,
                                               user := true);
            e.Fits() && Encode(e) == TableAddr(k) + 7 && !e.size
  {
    hide LoadWord, Encode;
    ZeroFields();
    var e := EntryAt(m, DIRECTORY, d).(address := TableAddr(k) / PAGE_SIZE, present := true, rw := true, user := true);
    EncodeIs(e);
  }

  lemma ZeroFields()
    ensures Decode(0) == Entry(false, false, false, false, false, false, false, false, false, 0, 0)
  {
    var e := Entry(false, false, false, false, false, false, false, false, false, 0, 0);
    EncodeIs(e);
    DecodeEncode(e);
  }

  /** The words of the first 4 MB after the two loops. */
  lemma StartWord(p: int)
    requires 0 <= p < 1024
    ensures MappedWord(0, p * 4096, 0x103) == p * 4096 + 0x103
    ensures MappedWord(p * 4096 + 0x103, p * 4096, 0x003) == p * 4096 + 0x003
  {
    hide Encode, Decode, Digit, Shift;
    FieldsOf(0, 0, false);
    FieldsOf(p * 4096 + 0x103, p, true);
    ConstantDigits();
  }

  lemma ConstantDigits()
    ensures Digit(0x103, 0) == 1 && Digit(0x103, 1) == 1 && Digit(0x103, 2) == 0 && Digit(0x103, 8) == 1
    ensures Digit(0x003, 0) == 1 && Digit(0x003, 1) == 1 && Digit(0x003, 2) == 0 && Digit(0x003, 8) == 0
  {
    hide Digit, Shift;
    DigitIs(0x103);
    DigitIs(0x003);
  }

  /** The bits of an empty word, or of one mapped globally and writable. */
  lemma FieldsOf(w: Word, p: int, mapped: bool)
    requires 0 <= p < 1024 && w == if mapped then p * 4096 + 0x103 else 0
    ensures Digit(w, 3) == Digit(w, 4) == Digit(w, 5) == Digit(w, 6) == Digit(w, 7) == 0 && Shift(w, 9) % 8 == 0
  {
    hide Digit, Shift, Decode;
    var e := Entry(mapped, mapped, false, false, false, false, false, false, mapped, 0, if mapped then p else 0);
    EncodeIs(e);
    hide Encode;
    DecodeEncode(e);
    DecodeIs(w);
  }

  /** A zeroed directory maps nothing. */
  lemma EmptyDirectory(m: seq<Byte>)
    requires |m| == ADDRESS_SPACE && forall a | DIRECTORY <= a < DIRECTORY + PAGE_SIZE :: m[a] == 0
    ensures PagingOk(m, []) && forall p | 0 <= p < PAGES :: Walk(m, p) == None && PageWord(m, p) == 0
  {
    hide EntryAt, LoadWord;
    ZeroTable(m, DIRECTORY);
    ZeroWords(m, DIRECTORY);
  }

  lemma PageSplit(virtual: Word)
    ensures virtual / 0x400000 % ENTRIES == virtual / 0x400000 == virtual / PAGE_SIZE / ENTRIES
    ensures virtual / PAGE_SIZE == virtual / 0x400000 * ENTRIES + virtual / PAGE_SIZE % ENTRIES
    ensures 0 <= virtual / PAGE_SIZE < PAGES
  {
  }

  /** While some directory slot is absent there is room for one more table. */
  lemma MoreRoom(m: seq<Byte>, owners: seq<int>, d: int)
    requires PagingOk(m, owners) && 0 <= d < ENTRIES && d !in owners
    ensures TableAddr(|owners|) + PAGE_SIZE <= TABLES_END
  {
    hide EntryAt;
    NoDupLength(owners + [d], ENTRIES);
  }
}
