/** The flat 32-bit address space the kernel runs in: bytes, little-endian words,
    and the two byte loops of the C library that the kernel uses on raw memory. */
module Machine {

  type Byte = b: int | 0 <= b < 0x100
  type Word = w: int | 0 <= w < 0x1_0000_0000

  const ADDRESS_SPACE := 0x1_0000_0000
  const PAGE_SIZE := 4096

  /** The two memories agree on the addresses lo..hi. */
  ghost predicate SameOn(m: seq<Byte>, n: seq<Byte>, lo: int, hi: int)
    requires |m| == |n|
  {
    forall a | 0 <= a < |m| && lo <= a < hi :: m[a] == n[a]
  }

  /** The two memories agree everywhere except on the addresses lo..hi. */
  ghost predicate SameOutside(m: seq<Byte>, n: seq<Byte>, lo: int, hi: int)
  {
    |m| == |n| && forall a | 0 <= a < |m| && !(lo <= a < hi) :: m[a] == n[a]
  }

  /** n is m after num bytes were copied one by one from src to dest, lowest first: a byte read
      after it was written over has its new value. */
  ghost predicate CopiedForward(m: seq<Byte>, n: seq<Byte>, dest: int, src: int, num: int)
  {
    && |m| == |n| && 0 <= dest && dest + num <= |m| && 0 <= src && src + num <= |m|
    && forall a | dest <= a < dest + num :: var s := a - dest + src; n[a] == if dest <= s < a then n[s] else m[s]
  }

  function Compose(b0: int, b1: int, b2: int, b3: int): int
  {
    b0 + 0x100 * b1 + 0x10000 * b2 + 0x1000000 * b3
  }

  /** The little-endian 32-bit word at address a. */
  function LoadWord(m: seq<Byte>, a: int): (w: Word)
    requires 0 <= a && a + 4 <= |m|
  {
    Compose(m[a], m[a + 1], m[a + 2], m[a + 3])
  }

  /** Words are stored lowest byte first. */
  lemma LittleEndian(m: seq<Byte>, a: int)
    requires 0 <= a && a + 4 <= |m|
    ensures LoadWord(m, a) ==
            m[a] as int + 0x100 * m[a + 1] as int + 0x10000 * m[a + 2] as int + 0x1000000 * m[a + 3] as int
  {
  }

  function StoreWord(m: seq<Byte>, a: int, v: Word): (n: seq<Byte>)
    requires 0 <= a && a + 4 <= |m|
    ensures |n| == |m|
  {
    m[a := v % 0x100][a + 1 := v / 0x100 % 0x100]
     [a + 2 := v / 0x100 / 0x100 % 0x100][a + 3 := v / 0x100 / 0x100 / 0x100]
  }

  /** A stored word reads back, and no other byte changes. */
  lemma LoadAfterStore(m: seq<Byte>, a: int, v: Word)
    requires 0 <= a && a + 4 <= |m|
    ensures LoadWord(StoreWord(m, a, v), a) == v
    ensures SameOutside(m, StoreWord(m, a, v), a, a + 4)
  {
    var q1 := v / 0x100;
    var q2 := q1 / 0x100;
    assert v == 0x100 * q1 + v % 0x100 && q1 == 0x100 * q2 + q1 % 0x100 && q2 == 0x100 * (q2 / 0x100) + q2 % 0x100;
    var n := StoreWord(m, a, v);
    assert n[a] == v % 0x100 && n[a + 1] == q1 % 0x100 && n[a + 2] == q2 % 0x100 && n[a + 3] == q2 / 0x100;
  }

  lemma WordFrame(m: seq<Byte>, n: seq<Byte>, a: int)
    requires |m| == |n| && 0 <= a && a + 4 <= |m| && SameOn(m, n, a, a + 4)
    ensures LoadWord(m, a) == LoadWord(n, a)
  {
  }

  method ReadWord(mem: array<Byte>, a: int) returns (w: Word)
    requires 0 <= a && a + 4 <= mem.Length
    ensures w == LoadWord(mem[..], a)
  {
    w := Compose(mem[a], mem[a + 1], mem[a + 2], mem[a + 3]);
  }

  method WriteWord(mem: array<Byte>, a: int, v: Word)
    requires 0 <= a && a + 4 <= mem.Length
    modifies mem
    ensures mem[..] == StoreWord(old(mem[..]), a, v)
    ensures LoadWord(mem[..], a) == v
    ensures SameOutside(old(mem[..]), mem[..], a, a + 4)
  {
    LoadAfterStore(mem[..], a, v);
    mem[a] := v % 0x100;
    mem[a + 1] := v / 0x100 % 0x100;
    mem[a + 2] := v / 0x100 / 0x100 % 0x100;
    mem[a + 3] := v / 0x100 / 0x100 / 0x100;
  }

  /** memset: fill num bytes. */
  method Memset(mem: array<Byte>, ptr: int, value: Byte, num: nat)
    requires 0 <= ptr && ptr + num <= mem.Length
    modifies mem
    ensures SameOutside(old(mem[..]), mem[..], ptr, ptr + num)
    ensures forall a | ptr <= a < ptr + num :: mem[a] == value
  {
    for i := 0 to num
      invariant forall a | ptr <= a < ptr + i :: mem[a] == value
      invariant forall a | 0 <= a < mem.Length && !(ptr <= a < ptr + i) :: mem[a] == old(mem[a])
    {
      mem[ptr + i] := value;
    }
  }

  /** memcpy: copy num bytes upwards, one at a time. */
  method Memcpy(mem: array<Byte>, dest: int, src: int, num: nat)
    requires 0 <= dest && dest + num <= mem.Length
    requires 0 <= src && src + num <= mem.Length
    modifies mem
    ensures SameOutside(old(mem[..]), mem[..], dest, dest + num)
    ensures CopiedForward(old(mem[..]), mem[..], dest, src, num)
  {
    ghost var m := mem[..];
    for i := 0 to num
      invariant SameOutside(m, mem[..], dest, dest + i) && CopiedForward(m, mem[..], dest, src, i)
    {
      ghost var before := mem[..];
      mem[dest + i] := mem[src + i];
      forall a | dest <= a < dest + i + 1
        ensures var s := a - dest + src; mem[a] == if dest <= s < a then mem[s] else m[s]
      {
        assert a < dest + i ==> mem[a] == before[a];
      }
    }
  }
}
