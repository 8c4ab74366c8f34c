/** The FAT as it is stored: 2880 values of 12 bits, two in every three bytes. */
module Fat12 {
  import opened Machine
  import opened DiskLayout

  /** The 16-bit word fs_read_fat and fs_write_fat access for cluster c, which shares its
      second or first byte with the neighbouring cluster. */
  function Pair(bytes: seq<Byte>, c: int): (w: int)
    requires |bytes| == FAT_BYTES && 0 <= c < CLUSTERS
    ensures 0 <= w < 0x10000
  {
    var lo: int, hi: int := bytes[c * 3 / 2], bytes[c * 3 / 2 + 1];
    lo + 0x100 * hi
  }

  /** fs_read_fat */
  function Entry(bytes: seq<Byte>, c: int): (v: int)
    requires |bytes| == FAT_BYTES && 0 <= c < CLUSTERS
    ensures 0 <= v < 0x1000
  {
    if c % 2 == 1 then Pair(bytes, c) / 16 else Pair(bytes, c) % 0x1000
  }

  /** The word fs_write_fat stores for cluster c, given the word before: 16-bit arithmetic. */
  function NewPair(w: int, c: int, value: int): (r: int)
    requires 0 <= w < 0x10000 && 0 <= value < 0x10000
    ensures 0 <= r < 0x10000
  {
    if c % 2 == 1 then w % 16 + value * 16 % 0x10000 else w - w % 0x1000 + value % 0x1000
  }

  /** fs_write_fat */
  function Store(bytes: seq<Byte>, c: int, value: int): (r: seq<Byte>)
    requires |bytes| == FAT_BYTES && 0 <= c < CLUSTERS && 0 <= value < 0x10000
    ensures |r| == FAT_BYTES
  {
    var w := NewPair(Pair(bytes, c), c, value);
    bytes[c * 3 / 2 := w % 0x100][c * 3 / 2 + 1 := w / 0x100]
  }

  lemma NewPairReads(w: int, c: int, value: int)
    requires 0 <= w < 0x10000 && 0 <= value < 0x10000
    ensures var r := NewPair(w, c, value);
            if c % 2 == 1 then r / 16 == value % 0x1000 && r % 16 == w % 16
            else r % 0x1000 == value % 0x1000 && r / 0x1000 == w / 0x1000
  {
    if c % 2 == 1 {
      assert value * 16 % 0x10000 == 16 * (value % 0x1000);
    } else {
      assert w - w % 0x1000 == 0x1000 * (w / 0x1000);
    }
  }

  lemma StorePair(bytes: seq<Byte>, c: int, value: int)
    requires |bytes| == FAT_BYTES && 0 <= c < CLUSTERS && 0 <= value < 0x10000
    ensures Pair(Store(bytes, c, value), c) == NewPair(Pair(bytes, c), c, value)
    ensures forall o | 0 <= o < FAT_BYTES && o != c * 3 / 2 && o != c * 3 / 2 + 1 ::
              Store(bytes, c, value)[o] == bytes[o]
  {
  }

  /** A stored value reads back modulo 2^12. */
  lemma ReadBack(bytes: seq<Byte>, c: int, value: int)
    requires |bytes| == FAT_BYTES && 0 <= c < CLUSTERS && 0 <= value < 0x10000
    ensures Entry(Store(bytes, c, value), c) == value % 0x1000
  {
    hide Store, NewPair, Pair;
    StorePair(bytes, c, value);
    NewPairReads(Pair(bytes, c), c, value);
  }

  /** The cluster sharing a byte with c keeps its value. */
  lemma NeighbourKept(bytes: seq<Byte>, c: int, value: int, d: int)
    requires |bytes| == FAT_BYTES && 0 <= c < CLUSTERS && 0 <= value < 0x10000 && 0 <= d < CLUSTERS
    requires d == if c % 2 == 1 then c - 1 else c + 1
    ensures Entry(Store(bytes, c, value), d) == Entry(bytes, d)
  {
    hide *;
    if c % 2 == 1 {
      LowNeighbourKept(bytes, c / 2, value);
    } else {
      HighNeighbourKept(bytes, c / 2, value);
    }
  }

  lemma LowNeighbourKept(bytes: seq<Byte>, k: int, value: int)
    requires |bytes| == FAT_BYTES && 0 <= 2 * k && 2 * k + 1 < CLUSTERS && 0 <= value < 0x10000
    ensures Entry(Store(bytes, 2 * k + 1, value), 2 * k) == Entry(bytes, 2 * k)
  {
    hide Store, NewPair, Pair, Entry;
    var c, r := 2 * k + 1, Store(bytes, 2 * k + 1, value);
    assert c * 3 / 2 == 3 * k + 1 && 2 * k * 3 / 2 == 3 * k;
    StorePair(bytes, c, value);
    NewPairReads(Pair(bytes, c), c, value);
    EntryByBytes(bytes, 2 * k);
    EntryByBytes(r, 2 * k);
    PairByBytes(bytes, c);
    PairByBytes(r, c);
  }

  lemma HighNeighbourKept(bytes: seq<Byte>, k: int, value: int)
    requires |bytes| == FAT_BYTES && 0 <= 2 * k && 2 * k + 1 < CLUSTERS && 0 <= value < 0x10000
    ensures Entry(Store(bytes, 2 * k, value), 2 * k + 1) == Entry(bytes, 2 * k + 1)
  {
    hide Store, NewPair, Pair, Entry;
    var c, r := 2 * k, Store(bytes, 2 * k, value);
    assert c * 3 / 2 == 3 * k && (2 * k + 1) * 3 / 2 == 3 * k + 1;
    StorePair(bytes, c, value);
    NewPairReads(Pair(bytes, c), c, value);
    EntryByBytes(bytes, 2 * k + 1);
    EntryByBytes(r, 2 * k + 1);
    PairByBytes(bytes, c);
    PairByBytes(r, c);
  }

  lemma PairByBytes(bytes: seq<Byte>, c: int)
    requires |bytes| == FAT_BYTES && 0 <= c < CLUSTERS
    ensures Pair(bytes, c) % 16 == bytes[c * 3 / 2] % 16
    ensures Pair(bytes, c) / 0x1000 == bytes[c * 3 / 2 + 1] / 16
  {
  }

  lemma EntryByBytes(bytes: seq<Byte>, c: int)
    requires |bytes| == FAT_BYTES && 0 <= c < CLUSTERS
    ensures c % 2 == 1 ==> Entry(bytes, c) == bytes[c * 3 / 2] / 16 + 16 * (bytes[c * 3 / 2 + 1] as int)
    ensures c % 2 == 0 ==> Entry(bytes, c) == bytes[c * 3 / 2] + 256 * (bytes[c * 3 / 2 + 1] % 16) as int
  {
  }

  /** The values of all clusters. */
  ghost function Table(bytes: seq<Byte>): (t: seq<int>)
    requires |bytes| == FAT_BYTES
    ensures |t| == CLUSTERS && forall c | 0 <= c < CLUSTERS :: t[c] == Entry(bytes, c)
  {
    seq(CLUSTERS, c requires 0 <= c < CLUSTERS => Entry(bytes, c))
  }

  /** The packed table behaves as an array of 2880 values: a write changes one of them. */
  lemma StoreRefines(bytes: seq<Byte>, c: int, value: int)
    requires |bytes| == FAT_BYTES && 0 <= c < CLUSTERS && 0 <= value < 0x10000
    ensures Table(Store(bytes, c, value)) == Table(bytes)[c := value % 0x1000]
  {
    hide Store, Entry;
    var r := Store(bytes, c, value);
    forall d | 0 <= d < CLUSTERS
      ensures Entry(r, d) == if d == c then value % 0x1000 else Entry(bytes, d)
    {
      if d == c {
        ReadBack(bytes, c, value);
      } else if d == (if c % 2 == 1 then c - 1 else c + 1) {
        NeighbourKept(bytes, c, value, d);
      } else {
        FarKept(bytes, c, value, d);
      }
    }
  }

  lemma FarKept(bytes: seq<Byte>, c: int, value: int, d: int)
    requires |bytes| == FAT_BYTES && 0 <= c < CLUSTERS && 0 <= value < 0x10000 && 0 <= d < CLUSTERS
    requires d != c && d != if c % 2 == 1 then c - 1 else c + 1
    ensures Entry(Store(bytes, c, value), d) == Entry(bytes, d)
  {
    StorePair(bytes, c, value);
    var r := Store(bytes, c, value);
    assert r[d * 3 / 2] == bytes[d * 3 / 2] && r[d * 3 / 2 + 1] == bytes[d * 3 / 2 + 1];
  }
}
