/** The file system in memory: the packed FAT and the root directory, changed in place. */
module FileSystem {
  import opened Machine
  import opened DiskLayout
  import opened Names
  import opened Directory
  import opened FatChains
  import opened FsModel
  import opened FsOwnership
  import Fat12
  import FsRuns

  class FatFileSystem {
    const fat: array<Byte>
    const root: array<Dirent>
    var initialized: bool

    ghost predicate Valid()
      reads this, root
    {
      fat.Length == FAT_BYTES && root.Length == ROOT_ENTRIES && SlotsOk(root[..])
    }

    ghost function Table(): (t: seq<int>)
      requires fat.Length == FAT_BYTES
      reads this, fat
      ensures TableOk(t)
    {
      Fat12.Table(fat[..])
    }

    ghost function Now(): Fs
      requires fat.Length == FAT_BYTES
      reads this, fat, root
    {
      Fs(Table(), root[..])
    }

    /** fs_init: the two calls of fs_write_fat come before the file system is initialised, and fail. */
    constructor ()
      ensures Valid() && initialized && fresh(fat) && fresh(root)
      ensures Now() == FsRuns.Fresh().fs
    {
      hide Fat12.Entry, Fat12.Table;
      fat := new Byte[FAT_BYTES](_ => 0);
      root := new Dirent[ROOT_ENTRIES](_ => EMPTY_SLOT);
      initialized := false;
      new;
      ZeroFat(fat[..]);
      assert Table() == FsRuns.Fresh().fs.t;
      var _ := WriteFat(0, 0xFF8);
      var _ := WriteFat(1, 0xFFF);
      initialized := true;
      assert root[..] == FsRuns.Fresh().fs.root;
    }

    // -------------------------------------------------------------- the FAT

    method ReadFat(cluster: int) returns (code: Code, value: int)
      requires Valid() && 0 <= cluster < 0x10000
      ensures code == (if initialized && cluster < CLUSTERS then Success else IoError)
      ensures code == Success ==> value == Table()[cluster]
    {
      if !initialized || cluster >= CLUSTERS {
        return IoError, 0;
      }
      return Success, Fat12.Entry(fat[..], cluster);
    }

    method WriteFat(cluster: int, value: int) returns (code: Code)
      requires Valid() && 0 <= cluster < 0x10000 && 0 <= value < 0x10000
      modifies fat
      ensures code == (if initialized && cluster < CLUSTERS then Success else IoError)
      ensures Table() == if code == Success then old(Table())[cluster := value % 0x1000] else old(Table())
    {
      if !initialized || cluster >= CLUSTERS {
        return IoError;
      }
      hide Fat12.Entry, Fat12.Table;
      Fat12.StoreRefines(fat[..], cluster, value);
      var offset := cluster * 3 / 2;
      var low: int, high: int := fat[offset], fat[offset + 1];
      var w := Fat12.NewPair(low + 0x100 * high, cluster, value);
      ghost var before := fat[..];
      fat[offset], fat[offset + 1] := w % 0x100, w / 0x100;
      assert fat[..] == Fat12.Store(before, cluster, value);
      code := Success;
    }

    /** -1 if every data cluster is in use. */
    method FindFreeCluster() returns (cluster: int)
      requires Valid()
      ensures initialized ==> cluster == if FreeFrom(Table(), 2) == CLUSTERS then -1 else FreeFrom(Table(), 2)
      ensures !initialized ==> cluster == -1
    {
      hide Fat12.Entry, Fat12.Table, FreeFrom;
      if !initialized {
        return -1;
      }
      for i := 2 to CLUSTERS
        invariant forall e | 2 <= e < i :: Table()[e] != 0
      {
        var code, value := ReadFat(i);
        if code == Success && value == 0 {
          FreeFromIs(Table(), 2, i);
          return i;
        }
      }
      FreeFromIs(Table(), 2, CLUSTERS);
      cluster := -1;
    }

    method AllocateCluster() returns (code: Code, cluster: int)
      requires Valid()
      modifies fat
      ensures code == (if !initialized then IoError
                       else if FreeFrom(old(Table()), 2) == CLUSTERS then DiskFull else Success)
      ensures code == Success ==> cluster == FreeFrom(old(Table()), 2) && Table() == old(Table())[cluster := LAST]
      ensures code != Success ==> Table() == old(Table())
    {
      hide Fat12.Entry, Fat12.Table, FreeFrom, TableOk;
      if !initialized {
        return IoError, 0;
      }
      cluster := FindFreeCluster();
      if cluster == -1 {
        return DiskFull, 0;
      }
      code := WriteFat(cluster, 0xFFF);
    }

    /** Clears exactly the entries of the walk ws that leads from the start out of the table; without
        such a walk the loop would not end. */
    method FreeClusterChain(start: int, ghost ws: seq<int>) returns (code: Code)
      requires Valid() && 0 <= start < 0x10000
      requires initialized ==> if start < CLUSTERS then IsWalk(Table(), ws) && ws[0] == start else ws == []
      modifies fat
      ensures initialized ==>
                && InTable(old(Table()), ws) && Table() == Cleared(old(Table()), ws)
                && code == if Exit(old(Table()), start, ws) >= END_OF_CHAIN then Success else IoError
      ensures !initialized ==> code == IoError && Table() == old(Table())
    {
      hide IsWalk, Fat12.Entry, Fat12.Table, Cleared, Exit, TableOk;
      ghost var t := Table();
      if !initialized {
        return IoError;
      }
      if start < CLUSTERS {
        WalkInTable(t, ws);
        FreeStep(t, start, ws, 0);
      }
      assert Cleared(t, ws[..0]) == t;
      assert ws == [] ==> start == Exit(t, start, ws) by { OutsideExit(t, start); }
      var cluster := start;
      ghost var k := 0;
      while cluster < 0xFF8
        invariant Valid() && initialized && 0 <= k <= |ws| && 0 <= cluster < 0x10000
        invariant if k < |ws| then cluster == ws[k] && cluster < CLUSTERS
                  else cluster >= CLUSTERS && cluster == Exit(t, start, ws)
        invariant InTable(t, ws[..k]) && Table() == Cleared(t, ws[..k])
        decreases |ws| - k
      {
        var ok, next := ReadFat(cluster);
        if ok != Success {
          assert ws[..k] == ws;
          return IoError;
        }
        FreeStep(t, start, ws, k);
        EntryBound(Table(), cluster);
        ok := WriteFat(cluster, 0);
        cluster := next;
        k := k + 1;
      }
      assert ws[..k] == ws;
      code := Success;
    }

    // -------------------------------------------------------------- the root directory

    /** The slot found, or ROOT_ENTRIES. */
    method FindDirectoryEntry(path: seq<Byte>) returns (i: int)
      requires Valid()
      ensures initialized ==> i == Lookup(root[..], Key(Strip(path)))
      ensures !initialized ==> i == ROOT_ENTRIES
    {
      if !initialized {
        return ROOT_ENTRIES;
      }
      var filename := if path != [] && path[0] == SLASH then path[1..] else path;
      i := FindKey(filename);
    }

    /** The search loop of find_directory_entry and remove_directory_entry. */
    method FindKey(filename: seq<Byte>) returns (i: int)
      requires Valid()
      ensures i == Lookup(root[..], Key(filename))
    {
      hide Key;
      var name, ext := new Byte[8], new Byte[3];
      ConvertFilename(filename, name, ext);
      ghost var key := Key(filename);
      i := 0;
      while i < ROOT_ENTRIES
        invariant 0 <= i <= ROOT_ENTRIES && Valid() && root[..] == old(root[..])
        invariant name[..] + ext[..] == key
        invariant forall j | 0 <= j < i :: !KeyMatches(root[j], key)
      {
        var e := root[i];
        assert |e.key| == 11;
        if e.key[0] != 0 && e.key[0] != 0xE5 {
          var c1 := Memcmp(e.key[..8], name[..], 8);
          var c2 := Memcmp(e.key[8..], ext[..], 3);
          KeyParts(e.key, name[..], ext[..]);
          if c1 == 0 && c2 == 0 {
            break;
          }
        }
        i := i + 1;
      }
      LookupIs(root[..], key, i);
    }

    /** find_entry */
    method FindEntryByName(path: seq<Byte>) returns (i: int)
      requires Valid() && 0 !in path && TextKeys(root[..])
      ensures initialized ==> i == FindEntry(root[..], path)
      ensures initialized && RootWellFormed(root[..]) && PathAgrees(path) ==> i == Lookup(root[..], Key(Strip(path)))
      ensures !initialized ==> i == ROOT_ENTRIES
    {
      hide Shown, SameIgnoringCase, Key, RootWellFormed, PathAgrees;
      if RootWellFormed(root[..]) && PathAgrees(path) {
        LookupsAgree(root[..], path);
      }
      if !initialized || path == [SLASH] {
        return ROOT_ENTRIES;
      }
      var name := if path != [] && path[0] == SLASH then path[1..] else path;
      i := 0;
      while i < ROOT_ENTRIES
        invariant 0 <= i <= ROOT_ENTRIES
        invariant forall j | 0 <= j < i :: !NameMatches(root[j], name)
      {
        var e := root[i];
        assert |e.key| == 11;
        if e.key[0] != 0 {
          var shown := ConvertFilenameBack(e.key[..8], e.key[8..]);
          assert e.key[..8] + e.key[8..] == e.key;
          ShownNonZero(e.key);
          var c := Strcasecmp(shown, name);
          if c == 0 {
            break;
          }
        }
        i := i + 1;
      }
      FirstNamedIs(root[..], name, i);
    }

    /** add_directory_entry_to_dir, for the root */
    method AddDirectoryEntry(path: seq<Byte>, attr: Byte, cluster: int, size: int) returns (code: Code)
      requires Valid()
      modifies root
      ensures Valid()
      ensures var k := FirstUnused(old(root[..]));
              && code == (if !initialized then IoError else if k == ROOT_ENTRIES then DiskFull else Success)
              && root[..] == if code == Success then old(root[..])[k := Dirent(Key(Strip(path)), attr, cluster, size)]
                             else old(root[..])
    {
      hide Key;
      if !initialized {
        return IoError;
      }
      var filename := if path != [] && path[0] == SLASH then path[1..] else path;
      var name, ext := new Byte[8], new Byte[3];
      ConvertFilename(filename, name, ext);
      var i := 0;
      while i < ROOT_ENTRIES
        invariant 0 <= i <= ROOT_ENTRIES && Valid() && root[..] == old(root[..])
        invariant forall j | 0 <= j < i :: Used(root[j])
        invariant name[..] + ext[..] == Key(filename)
      {
        assert |root[i].key| == 11;
        if root[i].key[0] == 0 || root[i].key[0] == 0xE5 {
          FirstUnusedIs(root[..], i);
          root[i] := Dirent(name[..] + ext[..], attr, cluster, size);
          return Success;
        }
        i := i + 1;
      }
      FirstUnusedIs(root[..], i);
      code := DiskFull;
    }

    /** remove_directory_entry: the path is taken as it is. */
    method RemoveDirectoryEntry(path: seq<Byte>) returns (code: Code)
      requires Valid()
      modifies root
      ensures Valid()
      ensures var j := Lookup(old(root[..]), Key(path));
              && code == (if !initialized then IoError else if j == ROOT_ENTRIES then NotFound else Success)
              && root[..] == if code == Success
                             then old(root[..])[j := old(root[..])[j].(key := old(root[..])[j].key[0 := DELETED])]
                             else old(root[..])
    {
      hide Key, Lookup;
      if !initialized {
        return IoError;
      }
      var j := FindKey(path);
      if j == ROOT_ENTRIES {
        return NotFound;
      }
      var e := root[j];
      assert |e.key| == 11;
      root[j] := e.(key := e.key[0 := 0xE5]);
      code := Success;
    }

    // -------------------------------------------------------------- files

    /** The creating part of fs_open and of fs_mkdir. */
    method CreateEntry(path: seq<Byte>, attr: Byte) returns (code: Code)
      requires Valid() && initialized
      modifies fat, root
      ensures Valid() && CreateResult(Now(), code) == Create(old(Now()), path, attr)
    {
      hide Key, Strip, IsWalk;
      ghost var t := Table();
      var ok, cluster := AllocateCluster();
      if ok != Success {
        return DiskFull;
      }
      ok := AddDirectoryEntry(path, attr, cluster, 0);
      if ok != Success {
        SingleWalk(t, cluster);
        var _ := FreeClusterChain(cluster, [cluster]);
        UndoAllocation(t, cluster);
        return IoError;
      }
      code := Success;
    }

    method OpenFile(path: seq<Byte>, mode: Byte) returns (code: Code, handle: Handle)
      requires Valid()
      modifies fat, root
      ensures Valid()
      ensures initialized ==> OpenResult(Now(), code, handle) == Open(old(Now()), path, mode)
      ensures !initialized ==> code == IoError && Now() == old(Now())
    {
      hide Key, Strip, Create, IsValidPath;
      if !initialized {
        return IoError, NO_HANDLE;
      }
      if !IsValidPath(path) {
        return InvalidPath, NO_HANDLE;
      }
      var i := FindDirectoryEntry(path);
      if i == ROOT_ENTRIES {
        if !CanCreate(mode) {
          return NotFound, NO_HANDLE;
        }
        code := CreateEntry(path, ATTR_ARCHIVE);
        if code != Success {
          FsRuns.FailedCreate(old(Now()), path, ATTR_ARCHIVE);
          return code, NO_HANDLE;
        }
        i := FindDirectoryEntry(path);
        if i == ROOT_ENTRIES {
          return IoError, NO_HANDLE;
        }
      }
      var e := root[i];
      if CanWrite(mode) && IsReadOnly(e.attr) {
        return AccessDenied, NO_HANDLE;
      }
      return Success, Handle(e.cluster, 0, e.size, mode, true);
    }

    method MakeDirectory(path: seq<Byte>) returns (code: Code)
      requires Valid()
      modifies fat, root
      ensures Valid()
      ensures initialized ==> CreateResult(Now(), code) == Mkdir(old(Now()), path)
      ensures !initialized ==> code == IoError && Now() == old(Now())
    {
      hide Key, Strip, Create, IsValidPath;
      if !initialized {
        return IoError;
      }
      if !IsValidPath(path) {
        return InvalidPath;
      }
      var i := FindDirectoryEntry(path);
      if i != ROOT_ENTRIES {
        return FileExists;
      }
      code := CreateEntry(path, ATTR_DIRECTORY);
    }

    /** The part of fs_write that moves on to the next cluster. */
    method NextCluster(cluster: int) returns (code: Code, next: int)
      requires Valid() && initialized && 0 <= cluster < 0x10000
      modifies fat
      ensures FollowOut(Table(), code, next) == Follow(old(Table()), cluster)
    {
      hide Fat12.Entry, Fat12.Table, FreeFrom;
      var ok, value := ReadFat(cluster);
      if ok != Success {
        return IoError, 0;
      }
      if value >= 0xFF8 {
        ok, next := AllocateCluster();
        if ok != Success {
          return DiskFull, 0;
        }
        ok := WriteFat(cluster, next);
        return Success, next;
      }
      return Success, value;
    }

    /** fs_write, without the bytes: what it does to the FAT and to the handle, and the number it returns. */
    method WriteFile(h: Handle, count: nat) returns (code: Code, written: nat, h': Handle)
      requires Valid() && initialized && 0 <= h.cluster < 0x10000 && 0 <= h.offset
      modifies fat
      ensures Valid() && WriteResult(Now(), h', code) == Write(old(Now()), h, count)
      ensures code == Success ==> written == count
    {
      hide Chunk, NextOffset, SectorOf, Follow, Fat12.Entry, Fat12.Table;
      written := 0;
      if !h.valid || !CanWrite(h.mode) {
        return IoError, 0, h;
      }
      var cluster, offset, size := h.cluster, h.offset, h.size;
      var sector := (33 + (cluster - 2) * 2 + offset / 512) % 0x1_0000_0000;
      ghost var out := WriteLoop(Table(), cluster, sector, offset, size, count);
      while written < count
        invariant Valid() && initialized && written <= count
        invariant 0 <= cluster < 0x10000 && 0 <= offset
        invariant out == WriteLoop(Table(), cluster, sector, offset, size, count - written)
      {
        var bytes := Chunk(offset, count - written);
        offset := NextOffset(offset, count - written);
        written := written + bytes;
        if offset > size {
          size := offset;
        }
        if offset % 512 == 0 {
          sector := (sector + 1) % 0x1_0000_0000;
          if sector % 2 == 0 {
            code, cluster := NextCluster(cluster);
            if code != Success {
              return code, 0, h.(offset := offset, size := size);
            }
            sector := SectorOf(cluster);
          }
        }
      }
      return Success, written, h.(offset := offset, size := size);
    }

    /** fs_delete: ws is the walk from the first cluster of the file the path names out of the table;
        without one the call would not end. */
    method DeleteFile(path: seq<Byte>, ghost ws: seq<int>) returns (code: Code)
      requires Valid() && InTable(Table(), ws)
      requires var i := Lookup(root[..], Key(Strip(path)));
               initialized && i < root.Length && !IsDirectory(root[i].attr) ==> Leads(Table(), root[i].cluster, ws)
      modifies fat, root
      ensures Valid()
      ensures initialized ==> CreateResult(Now(), code) == Delete(old(Now()), path, ws)
      ensures !initialized ==> code == IoError && Now() == old(Now())
    {
      hide Key, Strip, IsValidPath, Lookup, IsWalk;
      if !initialized {
        return IoError;
      }
      if !IsValidPath(path) {
        return InvalidPath;
      }
      var i := FindDirectoryEntry(path);
      if i == ROOT_ENTRIES {
        return NotFound;
      }
      if IsDirectory(root[i].attr) {
        return AccessDenied;
      }
      if root[i].cluster != 0 {
        var _ := FreeClusterChain(root[i].cluster, ws);
      }
      code := RemoveDirectoryEntry(path);
      if code != Success {
        code := IoError;
      }
    }
  }

  lemma ZeroFat(bytes: seq<Byte>)
    requires |bytes| == FAT_BYTES && forall o | 0 <= o < |bytes| :: bytes[o] == 0
    ensures forall c | 0 <= c < CLUSTERS :: Fat12.Table(bytes)[c] == 0
  {
    forall c | 0 <= c < CLUSTERS
      ensures Fat12.Entry(bytes, c) == 0
    {
      assert bytes[c * 3 / 2] == bytes[c * 3 / 2 + 1] == 0;
    }
  }

  lemma OutsideExit(t: seq<int>, c: int)
    ensures Exit(t, c, []) == c
  {
  }

  lemma EntryBound(t: seq<int>, c: int)
    requires TableOk(t) && 0 <= c < CLUSTERS
    ensures |t| == CLUSTERS && 0 <= t[c] < 0x1000
  {
  }

  lemma SingleWalk(t: seq<int>, c: int)
    requires TableOk(t) && 2 <= c < CLUSTERS
    ensures IsWalk(t[c := LAST], [c])
  {
  }

  lemma KeyParts(k: seq<Byte>, name: seq<Byte>, ext: seq<Byte>)
    requires |k| == 11 && |name| == 8 && |ext| == 3
    ensures k[..8][..8] == k[..8] && k[8..][..3] == k[8..] && name[..8] == name && ext[..3] == ext
    ensures k == name + ext <==> k[..8] == name && k[8..] == ext
  {
    assert k == k[..8] + k[8..];
  }

  lemma ShownNonZero(k: seq<Byte>)
    requires |k| == 11 && 0 !in k
    ensures 0 !in Shown(k)
  {
    assert forall c | c in k[..8] || c in k[8..] :: c in k;
  }

  lemma FirstNamedIs(root: seq<Dirent>, name: seq<Byte>, k: nat)
    requires SlotsOk(root) && k <= |root| && (k < |root| ==> NameMatches(root[k], name))
    requires forall j | 0 <= j < k :: !NameMatches(root[j], name)
    ensures FirstNamed(root, name) == k
  {
  }

  lemma FirstUnusedIs(root: seq<Dirent>, k: nat)
    requires SlotsOk(root) && k <= |root| && (k < |root| ==> !Used(root[k])) && forall j | 0 <= j < k :: Used(root[j])
    ensures FirstUnused(root) == k
  {
  }
}
