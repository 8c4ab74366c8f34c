/** The file system as a value: the FAT as a table of values and the root directory as a
    sequence of slots, with what fs_open, fs_mkdir, fs_write and fs_delete do to them. */
module FsModel {
  import opened Machine
  import opened DiskLayout
  import opened Names
  import opened Directory
  import opened FatChains

  datatype Code = Success | NotFound | AccessDenied | DiskFull | InvalidPath | FileExists | IoError

  const ATTR_DIRECTORY: Byte := 0x10
  const ATTR_ARCHIVE: Byte := 0x20

  datatype Fs = Fs(t: seq<int>, root: seq<Dirent>)

  /** fs_file_t */
  datatype Handle = Handle(cluster: int, offset: int, size: int, mode: Byte, valid: bool)

  predicate CanWrite(mode: Byte) { mode / 0x02 % 2 == 1 }
  predicate CanCreate(mode: Byte) { mode / 0x08 % 2 == 1 }
  predicate IsReadOnly(attr: Byte) { attr % 2 == 1 }
  predicate IsDirectory(attr: Byte) { attr / 0x10 % 2 == 1 }

  // ---------------------------------------------------------------- paths

  predicate IsValidFilename(n: seq<Byte>)
  {
    && n != []
    && if HasDot(n) then 1 <= |Base(n)| <= 8 && |Ext(n)| <= 3 else |n| <= 8
  }

  predicate IsValidPath(path: seq<Byte>)
  {
    || path == [DOT, DOT] || path == [DOT] || path == [SLASH]
    || (path != [] && path[0] == SLASH && IsValidFilename(path[1..]))
  }

  /** A valid file name is canonical if it has no space and does not end in a dot, and all
      canonical names but those with an empty base are valid. */
  lemma ValidNameCanonicalIff(n: seq<Byte>)
    ensures IsValidFilename(n) && SPACE !in n && (HasDot(n) ==> Ext(n) != []) <==> Canonical(n) && Base(n) != []
  {
    NameSplits(n);
  }

  // ---------------------------------------------------------------- invariants

  ghost predicate FsOk(s: Fs)
  {
    && TableOk(s.t) && s.t[0] == 0 && s.t[1] == 0
    && |s.root| == ROOT_ENTRIES && SlotsOk(s.root)
  }

  ghost predicate UniqueKeys(root: seq<Dirent>)
    requires SlotsOk(root)
  {
    forall i, j | 0 <= i < j < |root| && Used(root[i]) && Used(root[j]) :: root[i].key != root[j].key
  }

  /** Slot i heads the chain cs, if it is in use; otherwise cs is empty. */
  ghost predicate Heads(t: seq<int>, e: Dirent, cs: seq<int>)
    requires |e.key| == 11
  {
    if Used(e) then IsChain(t, cs) && cs[0] == e.cluster else cs == []
  }

  ghost predicate Apart(a: seq<int>, b: seq<int>)
  {
    forall c | c in a :: c !in b
  }

  ghost predicate InSome(chains: seq<seq<int>>, c: int)
  {
    exists i :: 0 <= i < |chains| && c in chains[i]
  }

  /** Ownership: every used slot heads a chain, chains of distinct slots share no cluster, and
      the data clusters in use are exactly those on the chains. */
  ghost predicate Owned(t: seq<int>, root: seq<Dirent>, chains: seq<seq<int>>)
    requires SlotsOk(root)
  {
    && |t| == CLUSTERS
    && |chains| == |root|
    && (forall i | 0 <= i < |root| :: Heads(t, root[i], chains[i]))
    && (forall i, j | 0 <= i < |root| && 0 <= j < |root| && i != j :: Apart(chains[i], chains[j]))
    && (forall c | 2 <= c < CLUSTERS :: t[c] != 0 <==> InSome(chains, c))
  }

  // ---------------------------------------------------------------- creating

  /** The first slot never used or deleted, or |root|. */
  function FirstUnused(root: seq<Dirent>): (k: nat)
    requires SlotsOk(root)
    ensures k <= |root|
    ensures k < |root| ==> !Used(root[k])
    ensures forall j | 0 <= j < k :: Used(root[j])
  {
    if root == [] || !Used(root[0]) then 0 else 1 + FirstUnused(root[1..])
  }

  datatype CreateResult = CreateResult(fs: Fs, code: Code)

  /** Allocate a cluster and add an entry, as fs_open and fs_mkdir do; a full directory gives
      the cluster back. */
  function Create(s: Fs, path: seq<Byte>, attr: Byte): (r: CreateResult)
    requires |s.t| == CLUSTERS && SlotsOk(s.root)
    ensures SlotsOk(r.fs.root) && |r.fs.root| == |s.root| && (TableOk(s.t) ==> TableOk(r.fs.t))
  {
    var c := FreeFrom(s.t, 2);
    var i := FirstUnused(s.root);
    if c == CLUSTERS then CreateResult(s, DiskFull)
    else if i == |s.root| then CreateResult(s, IoError)
    else CreateResult(Fs(s.t[c := LAST], s.root[i := Dirent(Key(Strip(path)), attr, c, 0)]), Success)
  }

  datatype OpenResult = OpenResult(fs: Fs, code: Code, handle: Handle)

  const NO_HANDLE := Handle(0, 0, 0, 0, false)

  /** fs_open, after the entry has been found in slot i. */
  function OpenFound(s: Fs, i: nat, mode: Byte): OpenResult
    requires i < |s.root|
  {
    if CanWrite(mode) && IsReadOnly(s.root[i].attr) then OpenResult(s, AccessDenied, NO_HANDLE)
    else OpenResult(s, Success, Handle(s.root[i].cluster, 0, s.root[i].size, mode, true))
  }

  function Open(s: Fs, path: seq<Byte>, mode: Byte): (r: OpenResult)
    requires |s.t| == CLUSTERS && SlotsOk(s.root)
    ensures SlotsOk(r.fs.root) && |r.fs.root| == |s.root| && (TableOk(s.t) ==> TableOk(r.fs.t))
  {
    var key := Key(Strip(path));
    var i := Lookup(s.root, key);
    if !IsValidPath(path) then OpenResult(s, InvalidPath, NO_HANDLE)
    else if i < |s.root| then OpenFound(s, i, mode)
    else if !CanCreate(mode) then OpenResult(s, NotFound, NO_HANDLE)
    else
      var made := Create(s, path, ATTR_ARCHIVE);
      var j := Lookup(made.fs.root, key);
      if made.code != Success then OpenResult(s, made.code, NO_HANDLE)
      else if j == |made.fs.root| then OpenResult(made.fs, IoError, NO_HANDLE)
      else OpenFound(made.fs, j, mode)
  }

  function Mkdir(s: Fs, path: seq<Byte>): (r: CreateResult)
    requires |s.t| == CLUSTERS && SlotsOk(s.root)
    ensures SlotsOk(r.fs.root) && |r.fs.root| == |s.root| && (TableOk(s.t) ==> TableOk(r.fs.t))
  {
    if !IsValidPath(path) then CreateResult(s, InvalidPath)
    else if Lookup(s.root, Key(Strip(path))) < |s.root| then CreateResult(s, FileExists)
    else Create(s, path, ATTR_DIRECTORY)
  }

  datatype SeekResult = SeekResult(handle: Handle, code: Code)

  /** fs_seek, in 32-bit arithmetic: never beyond the size. */
  function Seek(h: Handle, offset: int, whence: int): (r: SeekResult)
    ensures r.code == Success ==> h.valid && 0 <= r.handle.offset <= h.size && r.handle.offset < 0x1_0000_0000
    ensures r.handle == h.(offset := r.handle.offset) && (r.code != Success ==> r.handle == h)
  {
    if !h.valid || !(0 <= whence <= 2) then SeekResult(h, IoError)
    else
      var from := if whence == 0 then 0 else if whence == 1 then h.offset else h.size;
      var target := (from + offset) % 0x1_0000_0000;
      if target > h.size then SeekResult(h, IoError) else SeekResult(h.(offset := target), Success)
  }

  /** to is the place a seek asks for, counted from the start, the offset or the end. */
  ghost predicate AsksFor(h: Handle, offset: int, whence: int, to: int)
  {
    || (whence == 0 && to == offset)
    || (whence == 1 && to - h.offset == offset)
    || (whence == 2 && to - h.size == offset)
  }

  /** A seek on a valid handle goes exactly where it is asked to, if that is within the file.  Past
      the end it is refused.  Before the start it is refused too, unless the file is so large that
      the wrapped place lies within it. */
  lemma SeekGoes(h: Handle, offset: int, whence: int, to: int)
    requires h.valid && 0 <= h.offset <= h.size < 0x1_0000_0000 && -0x8000_0000 <= offset < 0x8000_0000
    requires AsksFor(h, offset, whence, to)
    ensures var r := Seek(h, offset, whence);
            && (0 <= to <= h.size ==> r == SeekResult(h.(offset := to), Success))
            && (h.size < to < 0x1_0000_0000 ==> r == SeekResult(h, IoError))
            && (to < 0 && h.size - to < 0x1_0000_0000 ==> r == SeekResult(h, IoError))
            && (to < 0 && h.size - to >= 0x1_0000_0000 ==>
                  r == SeekResult(h.(offset := 0x1_0000_0000 + to), Success))
            && (to >= 0x1_0000_0000 ==> r == SeekResult(h.(offset := to - 0x1_0000_0000), Success))
  {
  }

  lemma SeekRefused(h: Handle, offset: int, whence: int)
    ensures Seek(h, offset, whence).code in {Success, IoError}
    ensures !h.valid || whence < 0 || whence > 2 ==> Seek(h, offset, whence) == SeekResult(h, IoError)
  {
  }

  /** What a create leaves unchanged and what it adds. */
  lemma CreateLookups(s: Fs, path: seq<Byte>, attr: Byte)
    requires FsOk(s) && UniqueKeys(s.root) && Lookup(s.root, Key(Strip(path))) == |s.root|
    ensures var key := Key(Strip(path)); var r := Create(s, path, attr);
            && FsOk(r.fs) && UniqueKeys(r.fs.root)
            && (r.code == Success <==>
                  (exists c :: 2 <= c < CLUSTERS && s.t[c] == 0) && (exists i :: 0 <= i < |s.root| && !Used(s.root[i])))
            && (r.code != Success ==> r.fs == s)
            && (r.code == Success && key[0] != DELETED && key[0] != 0 ==>
                  && Lookup(r.fs.root, key) == FirstUnused(s.root)
                  && r.fs.root[FirstUnused(s.root)] == Dirent(key, attr, FreeFrom(s.t, 2), 0))
            && (forall other: seq<Byte> | other != key :: Lookup(r.fs.root, other) == Lookup(s.root, other))
  {
    hide Key, Strip;
    var key := Key(Strip(path));
    var c := FreeFrom(s.t, 2);
    var i := FirstUnused(s.root);
    var r := Create(s, path, attr);
    if c < CLUSTERS && i < |s.root| {
      if key[0] != DELETED && key[0] != 0 {
        LookupIs(r.fs.root, key, i);
      }
      forall other: seq<Byte> | other != key
        ensures Lookup(r.fs.root, other) == Lookup(s.root, other)
      {
        LookupIs(r.fs.root, other, Lookup(s.root, other));
      }
    }
  }

  /** No key is used twice after a create, whatever the name. */
  lemma CreateKeepsUnique(s: Fs, path: seq<Byte>, attr: Byte)
    requires |s.t| == CLUSTERS && SlotsOk(s.root) && UniqueKeys(s.root) && Lookup(s.root, Key(Strip(path))) == |s.root|
    ensures UniqueKeys(Create(s, path, attr).fs.root)
  {
    hide Key, Strip;
    assert forall j | 0 <= j < |s.root| :: !KeyMatches(s.root[j], Key(Strip(path)));
  }

  /** fs_open with CREATE of a path not yet there: if there is room it succeeds, with a handle on
      a cluster that was free, which the path then names; no other key is affected; and if
      there is no room nothing has changed. */
  lemma OpenCreates(s: Fs, path: seq<Byte>, mode: Byte)
    requires FsOk(s) && UniqueKeys(s.root) && IsValidPath(path) && CanCreate(mode)
    requires var key := Key(Strip(path)); key[0] != DELETED && key[0] != 0 && Lookup(s.root, key) == |s.root|
    ensures var key := Key(Strip(path)); var r := Open(s, path, mode); var room := FirstUnused(s.root) < |s.root|;
            && r.code == (if FreeFrom(s.t, 2) == CLUSTERS then DiskFull else if room then Success else IoError)
            && (r.code != Success ==> r.fs == s)
            && (r.code == Success ==>
                  && r.handle == Handle(FreeFrom(s.t, 2), 0, 0, mode, true)
                  && var i := Lookup(r.fs.root, key);
                     i < |r.fs.root| && r.fs.root[i] == Dirent(key, ATTR_ARCHIVE, r.handle.cluster, 0))
            && (forall other: seq<Byte> | other != key :: Lookup(r.fs.root, other) == Lookup(s.root, other))
  {
    hide Key, Strip, IsValidPath, UniqueKeys;
    CreateLookups(s, path, ATTR_ARCHIVE);
  }

  // ---------------------------------------------------------------- answers

  /** Some slot in use holds the key. */
  ghost predicate HasKey(root: seq<Dirent>, key: seq<Byte>)
    requires SlotsOk(root)
  {
    exists j :: 0 <= j < |root| && IsEntry(root[j], key)
  }

  /** A slot in use with the key: its first byte is neither 0 nor 0xE5. */
  predicate IsEntry(e: Dirent, key: seq<Byte>)
    requires |e.key| == 11
  {
    e.key == key && e.key[0] != 0x00 && e.key[0] != 0xE5
  }

  lemma LookupFinds(root: seq<Dirent>, key: seq<Byte>)
    requires SlotsOk(root)
    ensures HasKey(root, key) <==> Lookup(root, key) < |root|
    ensures Lookup(root, key) < |root| ==> IsEntry(root[Lookup(root, key)], key)
    ensures UniqueKeys(root) ==> forall j | 0 <= j < |root| && IsEntry(root[j], key) :: Lookup(root, key) == j
  {
    var i := Lookup(root, key);
    assert forall j | 0 <= j < |root| && IsEntry(root[j], key) :: KeyMatches(root[j], key);
    assert i < |root| ==> KeyMatches(root[i], key);
  }

  /** Which paths are valid, byte by byte: a dot, two dots, a slash, or a slash and a name of at most
      eight bytes, or of one to eight bytes, a dot and at most three more. */
  lemma ValidPathIff(path: seq<Byte>, dot: int)
    requires path != [] ==> IsFirstDot(path[1..], dot)
    ensures IsValidPath(path) <==>
            || path == [0x2E, 0x2E] || path == [0x2E] || path == [0x2F]
            || (|path| > 1 && path[0] == 0x2F &&
                if dot < |path| - 1 then 1 <= dot <= 8 && |path| - dot - 2 <= 3 else |path| <= 9)
  {
    if path != [] {
      IndexOfIs(path[1..], DOT, dot);
    }
  }

  /** fs_open of a file that is there: the file system stays as it is.  The call is refused exactly if
      it asks to write and the entry is read-only, and otherwise gives a handle at the start of
      the entry. */
  lemma OpenExisting(s: Fs, path: seq<Byte>, mode: Byte, j: nat)
    requires |s.t| == CLUSTERS && SlotsOk(s.root) && UniqueKeys(s.root) && IsValidPath(path)
    requires j < |s.root| && IsEntry(s.root[j], Key(Strip(path)))
    ensures var r := Open(s, path, mode); var e := s.root[j];
            && r.fs == s
            && r.code == (if mode / 2 % 2 == 1 && e.attr % 2 == 1 then AccessDenied else Success)
            && (r.code == Success ==> r.handle == Handle(e.cluster, 0, e.size, mode, true))
  {
    hide Key, Strip, IsValidPath;
    LookupFinds(s.root, Key(Strip(path)));
  }

  /** When fs_open answers that there is no such file, and that the path is invalid. */
  lemma OpenFailsIff(s: Fs, path: seq<Byte>, mode: Byte)
    requires |s.t| == CLUSTERS && SlotsOk(s.root)
    ensures var r := Open(s, path, mode);
            && (r.code == InvalidPath <==> !IsValidPath(path))
            && (r.code == NotFound <==> IsValidPath(path) && !HasKey(s.root, Key(Strip(path))) && mode / 8 % 2 == 0)
            && (r.code == InvalidPath || r.code == NotFound ==> r.fs == s)
  {
    hide Key, Strip, IsValidPath;
    LookupFinds(s.root, Key(Strip(path)));
  }

  /** Every answer of fs_mkdir.  A directory made has attribute 0x10, size 0 and one cluster that was free
      and now ends a chain; its key finds it, and every other key finds what it did. */
  lemma MkdirAnswers(s: Fs, path: seq<Byte>)
    requires FsOk(s) && UniqueKeys(s.root)
    ensures var key := Key(Strip(path)); var r := Mkdir(s, path);
            var full := forall c | 2 <= c < CLUSTERS :: s.t[c] != 0;
            var noSlot := forall i | 0 <= i < |s.root| :: Used(s.root[i]);
            && r.code == (if !IsValidPath(path) then InvalidPath else if HasKey(s.root, key) then FileExists
                          else if full then DiskFull else if noSlot then IoError else Success)
            && (r.code != Success ==> r.fs == s)
            && (r.code == Success ==> exists i, c | 0 <= i < |s.root| && 2 <= c < CLUSTERS ::
                  && !Used(s.root[i]) && s.t[c] == 0
                  && r.fs == Fs(s.t[c := 0xFFF], s.root[i := Dirent(key, 0x10, c, 0)])
                  && (key[0] != 0x00 && key[0] != 0xE5 ==> Lookup(r.fs.root, key) == i))
            && (forall other: seq<Byte> | other != key :: Lookup(r.fs.root, other) == Lookup(s.root, other))
  {
    hide Key, Strip, IsValidPath, UniqueKeys;
    var key := Key(Strip(path));
    LookupFinds(s.root, key);
    var i, c := FirstUnused(s.root), FreeFrom(s.t, 2);
    if IsValidPath(path) && !HasKey(s.root, key) {
      CreateLookups(s, path, ATTR_DIRECTORY);
      if i < |s.root| && c < CLUSTERS {
        assert Mkdir(s, path).fs == Fs(s.t[c := 0xFFF], s.root[i := Dirent(key, 0x10, c, 0)]);
      }
    }
  }
}
