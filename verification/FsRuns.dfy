/** Every run of opening, creating, making directories, writing, seeking, closing and deleting in the
    root directory. */
module FsRuns {
  import opened Machine
  import opened DiskLayout
  import opened Names
  import opened Directory
  import opened FatChains
  import opened FsModel
  import opened FsOwnership

  datatype FsOp =
    | OpOpen(path: seq<Byte>, mode: Byte)
    | OpMkdir(path: seq<Byte>)
    | OpWrite(handle: nat, count: nat)
    | OpSeek(handle: nat, offset: int, whence: int)
    | OpClose(handle: nat)
    | OpDelete(path: seq<Byte>)

  /** The file system and the handles fs_open has given out. */
  datatype State = State(fs: Fs, handles: seq<Handle>)

  ghost predicate Shaped(s: Fs)
  {
    TableOk(s.t) && |s.root| == ROOT_ENTRIES && SlotsOk(s.root)
  }

  /** The handle starts on the first cluster of some entry, and its words are in range. */
  ghost predicate HandleOk(s: Fs, h: Handle)
    requires SlotsOk(s.root)
  {
    && InRange(h)
    && exists i :: 0 <= i < |s.root| && Used(s.root[i]) && s.root[i].cluster == h.cluster
  }

  /** No key is used twice, every cluster in use is owned, and every handle is some entry's. */
  ghost predicate StateOk(s: State)
  {
    && FsOk(s.fs) && UniqueKeys(s.fs.root)
    && (exists chains :: Owned(s.fs.t, s.fs.root, chains))
    && forall k | 0 <= k < |s.handles| :: HandleOk(s.fs, s.handles[k])
  }

  ghost predicate InRange(h: Handle)
  {
    0 <= h.cluster < 0x10000 && 0 <= h.offset < 0x1_0000_0000
  }

  /** What fs_delete frees when it ends: the walk from the first cluster of the file. */
  ghost predicate Frees(s: Fs, path: seq<Byte>, ws: seq<int>)
    requires SlotsOk(s.root)
  {
    var i := Lookup(s.root, Key(Strip(path)));
    i < |s.root| && InTable(s.t, ws) && Leads(s.t, s.root[i].cluster, ws)
  }

  /** fs_delete; a call that would not end is none. */
  ghost function DeleteStep(s: Fs, path: seq<Byte>): (r: Fs)
    requires Shaped(s)
    ensures Shaped(r)
  {
    hide Delete, Key, Strip, Lookup;
    if exists ws :: Frees(s, path, ws) then
      var ws :| Frees(s, path, ws);
      Delete(s, path, ws).fs
    else s
  }

  /** One operation; a handle that was never given out is no operation.  StateOk says that those
      given out are in range. */
  ghost function Step(s: State, op: FsOp): (r: State)
    requires Shaped(s.fs)
    ensures Shaped(r.fs)
  {
    match op
    case OpOpen(path, mode) =>
      var r := Open(s.fs, path, mode);
      State(r.fs, if r.code == Success then s.handles + [r.handle] else s.handles)
    case OpMkdir(path) =>
      State(Mkdir(s.fs, path).fs, s.handles)
    case OpWrite(k, count) =>
      if k >= |s.handles| || !InRange(s.handles[k]) then s else
        var r := Write(s.fs, s.handles[k], count);
        State(r.fs, s.handles[k := r.handle])
    case OpSeek(k, offset, whence) =>
      if k >= |s.handles| then s else s.(handles := s.handles[k := Seek(s.handles[k], offset, whence).handle])
    case OpClose(k) =>
      if k >= |s.handles| then s else s.(handles := s.handles[k := s.handles[k].(valid := false)])
    case OpDelete(path) =>
      s.(fs := DeleteStep(s.fs, path))
  }

  /** The first byte of the key is not the deletion mark. */
  predicate PlainPath(path: seq<Byte>)
  {
    Key(Strip(path))[0] != DELETED && Key(Strip(path))[0] != 0
  }

  /** An operation other than a delete, on a name that does not start with the deletion mark. */
  predicate PlainOp(op: FsOp)
  {
    match op
    case OpOpen(path, _) => PlainPath(path)
    case OpMkdir(path) => PlainPath(path)
    case OpDelete(_) => false
    case _ => true
  }

  /** A plain operation, or a delete of a path with the same key with and without its slash. */
  predicate WorkingOp(op: FsOp)
  {
    if op.OpDelete? then Key(op.path) == Key(Strip(op.path)) else PlainOp(op)
  }

  // ---------------------------------------------------------------- one step

  /** Slots in use keep their keys and clusters through a create. */
  lemma CreateKeepsHandle(s: Fs, path: seq<Byte>, attr: Byte, h: Handle)
    requires FsOk(s) && HandleOk(s, h)
    ensures HandleOk(Create(s, path, attr).fs, h)
  {
    var i :| 0 <= i < |s.root| && Used(s.root[i]) && s.root[i].cluster == h.cluster;
    var root := Create(s, path, attr).fs.root;
    assert root[i] == s.root[i];
  }

  lemma CreateKeepsState(s: State, path: seq<Byte>, attr: Byte)
    requires StateOk(s) && PlainPath(path) && Lookup(s.fs.root, Key(Strip(path))) == |s.fs.root|
    ensures StateOk(State(Create(s.fs, path, attr).fs, s.handles))
  {
    hide Key, Strip, HandleOk, Owned, UniqueKeys, Create;
    var chains :| Owned(s.fs.t, s.fs.root, chains);
    var chains' := CreateKeepsOwned(s.fs, path, attr, chains);
    CreateLookups(s.fs, path, attr);
    forall k | 0 <= k < |s.handles|
      ensures HandleOk(Create(s.fs, path, attr).fs, s.handles[k])
    {
      CreateKeepsHandle(s.fs, path, attr, s.handles[k]);
    }
  }

  /** A handle fs_open gives out for slot i of an owned file system is a good one. */
  lemma FoundHandleOk(s: Fs, i: nat, mode: Byte)
    requires FsOk(s) && (exists chains :: Owned(s.t, s.root, chains)) && i < |s.root| && Used(s.root[i])
    ensures OpenFound(s, i, mode).fs == s
    ensures OpenFound(s, i, mode).code == Success ==> HandleOk(s, OpenFound(s, i, mode).handle)
  {
    var chains :| Owned(s.t, s.root, chains);
    assert Heads(s.t, s.root[i], chains[i]);
    ChainAt(s.t, chains[i], 0);
  }

  lemma OpenKeepsState(s: State, path: seq<Byte>, mode: Byte)
    requires StateOk(s) && PlainPath(path)
    ensures StateOk(Step(s, OpOpen(path, mode)))
  {
    hide Key, Strip, HandleOk, Owned, UniqueKeys, Create, OpenFound, IsValidPath, PlainPath;
    var i := Lookup(s.fs.root, Key(Strip(path)));
    if IsValidPath(path) {
      if i < |s.fs.root| {
        FoundHandleOk(s.fs, i, mode);
      } else if CanCreate(mode) {
        CreateKeepsState(s, path, ATTR_ARCHIVE);
        FailedCreate(s.fs, path, ATTR_ARCHIVE);
        var made := Create(s.fs, path, ATTR_ARCHIVE);
        var j := Lookup(made.fs.root, Key(Strip(path)));
        if made.code == Success && j < |made.fs.root| {
          FoundHandleOk(made.fs, j, mode);
        }
      }
    }
  }

  lemma FailedCreate(s: Fs, path: seq<Byte>, attr: Byte)
    requires |s.t| == CLUSTERS && SlotsOk(s.root)
    ensures Create(s, path, attr).code != Success ==> Create(s, path, attr).fs == s
  {
  }

  lemma HandleSlot(s: Fs, h: Handle) returns (i: nat)
    requires SlotsOk(s.root) && HandleOk(s, h)
    ensures InRange(h) && i < |s.root| && Used(s.root[i]) && s.root[i].cluster == h.cluster
  {
    i :| 0 <= i < |s.root| && Used(s.root[i]) && s.root[i].cluster == h.cluster;
  }

  lemma SameRootHandle(s: Fs, r: Fs, h: Handle, g: Handle)
    requires SlotsOk(s.root) && r.root == s.root && HandleOk(s, h) && g.cluster == h.cluster
    requires 0 <= g.offset < 0x1_0000_0000
    ensures HandleOk(r, g)
  {
  }

  lemma WriteKeepsState(s: State, k: nat, count: nat)
    requires StateOk(s)
    ensures StateOk(Step(s, OpWrite(k, count)))
  {
    hide Owned, WriteLoop, UniqueKeys, Write, HandleOk, TableOk;
    if k < |s.handles| {
      var h := s.handles[k];
      assert HandleOk(s.fs, h);
      var i := HandleSlot(s.fs, h);
      var chains :| Owned(s.fs.t, s.fs.root, chains);
      var ext := WriteKeepsOwned(s.fs, h, count, chains, i);
      var r := Write(s.fs, h, count);
      assert Owned(r.fs.t, r.fs.root, chains[i := chains[i] + ext]);
      var handles := s.handles[k := r.handle];
      forall j | 0 <= j < |handles|
        ensures HandleOk(r.fs, handles[j])
      {
        assert HandleOk(s.fs, s.handles[j]);
        var _ := HandleSlot(s.fs, s.handles[j]);
        SameRootHandle(s.fs, r.fs, s.handles[j], handles[j]);
      }
    }
  }

  lemma StepKeepsState(s: State, op: FsOp)
    requires StateOk(s) && PlainOp(op)
    ensures StateOk(Step(s, op))
  {
    hide Owned, UniqueKeys, HandleOk, Key, Strip, Create, Open, Write, PlainPath, Seek;
    match op
    case OpOpen(path, mode) => OpenKeepsState(s, path, mode);
    case OpMkdir(path) => MkdirKeepsState(s, path);
    case OpWrite(k, count) => WriteKeepsState(s, k, count);
    case OpSeek(k, offset, whence) =>
      if k < |s.handles| {
        MovedHandleKeepsState(s, k, Seek(s.handles[k], offset, whence).handle);
      }
    case OpClose(k) =>
      if k < |s.handles| {
        MovedHandleKeepsState(s, k, s.handles[k].(valid := false));
      }
  }

  /** A handle may move within its file, or be closed. */
  lemma MovedHandleKeepsState(s: State, k: nat, h: Handle)
    requires StateOk(s) && k < |s.handles| && h.cluster == s.handles[k].cluster
    requires h.offset == s.handles[k].offset || 0 <= h.offset < 0x1_0000_0000
    ensures StateOk(s.(handles := s.handles[k := h]))
  {
    hide Owned, UniqueKeys, HandleOk;
    assert HandleOk(s.fs, s.handles[k]);
    var _ := HandleSlot(s.fs, s.handles[k]);
    SameRootHandle(s.fs, s.fs, s.handles[k], h);
  }

  lemma MkdirKeepsState(s: State, path: seq<Byte>)
    requires StateOk(s) && PlainPath(path)
    ensures StateOk(State(Mkdir(s.fs, path).fs, s.handles))
  {
    hide Key, Strip, HandleOk, Owned, UniqueKeys, Create, IsValidPath;
    if Lookup(s.fs.root, Key(Strip(path))) == |s.fs.root| {
      CreateKeepsState(s, path, ATTR_DIRECTORY);
    }
  }

  // ---------------------------------------------------------------- runs

  /** After fs_init: clusters 0 and 1 stay 0, since fs_write_fat refuses to work before the file
      system is marked initialised. */
  ghost function Fresh(): State
  {
    State(Fs(seq(CLUSTERS, _ => 0), EmptyRoot()), [])
  }

  lemma FreshOwned()
    ensures Owned(Fresh().fs.t, Fresh().fs.root, seq(ROOT_ENTRIES, _ => []))
  {
    var chains: seq<seq<int>> := seq(ROOT_ENTRIES, _ => []);
    assert forall i | 0 <= i < ROOT_ENTRIES :: !Used(Fresh().fs.root[i]);
    assert forall c | 2 <= c < CLUSTERS :: !InSome(chains, c);
  }

  lemma FreshOk()
    ensures StateOk(Fresh())
  {
    FreshOwned();
  }

  /** The state after a run of operations, the last one last. */
  ghost function Run(ops: seq<FsOp>): (s: State)
    ensures Shaped(s.fs)
  {
    if ops == [] then Fresh() else Step(Run(ops[..|ops| - 1]), ops[|ops| - 1])
  }

  /** After every run whose names do not start with the deletion mark, all clusters in use are
      owned, by disjoint acyclic chains, and no key is used twice. */
  lemma {:induction false} RunKeepsState(ops: seq<FsOp>)
    requires forall i | 0 <= i < |ops| :: PlainOp(ops[i])
    ensures StateOk(Run(ops))
  {
    hide StateOk, Step, PlainOp;
    if ops == [] {
      FreshOk();
    } else {
      RunKeepsState(ops[..|ops| - 1]);
      StepKeepsState(Run(ops[..|ops| - 1]), ops[|ops| - 1]);
    }
  }

  /** After every run at all, no key is used twice. */
  lemma {:induction false} RunKeepsUnique(ops: seq<FsOp>)
    ensures UniqueKeys(Run(ops).fs.root)
  {
    hide Key, Strip, Create, Write, IsValidPath, OpenFound;
    if ops == [] {
      FreshOk();
    } else {
      var s := Run(ops[..|ops| - 1]);
      RunKeepsUnique(ops[..|ops| - 1]);
      match ops[|ops| - 1]
      case OpOpen(path, mode) =>
        if Lookup(s.fs.root, Key(Strip(path))) == |s.fs.root| {
          CreateKeepsUnique(s.fs, path, ATTR_ARCHIVE);
        }
        OpenFoundKeeps(s.fs, path, mode);
      case OpMkdir(path) =>
        if Lookup(s.fs.root, Key(Strip(path))) == |s.fs.root| {
          CreateKeepsUnique(s.fs, path, ATTR_DIRECTORY);
        }
      case OpDelete(path) =>
        DeleteRoot(s.fs, path);
      case _ =>
    }
  }

  lemma OpenFoundKeeps(s: Fs, path: seq<Byte>, mode: Byte)
    requires |s.t| == CLUSTERS && SlotsOk(s.root)
    ensures var i := Lookup(s.root, Key(Strip(path))); var r := Open(s, path, mode).fs;
            r == s || (i == |s.root| && r == Create(s, path, ATTR_ARCHIVE).fs)
  {
    hide Key, Strip, Create;
  }

  // ---------------------------------------------------------------- names over runs

  ghost predicate PathsAre(ops: seq<FsOp>, good: seq<Byte> -> bool)
  {
    forall i | 0 <= i < |ops| && (ops[i].OpOpen? || ops[i].OpMkdir?) :: good(ops[i].path)
  }

  predicate IsText(path: seq<Byte>)
  {
    0 !in path
  }

  predicate HasGoodKey(path: seq<Byte>)
  {
    WellFormedKey(Key(Strip(path)))
  }

  /** What a step does to the directory: nothing, or what a create of its path does. */
  lemma StepRoot(s: State, op: FsOp)
    requires Shaped(s.fs)
    ensures var root := Step(s, op).fs.root;
            || root == s.fs.root
            || ((op.OpOpen? || op.OpMkdir?) && exists attr :: root == Create(s.fs, op.path, attr).fs.root)
            || exists j :: 0 <= j < |s.fs.root| && Used(s.fs.root[j]) && root == s.fs.root[j := Erased(s.fs.root[j])]
  {
    hide Key, Strip, Create, Open, Write, IsValidPath, DeleteStep;
    match op
    case OpOpen(path, mode) => OpenFoundKeeps(s.fs, path, mode);
    case OpMkdir(path) =>
    case OpDelete(path) => DeleteRoot(s.fs, path);
    case _ =>
  }

  /** The slot with its key marked as deleted. */
  function Erased(e: Dirent): Dirent
    requires |e.key| == 11
  {
    e.(key := e.key[0 := DELETED])
  }

  lemma DeleteRoot(s: Fs, path: seq<Byte>)
    requires Shaped(s)
    ensures var root := DeleteStep(s, path).root;
            root == s.root || exists j :: 0 <= j < |s.root| && Used(s.root[j]) && root == s.root[j := Erased(s.root[j])]
  {
    hide Key, Strip, IsValidPath;
    if ws :| Frees(s, path, ws) {
      var j := Lookup(s.root, Key(path));
      if j < |s.root| {
        assert s.root[j := Erased(s.root[j])] == s.root[j := s.root[j].(key := s.root[j].key[0 := DELETED])];
      }
    }
  }

  /** After every run on C strings the keys hold no zero byte. */
  lemma {:induction false} RunKeepsText(ops: seq<FsOp>)
    requires PathsAre(ops, IsText)
    ensures TextKeys(Run(ops).fs.root)
  {
    hide Key, Strip, Step;
    if ops != [] {
      var before, op := ops[..|ops| - 1], ops[|ops| - 1];
      assert PathsAre(before, IsText);
      RunKeepsText(before);
      StepRoot(Run(before), op);
      ErasedText(Run(before).fs.root);
      if op.OpOpen? || op.OpMkdir? {
        TextKey(op.path);
      }
    }
  }

  lemma ErasedText(root: seq<Dirent>)
    requires SlotsOk(root) && TextKeys(root)
    ensures forall i | 0 <= i < |root| && Used(root[i]) :: 0 !in Erased(root[i]).key
  {
    forall i | 0 <= i < |root| && Used(root[i])
      ensures 0 !in Erased(root[i]).key
    {
      assert forall k | 0 <= k < 11 :: root[i].key[k] in root[i].key;
    }
  }

  lemma TextKey(path: seq<Byte>)
    requires IsText(path)
    ensures 0 !in Key(Strip(path))
  {
    var n := Strip(path);
    assert forall c | c in n :: c in path;
    assert forall c | c in Base(n) || c in Ext(n) :: c in n;
    assert forall i | 0 <= i < |Base(n)| :: Base(n)[i] in Base(n);
    assert forall i | 0 <= i < |Ext(n)| :: Ext(n)[i] in Ext(n);
    assert 0 !in Field(Base(n), 8) && 0 !in Field(Ext(n), 3);
  }

  /** After every run on names with well-formed keys the directory is well-formed. */
  lemma {:induction false} RunKeepsWellFormed(ops: seq<FsOp>)
    requires PathsAre(ops, HasGoodKey)
    ensures RootWellFormed(Run(ops).fs.root)
  {
    hide Key, Strip, Step, WellFormedKey;
    if ops != [] {
      var before, op := ops[..|ops| - 1], ops[|ops| - 1];
      assert PathsAre(before, HasGoodKey);
      RunKeepsWellFormed(before);
      StepRoot(Run(before), op);
      ErasedWellFormed(Run(before).fs.root);
    }
  }

  /** A key stays well-formed when it is marked as deleted. */
  lemma ErasedWellFormed(root: seq<Dirent>)
    requires SlotsOk(root)
    ensures forall i | 0 <= i < |root| && WellFormedKey(root[i].key) :: WellFormedKey(Erased(root[i]).key)
  {
    forall i | 0 <= i < |root| && WellFormedKey(root[i].key)
      ensures WellFormedKey(Erased(root[i]).key)
    {
      var k, e := root[i].key, Erased(root[i]).key;
      assert e[8..] == k[8..];
      assert e[..8] == k[..8][0 := DELETED];
      assert forall j | 1 <= j < 8 :: e[..8][j] == k[..8][j] && k[..8][j] in k[..8];
    }
  }

  predicate IsCanonical(path: seq<Byte>)
  {
    Canonical(Strip(path))
  }

  /** After every run on canonical names the two lookups find the same slot for every path they
      treat alike, and so for every canonical name that does not start with the deletion mark. */
  lemma LookupsAgreeInRuns(ops: seq<FsOp>, path: seq<Byte>)
    requires PathsAre(ops, IsCanonical) && PathAgrees(path)
    ensures FindEntry(Run(ops).fs.root, path) == Lookup(Run(ops).fs.root, Key(Strip(path)))
  {
    hide Key, Strip, Run, WellFormedKey, Canonical, PathAgrees;
    forall i | 0 <= i < |ops| && (ops[i].OpOpen? || ops[i].OpMkdir?)
      ensures HasGoodKey(ops[i].path)
    {
      CanonicalKey(Strip(ops[i].path));
    }
    RunKeepsWellFormed(ops);
    LookupsAgree(Run(ops).fs.root, path);
  }

  // ---------------------------------------------------------------- chain lengths over runs

  ghost predicate NoLonger(chains: seq<seq<int>>, n: nat)
  {
    forall i | 0 <= i < |chains| :: |chains[i]| <= n
  }

  predicate WritesAtMost(op: FsOp, bytes: nat)
  {
    op.OpWrite? ==> op.count <= bytes
  }

  lemma WriteKeepsShort(s: State, k: nat, count: nat, chains: seq<seq<int>>, m: nat) returns (chains': seq<seq<int>>)
    requires StateOk(s) && Owned(s.fs.t, s.fs.root, chains) && NoLonger(chains, m + 1) && count <= 512 * m
    ensures var r := Step(s, OpWrite(k, count)).fs; Owned(r.t, r.root, chains') && NoLonger(chains', m + 1)
  {
    hide Owned, WriteLoop, UniqueKeys, Write, HandleOk, TableOk, Growth;
    chains' := chains;
    if k < |s.handles| {
      var h := s.handles[k];
      assert HandleOk(s.fs, h);
      var i := HandleSlot(s.fs, h);
      var ext := WriteKeepsOwned(s.fs, h, count, chains, i);
      SmallWritesStop(h.offset, count, |chains[i]|, m);
      chains' := chains[i := chains[i] + ext];
    }
  }

  lemma CreateKeepsShort(s: Fs, path: seq<Byte>, attr: Byte, chains: seq<seq<int>>, m: nat)
    returns (chains': seq<seq<int>>)
    requires FsOk(s) && Owned(s.t, s.root, chains) && NoLonger(chains, m + 1) && PlainPath(path)
    ensures var r := Create(s, path, attr).fs; Owned(r.t, r.root, chains') && NoLonger(chains', m + 1)
  {
    hide Key, Strip;
    chains' := CreateKeepsOwned(s, path, attr, chains);
  }

  /** Over every run whose writes are of at most 512 * m bytes each, no file ever holds more than
      m + 1 clusters, however many bytes are written to it. */
  lemma {:induction false} SmallWritesKeepShort(ops: seq<FsOp>, m: nat) returns (chains: seq<seq<int>>)
    requires forall i | 0 <= i < |ops| :: PlainOp(ops[i]) && WritesAtMost(ops[i], 512 * m)
    ensures Owned(Run(ops).fs.t, Run(ops).fs.root, chains) && NoLonger(chains, m + 1)
  {
    hide Owned, Key, Strip, Create, Open, Write, IsValidPath, PlainPath, UniqueKeys;
    if ops == [] {
      chains := seq(ROOT_ENTRIES, _ => []);
      FreshOwned();
    } else {
      var before, op := ops[..|ops| - 1], ops[|ops| - 1];
      var s := Run(before);
      RunKeepsState(before);
      chains := SmallWritesKeepShort(before, m);
      match op
      case OpOpen(path, mode) =>
        OpenFoundKeeps(s.fs, path, mode);
        if Step(s, op).fs != s.fs {
          chains := CreateKeepsShort(s.fs, path, ATTR_ARCHIVE, chains, m);
        }
      case OpMkdir(path) =>
        if Step(s, op).fs != s.fs {
          chains := CreateKeepsShort(s.fs, path, ATTR_DIRECTORY, chains, m);
        }
      case OpWrite(k, count) =>
        chains := WriteKeepsShort(s, k, count, chains, m);
      case _ =>
    }
  }

  // ---------------------------------------------------------------- sizes over runs

  /** fs_write never writes the size back: after every run every entry says 0. */
  lemma {:induction false} SizesStayZero(ops: seq<FsOp>)
    ensures forall i | 0 <= i < ROOT_ENTRIES :: Run(ops).fs.root[i].size == 0
  {
    hide Key, Strip, Step;
    if ops != [] {
      var before, op := ops[..|ops| - 1], ops[|ops| - 1];
      SizesStayZero(before);
      StepRoot(Run(before), op);
    }
  }

  /** So every file is empty when it is opened again, whatever was written to it. */
  lemma ReopenedEmpty(ops: seq<FsOp>, path: seq<Byte>, mode: Byte)
    ensures var r := Open(Run(ops).fs, path, mode); r.code == Success ==> r.handle.size == 0
  {
    hide Key, Strip, Run, IsValidPath;
    SizesStayZero(ops);
  }

  // ---------------------------------------------------------------- runs with deletes

  /** StateOk, except that a handle may be of a file that has been deleted. */
  ghost predicate OwnedOk(s: State)
  {
    && FsOk(s.fs) && UniqueKeys(s.fs.root)
    && (exists chains :: Owned(s.fs.t, s.fs.root, chains))
    && forall k | 0 <= k < |s.handles| :: IsDataHandle(s.handles[k])
  }

  ghost predicate IsDataHandle(h: Handle)
  {
    2 <= h.cluster < CLUSTERS && 0 <= h.offset < 0x1_0000_0000
  }

  /** In an owned file system fs_delete frees exactly the chain of the file. */
  lemma DeleteStepIs(s: Fs, path: seq<Byte>, chains: seq<seq<int>>)
    requires FsOk(s) && Owned(s.t, s.root, chains)
    ensures var i := Lookup(s.root, Key(Strip(path)));
            && |chains| == |s.root|
            && (i == |s.root| ==> DeleteStep(s, path) == s)
            && (i < |s.root| ==> InTable(s.t, chains[i]) && DeleteStep(s, path) == Delete(s, path, chains[i]).fs)
  {
    hide Key, Strip, IsValidPath, IsChain, IsWalk, Delete;
    var i := Lookup(s.root, Key(Strip(path)));
    if i < |s.root| {
      var cs := chains[i];
      assert Heads(s.t, s.root[i], cs);
      ChainInRange(s.t, cs);
      ChainIsWalk(s.t, cs);
      assert cs[0] in cs;
      assert Frees(s, path, cs);
      forall ws | Frees(s, path, ws)
        ensures ws == cs
      {
        WalkUnique(s.t, ws, cs);
      }
    }
  }

  lemma DeleteKeepsOwnedOk(s: State, path: seq<Byte>)
    requires OwnedOk(s) && Key(path) == Key(Strip(path))
    ensures OwnedOk(s.(fs := DeleteStep(s.fs, path)))
  {
    hide Key, Strip, IsChain, Owned;
    var chains :| Owned(s.fs.t, s.fs.root, chains);
    DeleteStepIs(s.fs, path, chains);
    DeleteRoot(s.fs, path);
    var i := Lookup(s.fs.root, Key(Strip(path)));
    if IsValidPath(path) && i < |s.fs.root| && !IsDirectory(s.fs.root[i].attr) {
      DeleteKeepsOwnedIff(s.fs, path, chains);
      ChainsAreData(s.fs, chains, i);
    }
  }

  lemma ChainsAreData(s: Fs, chains: seq<seq<int>>, i: nat)
    requires FsOk(s) && Owned(s.t, s.root, chains) && i < |s.root|
    ensures |chains| == |s.root| && forall c | c in chains[i] :: 2 <= c < CLUSTERS
  {
    assert Heads(s.t, s.root[i], chains[i]);
    if Used(s.root[i]) {
      ChainInRange(s.t, chains[i]);
    }
  }

  /** After such a delete the handles of the deleted file, and only they, are no entry's any more. */
  lemma DeletedHandleIff(s: Fs, path: seq<Byte>, chains: seq<seq<int>>, h: Handle)
    requires FsOk(s) && UniqueKeys(s.root) && Owned(s.t, s.root, chains)
    requires IsValidPath(path) && Key(path) == Key(Strip(path))
    requires var i := Lookup(s.root, Key(Strip(path))); i < |s.root| && !IsDirectory(s.root[i].attr)
    ensures HandleOk(DeleteStep(s, path), h) <==>
            HandleOk(s, h) && h.cluster != s.root[Lookup(s.root, Key(Strip(path)))].cluster
  {
    hide Key, Strip, IsValidPath, IsChain, DeleteStep;
    var i := Lookup(s.root, Key(Strip(path)));
    DeleteStepIs(s, path, chains);
    var root := DeleteStep(s, path).root;
    assert root == s.root[i := Erased(s.root[i])];
    forall j | 0 <= j < |s.root| && j != i && Used(s.root[j])
      ensures s.root[j].cluster != s.root[i].cluster
    {
      assert Heads(s.t, s.root[i], chains[i]) && Heads(s.t, s.root[j], chains[j]) && Apart(chains[i], chains[j]);
      ChainInRange(s.t, chains[i]);
      ChainInRange(s.t, chains[j]);
      assert chains[i][0] in chains[i] && chains[j][0] in chains[j];
    }
    if HandleOk(s, h) && h.cluster != s.root[i].cluster {
      var j := HandleSlot(s, h);
      assert root[j] == s.root[j];
    }
  }

  lemma WriteKeepsOwnedOk(s: State, k: nat, count: nat)
    requires OwnedOk(s)
    ensures OwnedOk(Step(s, OpWrite(k, count)))
  {
    hide Owned, UniqueKeys, Write, TableOk;
    if k < |s.handles| {
      assert IsDataHandle(s.handles[k]);
      var chains :| Owned(s.fs.t, s.fs.root, chains);
      var chains' := AnyWriteKeepsOwned(s.fs, s.handles[k], count, chains);
    }
  }

  lemma CreateKeepsOwnedOk(s: State, path: seq<Byte>, attr: Byte)
    requires OwnedOk(s) && PlainPath(path) && Lookup(s.fs.root, Key(Strip(path))) == |s.fs.root|
    ensures OwnedOk(State(Create(s.fs, path, attr).fs, s.handles))
  {
    hide Key, Strip, Owned, UniqueKeys, Create;
    var chains :| Owned(s.fs.t, s.fs.root, chains);
    var chains' := CreateKeepsOwned(s.fs, path, attr, chains);
    CreateLookups(s.fs, path, attr);
  }

  lemma OpenKeepsOwnedOk(s: State, path: seq<Byte>, mode: Byte)
    requires OwnedOk(s) && PlainPath(path)
    ensures OwnedOk(Step(s, OpOpen(path, mode)))
  {
    hide Key, Strip, Owned, UniqueKeys, Create, OpenFound, IsValidPath, PlainPath, HandleOk;
    var i := Lookup(s.fs.root, Key(Strip(path)));
    if IsValidPath(path) {
      if i < |s.fs.root| {
        FoundDataHandle(s.fs, i, mode);
      } else if CanCreate(mode) {
        CreateKeepsOwnedOk(s, path, ATTR_ARCHIVE);
        FailedCreate(s.fs, path, ATTR_ARCHIVE);
        var made := Create(s.fs, path, ATTR_ARCHIVE);
        var j := Lookup(made.fs.root, Key(Strip(path)));
        if made.code == Success && j < |made.fs.root| {
          FoundDataHandle(made.fs, j, mode);
        }
      }
    }
  }

  lemma FoundDataHandle(s: Fs, i: nat, mode: Byte)
    requires FsOk(s) && (exists chains :: Owned(s.t, s.root, chains)) && i < |s.root| && Used(s.root[i])
    ensures OpenFound(s, i, mode).fs == s
    ensures OpenFound(s, i, mode).code == Success ==> IsDataHandle(OpenFound(s, i, mode).handle)
  {
    var chains :| Owned(s.t, s.root, chains);
    assert Heads(s.t, s.root[i], chains[i]);
    ChainAt(s.t, chains[i], 0);
  }

  lemma StepKeepsOwnedOk(s: State, op: FsOp)
    requires OwnedOk(s) && WorkingOp(op)
    ensures OwnedOk(Step(s, op))
  {
    hide Owned, UniqueKeys, Key, Strip, Create, Open, Write, PlainPath, DeleteStep, IsValidPath;
    match op
    case OpOpen(path, mode) => OpenKeepsOwnedOk(s, path, mode);
    case OpMkdir(path) =>
      if Lookup(s.fs.root, Key(Strip(path))) == |s.fs.root| {
        CreateKeepsOwnedOk(s, path, ATTR_DIRECTORY);
      }
    case OpWrite(k, count) => WriteKeepsOwnedOk(s, k, count);
    case OpSeek(k, offset, whence) =>
    case OpClose(k) =>
    case OpDelete(path) => DeleteKeepsOwnedOk(s, path);
  }

  /** Over every run with deletes of such paths too, all clusters in use stay owned, by disjoint
      acyclic chains, and no key is used twice, even if files are written through handles that
      were opened before they were deleted. */
  lemma {:induction false} RunKeepsOwned(ops: seq<FsOp>)
    requires forall i | 0 <= i < |ops| :: WorkingOp(ops[i])
    ensures OwnedOk(Run(ops))
  {
    hide OwnedOk, Step, WorkingOp;
    if ops == [] {
      FreshOwnedOk();
    } else {
      RunKeepsOwned(ops[..|ops| - 1]);
      StepKeepsOwnedOk(Run(ops[..|ops| - 1]), ops[|ops| - 1]);
    }
  }

  lemma FreshOwnedOk()
    ensures OwnedOk(Fresh())
  {
    hide Owned;
    FreshOk();
  }

  /** Deleting such a path right after it was created restores the table, and leaves a marked slot. */
  lemma DeleteUndoesCreate(s: State, path: seq<Byte>)
    requires OwnedOk(s) && IsValidPath(path) && PlainPath(path) && Key(path) == Key(Strip(path))
    requires Lookup(s.fs.root, Key(Strip(path))) == |s.fs.root|
    requires Create(s.fs, path, ATTR_ARCHIVE).code == Success
    ensures var made := Create(s.fs, path, ATTR_ARCHIVE).fs; var i := FirstUnused(s.fs.root);
            && i < |s.fs.root| && Shaped(made)
            && DeleteStep(made, path) == Fs(s.fs.t, s.fs.root[i := Erased(made.root[i])])
  {
    hide Key, Strip, IsValidPath, IsChain, Owned, UniqueKeys, DeleteStep;
    var chains :| Owned(s.fs.t, s.fs.root, chains);
    var made, i, c := Create(s.fs, path, ATTR_ARCHIVE).fs, FirstUnused(s.fs.root), FreeFrom(s.fs.t, 2);
    var chains' := CreateKeepsOwned(s.fs, path, ATTR_ARCHIVE, chains);
    CreateLookups(s.fs, path, ATTR_ARCHIVE);
    DeleteStepIs(made, path, chains');
    assert chains'[i] == [c] by { OwnedLength(s.fs, chains); }
    UndoAllocation(s.fs.t, c);
    assert made.root[i := Erased(made.root[i])] == s.fs.root[i := Erased(made.root[i])];
  }

  lemma OwnedLength(s: Fs, chains: seq<seq<int>>)
    requires SlotsOk(s.root) && Owned(s.t, s.root, chains)
    ensures |chains| == |s.root|
  {
  }

  /** There are such paths: the dot, for one. */
  lemma DotWorks()
    ensures IsValidPath([DOT]) && PlainPath([DOT]) && Key([DOT]) == Key(Strip([DOT]))
  {
    assert IndexOf([DOT], DOT) == 0;
    assert Base([DOT]) == [] && Strip([DOT]) == [DOT];
  }

  // ---------------------------------------------------------------- opening again

  /** No operation of more deletes the key. */
  ghost predicate Spares(more: seq<FsOp>, key: seq<Byte>)
  {
    forall i | 0 <= i < |more| && more[i].OpDelete? :: Key(more[i].path) != key
  }

  /** An entry stays as it is until it is deleted. */
  lemma StepKeepsEntry(s: State, op: FsOp, j: nat)
    requires Shaped(s.fs) && j < |s.fs.root| && Used(s.fs.root[j])
    requires op.OpDelete? ==> Key(op.path) != s.fs.root[j].key
    ensures Step(s, op).fs.root[j] == s.fs.root[j]
  {
    hide Key, Strip, Write, IsValidPath, Delete, DeleteStep, Open;
    match op
    case OpOpen(path, mode) => OpenFoundKeeps(s.fs, path, mode);
    case OpMkdir(path) =>
    case OpDelete(path) => DeleteSpares(s.fs, path, j);
    case _ =>
  }

  lemma DeleteSpares(s: Fs, path: seq<Byte>, j: nat)
    requires Shaped(s) && j < |s.root| && Used(s.root[j]) && Key(path) != s.root[j].key
    ensures DeleteStep(s, path).root[j] == s.root[j]
  {
    hide Key, Strip, IsValidPath;
  }

  lemma {:induction false} EntryPersists(ops: seq<FsOp>, more: seq<FsOp>, j: nat)
    requires j < ROOT_ENTRIES && Used(Run(ops).fs.root[j]) && Spares(more, Run(ops).fs.root[j].key)
    ensures Run(ops + more).fs.root[j] == Run(ops).fs.root[j]
  {
    hide Key, Step;
    if more == [] {
      assert ops + more == ops;
    } else {
      var before := more[..|more| - 1];
      EntryPersists(ops, before, j);
      assert (ops + more)[..|ops + more| - 1] == ops + before;
      StepKeepsEntry(Run(ops + before), more[|more| - 1], j);
    }
  }

  /** No entry made in any run is read-only. */
  lemma {:induction false} NoneReadOnly(ops: seq<FsOp>)
    ensures forall i | 0 <= i < ROOT_ENTRIES :: Run(ops).fs.root[i].attr % 2 == 0
  {
    hide Key, Strip, Write, IsValidPath, DeleteStep, Open;
    if ops != [] {
      var before, op := ops[..|ops| - 1], ops[|ops| - 1];
      NoneReadOnly(before);
      var s := Run(before);
      match op
      case OpOpen(path, mode) => OpenFoundKeeps(s.fs, path, mode);
      case OpMkdir(path) =>
      case OpDelete(path) => DeleteRoot(s.fs, path);
      case _ =>
    }
  }

  /** A path that was opened once opens again in every mode, on the same cluster, after any further
      operations that do not delete it. */
  lemma OpensAgain(ops: seq<FsOp>, path: seq<Byte>, mode: Byte, more: seq<FsOp>, mode': Byte)
    requires Open(Run(ops).fs, path, mode).code == Success && Spares(more, Key(Strip(path)))
    ensures var s := Run(ops + [OpOpen(path, mode)] + more).fs; var r := Open(s, path, mode');
            r == OpenResult(s, Success, Handle(Open(Run(ops).fs, path, mode).handle.cluster, 0, 0, mode', true))
  {
    var upTo := ops + [OpOpen(path, mode)];
    assert upTo[..|upTo| - 1] == ops;
    var j := OpenedAt(Run(ops).fs, path, mode);
    EntryPersists(upTo, more, j);
    RunKeepsUnique(upTo + more);
    SizesStayZero(upTo + more);
    NoneReadOnly(upTo + more);
    hide Key, Strip, Run, Open, IsValidPath, UniqueKeys;
    OpenExisting(Run(upTo + more).fs, path, mode', j);
  }

  /** The entry a successful open leads to. */
  lemma OpenedAt(s: Fs, path: seq<Byte>, mode: Byte) returns (j: nat)
    requires Shaped(s) && Open(s, path, mode).code == Success
    ensures IsValidPath(path)
    ensures var r := Open(s, path, mode);
            j < |r.fs.root| && IsEntry(r.fs.root[j], Key(Strip(path))) && r.fs.root[j].cluster == r.handle.cluster
  {
    hide Key, Strip, IsValidPath;
    j := Lookup(Open(s, path, mode).fs.root, Key(Strip(path)));
  }
}
