/** Real runs in which the file system does not meet its purpose, and what keeps it from them. */
module FsShortfalls {
  import opened Machine
  import opened DiskLayout
  import opened Names
  import opened Directory
  import opened FatChains
  import opened FsModel
  import opened FsOwnership
  import opened FsRuns

  // ---------------------------------------------------------------- creating

  ghost predicate HasRoom(s: Fs)
    requires |s.t| == CLUSTERS && SlotsOk(s.root)
  {
    FreeFrom(s.t, 2) < CLUSTERS && FirstUnused(s.root) < |s.root|
  }

  lemma FreshHasRoom()
    ensures HasRoom(Fresh().fs) && FreeFrom(Fresh().fs.t, 2) == 2 && FirstUnused(Fresh().fs.root) == 0
    ensures forall key :: Lookup(Fresh().fs.root, key) == ROOT_ENTRIES
  {
    assert !Used(Fresh().fs.root[0]);
    forall key
      ensures Lookup(Fresh().fs.root, key) == ROOT_ENTRIES
    {
      LookupIs(Fresh().fs.root, key, ROOT_ENTRIES);
    }
  }

  /** Creating a file where there is room, from any good state, keeps all clusters owned exactly if
      the name does not start with the deletion mark. */
  lemma OpenKeepsOwnedIff(s: State, path: seq<Byte>, mode: Byte)
    requires StateOk(s) && HasRoom(s.fs) && IsValidPath(path) && IsText(path) && CanCreate(mode)
    requires Lookup(s.fs.root, Key(Strip(path))) == |s.fs.root|
    ensures var r := Open(s.fs, path, mode);
            && (exists chains :: Owned(r.fs.t, r.fs.root, chains)) <==> Key(Strip(path))[0] != DELETED
  {
    hide Key, Strip, IsValidPath, Owned, UniqueKeys, HandleOk, Create;
    var chains :| Owned(s.fs.t, s.fs.root, chains);
    KeyStart(Strip(path)) by {
      StripText(path);
    }
    OpenIsCreate(s.fs, path, mode);
    if Key(Strip(path))[0] == DELETED {
      forall chains'
        ensures var r := Create(s.fs, path, ATTR_ARCHIVE).fs; !Owned(r.t, r.root, chains')
      {
        CreateLeaks(s.fs, path, ATTR_ARCHIVE, chains, chains');
      }
    } else {
      var chains' := CreateKeepsOwned(s.fs, path, ATTR_ARCHIVE, chains);
    }
  }

  lemma StripText(path: seq<Byte>)
    requires IsText(path)
    ensures 0 !in Strip(path)
  {
    assert forall c | c in Strip(path) :: c in path;
  }

  lemma OpenIsCreate(s: Fs, path: seq<Byte>, mode: Byte)
    requires |s.t| == CLUSTERS && SlotsOk(s.root) && HasRoom(s) && IsValidPath(path) && CanCreate(mode)
    requires Lookup(s.root, Key(Strip(path))) == |s.root|
    ensures Create(s, path, ATTR_ARCHIVE).code == Success
    ensures Open(s, path, mode).fs == Create(s, path, ATTR_ARCHIVE).fs
  {
    hide Key, Strip, IsValidPath;
  }

  /** So on a fresh file system one fs_open of such a path already loses a cluster. */
  lemma OpenLeaksFromFresh(path: seq<Byte>, mode: Byte, chains: seq<seq<int>>)
    requires IsValidPath(path) && IsText(path) && CanCreate(mode) && Key(Strip(path))[0] == DELETED
    ensures var s := Run([OpOpen(path, mode)]).fs; !Owned(s.t, s.root, chains)
  {
    hide Key, Strip, IsValidPath, Owned;
    FreshOk();
    FreshHasRoom();
    OpenKeepsOwnedIff(Fresh(), path, mode);
    RunOne(OpOpen(path, mode));
  }

  /** There are such paths: a slash and the mark. */
  lemma DeletedPath()
    ensures var path := [SLASH, DELETED]; IsValidPath(path) && IsText(path) && Key(Strip(path))[0] == DELETED
  {
    var n := [DELETED];
    assert n[1..] == [] && [SLASH, DELETED][1..] == n;
    assert IndexOf(n, DOT) == 1;
  }

  lemma RunOne(op: FsOp)
    ensures Run([op]) == Step(Fresh(), op)
  {
    assert [op][..0] == [];
  }

  // ---------------------------------------------------------------- looking up

  /** On a path the two lookups do not treat alike, one fs_open with CREATE makes them differ. */
  lemma OpenMakesLookupsDiffer(path: seq<Byte>, mode: Byte)
    requires IsValidPath(path) && IsText(path) && CanCreate(mode) && !PathAgrees(path)
    ensures var root := Run([OpOpen(path, mode)]).fs.root;
            RootWellFormed(root) && FindEntry(root, path) != Lookup(root, Key(Strip(path)))
  {
    hide Key, Strip, IsValidPath, PathAgrees, RootWellFormed, Lookup, FindEntry, Create, Open, Run;
    FreshHasRoom();
    OpenIsCreate(Fresh().fs, path, mode);
    RunOne(OpOpen(path, mode));
    FreshCreate(path, ATTR_ARCHIVE);
    LookupsDiffer(path, ATTR_ARCHIVE, 2);
  }

  lemma FreshCreate(path: seq<Byte>, attr: Byte)
    ensures Create(Fresh().fs, path, attr).fs.root == EmptyRoot()[0 := Dirent(Key(Strip(path)), attr, 2, 0)]
    ensures Create(Fresh().fs, path, attr).fs.t == Fresh().fs.t[2 := LAST]
  {
    hide Key, Strip;
    FreshHasRoom();
  }

  // ---------------------------------------------------------------- deleting

  /** After a successful fs_open with CREATE of any ordinary path, from any good state, deleting it
      leaves its entry behind on clusters that are free, and deleting it again never ends. */
  lemma CreatedFileCannotBeDeleted(s: State, path: seq<Byte>, mode: Byte) returns (cs: seq<int>)
    requires StateOk(s) && IsValidPath(path) && PlainPath(path) && CanCreate(mode)
    requires path[0] == SLASH && Base(path[1..]) != seq(8, _ => SLASH)
    requires var i := Lookup(s.fs.root, Key(Strip(path))); i < |s.fs.root| ==> !IsDirectory(s.fs.root[i].attr)
    requires Open(s.fs, path, mode).code == Success
    ensures var fs := Open(s.fs, path, mode).fs;
            && IsChain(fs.t, cs) && cs[0] == Open(s.fs, path, mode).handle.cluster && InTable(fs.t, cs)
            && SlotsOk(Delete(fs, path, cs).fs.root)
            && (forall chains :: !Owned(Delete(fs, path, cs).fs.t, Delete(fs, path, cs).fs.root, chains))
            && TableOk(Delete(fs, path, cs).fs.t)
            && (forall k: nat :: FreeLoop(Delete(fs, path, cs).fs.t, cs[0], k).Running?)
  {
    hide Key, Strip, IsValidPath, IsChain, Owned, UniqueKeys, HandleOk, Delete, Create, FreeLoop, Base;
    OpenKeepsState(s, path, mode);
    var fs := Open(s.fs, path, mode).fs;
    var chains :| Owned(fs.t, fs.root, chains);
    var i := OpenedSlot(s, path, mode);
    OwnedHeads(fs, chains, i);
    cs := chains[i];
    ChainInRange(fs.t, cs);
    KeysAgreeIff(path);
    DeleteOrphans(fs, path, chains);
    DeletingTwiceHangs(fs, path, chains, 0);
    forall k: nat
      ensures FreeLoop(Delete(fs, path, cs).fs.t, cs[0], k).Running?
    {
      DeletingTwiceHangs(fs, path, chains, k);
    }
  }

  /** For example from a fresh file system, with any letter as the name. */
  lemma FreshFileCannotBeDeleted(c: Byte, mode: Byte) returns (cs: seq<int>)
    requires 0x41 <= c <= 0x5A && CanCreate(mode)
    ensures var path := [SLASH, c]; var fs := Open(Fresh().fs, path, mode).fs;
            && InTable(fs.t, cs) && Open(Fresh().fs, path, mode).code == Success
            && SlotsOk(Delete(fs, path, cs).fs.root)
            && forall chains :: !Owned(Delete(fs, path, cs).fs.t, Delete(fs, path, cs).fs.root, chains)
  {
    var path := [SLASH, c];
    LetterPath(c);
    hide Key, Strip, IsValidPath, Owned, Delete, Create, Open, Base;
    FreshOk();
    FreshHasRoom();
    OpenCreates(Fresh().fs, path, mode);
    cs := CreatedFileCannotBeDeleted(Fresh(), path, mode);
  }

  lemma LetterPath(c: Byte)
    requires 0x41 <= c <= 0x5A
    ensures var path := [SLASH, c];
            IsValidPath(path) && PlainPath(path) && path[0] == SLASH && Base(path[1..]) != seq(8, _ => SLASH)
  {
    var n := [c];
    assert n[1..] == [] && [SLASH, c][1..] == n;
    assert IndexOf(n, DOT) == 1;
    assert |Base(n)| == 1;
  }

  lemma OwnedHeads(s: Fs, chains: seq<seq<int>>, i: nat)
    requires SlotsOk(s.root) && Owned(s.t, s.root, chains) && i < |s.root| && Used(s.root[i])
    ensures |chains| == |s.root| && IsChain(s.t, chains[i]) && chains[i][0] == s.root[i].cluster
  {
    assert Heads(s.t, s.root[i], chains[i]);
  }

  /** The slot an open leads to. */
  lemma OpenedSlot(s: State, path: seq<Byte>, mode: Byte) returns (i: nat)
    requires StateOk(s) && IsValidPath(path) && PlainPath(path) && CanCreate(mode)
    requires var i := Lookup(s.fs.root, Key(Strip(path))); i < |s.fs.root| ==> !IsDirectory(s.fs.root[i].attr)
    requires Open(s.fs, path, mode).code == Success
    ensures var r := Open(s.fs, path, mode);
            && i == Lookup(r.fs.root, Key(Strip(path))) < |r.fs.root|
            && Used(r.fs.root[i]) && r.fs.root[i].cluster == r.handle.cluster && !IsDirectory(r.fs.root[i].attr)
  {
    hide Key, Strip, IsValidPath, Owned, UniqueKeys, HandleOk;
    if Lookup(s.fs.root, Key(Strip(path))) == |s.fs.root| {
      OpenCreates(s.fs, path, mode);
    }
    i := Lookup(Open(s.fs, path, mode).fs.root, Key(Strip(path)));
  }

  // ---------------------------------------------------------------- writing

  /** One fs_open with CREATE and then n writes of 512 bytes. */
  function Pieces(path: seq<Byte>, mode: Byte, n: nat): (ops: seq<FsOp>)
    ensures |ops| == n + 1 && ops[0] == OpOpen(path, mode) && forall i | 0 < i <= n :: ops[i] == OpWrite(0, 512)
  {
    [OpOpen(path, mode)] + seq(n, _ => OpWrite(0, 512))
  }

  /** A file written in n pieces of 512 bytes has 512 * n bytes, for which it holds two clusters. */
  lemma {:induction false} PiecewiseFile(path: seq<Byte>, mode: Byte, n: nat) returns (chains: seq<seq<int>>)
    requires IsValidPath(path) && PlainPath(path) && CanCreate(mode) && CanWrite(mode) && n < 0x80_0000
    ensures var s := Run(Pieces(path, mode, n));
            && s.handles == [Handle(2, 512 * n, 512 * n, mode, true)]
            && Owned(s.fs.t, s.fs.root, chains) && Used(s.fs.root[0]) && s.fs.root[0].cluster == 2
            && |chains| == ROOT_ENTRIES && |chains[0]| == (if n == 0 then 1 else 2)
            && (n == 0 ==> 3 in FreeClusters(s.fs.t))
  {
    hide Run, Owned, PlainPath, IsValidPath, Key, Strip, Write, Open, Create, Growth, StateOk;
    var ops := Pieces(path, mode, n);
    if n == 0 {
      assert ops == [OpOpen(path, mode)];
      RunOne(OpOpen(path, mode));
      chains := PiecewiseStart(path, mode);
    } else {
      assert ops[..|ops| - 1] == Pieces(path, mode, n - 1);
      var s := Run(Pieces(path, mode, n - 1));
      chains := PiecewiseFile(path, mode, n - 1);
      RunLast(ops);
      RunKeepsState(Pieces(path, mode, n - 1));
      chains := PiecewiseNext(s, chains, mode, n);
    }
  }

  lemma RunLast(ops: seq<FsOp>)
    requires ops != []
    ensures Run(ops) == Step(Run(ops[..|ops| - 1]), ops[|ops| - 1])
  {
  }

  lemma PiecewiseStart(path: seq<Byte>, mode: Byte) returns (chains: seq<seq<int>>)
    requires IsValidPath(path) && PlainPath(path) && CanCreate(mode)
    ensures var s := Step(Fresh(), OpOpen(path, mode));
            && s.handles == [Handle(2, 0, 0, mode, true)]
            && Owned(s.fs.t, s.fs.root, chains) && Used(s.fs.root[0]) && s.fs.root[0].cluster == 2
            && |chains| == ROOT_ENTRIES && |chains[0]| == 1 && 3 in FreeClusters(s.fs.t)
  {
    hide Owned, IsValidPath, Key, Strip, Open, Create, Lookup;
    FreshOk();
    FreshOwned();
    FreshHasRoom();
    OpenCreates(Fresh().fs, path, mode);
    OpenIsCreate(Fresh().fs, path, mode);
    FreshCreate(path, ATTR_ARCHIVE);
    chains := CreateKeepsOwned(Fresh().fs, path, ATTR_ARCHIVE, seq(ROOT_ENTRIES, _ => []));
  }

  lemma PiecewiseNext(s: State, chains: seq<seq<int>>, mode: Byte, n: nat) returns (chains': seq<seq<int>>)
    requires 0 < n < 0x80_0000 && CanWrite(mode) && StateOk(s)
    requires s.handles == [Handle(2, 512 * (n - 1), 512 * (n - 1), mode, true)]
    requires Owned(s.fs.t, s.fs.root, chains) && Used(s.fs.root[0]) && s.fs.root[0].cluster == 2
    requires |chains| == ROOT_ENTRIES && |chains[0]| == if n == 1 then 1 else 2
    requires n == 1 ==> 3 in FreeClusters(s.fs.t)
    ensures var r := Step(s, OpWrite(0, 512));
            && r.handles == [Handle(2, 512 * n, 512 * n, mode, true)] && r.fs.root == s.fs.root
            && Owned(r.fs.t, r.fs.root, chains') && |chains'| == ROOT_ENTRIES && |chains'[0]| == 2
  {
    hide Owned, Write, Growth, UniqueKeys, HandleOk;
    var h := s.handles[0];
    var ext := WriteKeepsOwned(s.fs, h, 512, chains, 0);
    PieceGrowth(n - 1);
    WriteAdvances(s.fs, h, 512);
    chains' := chains[0 := chains[0] + ext];
  }

  lemma PieceGrowth(n: nat)
    ensures Growth(512 * n, 512, if n == 0 then 1 else 2) == if n == 0 then 1 else 0
  {
  }
}
