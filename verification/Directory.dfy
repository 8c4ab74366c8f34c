/** The root directory: its slots, the two lookups, and when they agree. */
module Directory {
  import opened Machine
  import opened DiskLayout
  import opened Names

  const DELETED: Byte := 0xE5

  /** fs_dirent_t; key is name and ext side by side. */
  datatype Dirent = Dirent(key: seq<Byte>, attr: Byte, cluster: int, size: int)

  /** A slot of the directory as fs_init leaves it. */
  const EMPTY_SLOT := Dirent([0, 0, 0, 0, 0, 0, 0, 0, 0, 0, 0], 0, 0, 0)

  function EmptyRoot(): (root: seq<Dirent>)
    ensures |root| == ROOT_ENTRIES && forall i | 0 <= i < |root| :: root[i] == EMPTY_SLOT
  {
    seq(ROOT_ENTRIES, _ => EMPTY_SLOT)
  }

  predicate Used(e: Dirent)
    requires |e.key| == 11
  {
    e.key[0] != 0 && e.key[0] != DELETED
  }

  predicate SlotsOk(root: seq<Dirent>)
  {
    forall i | 0 <= i < |root| :: |root[i].key| == 11
  }

  /** No key of a slot in use, or once in use, holds a zero byte, which would end a C string. */
  predicate TextKeys(root: seq<Dirent>)
    requires SlotsOk(root)
  {
    forall i | 0 <= i < |root| :: root[i].key[0] == 0 || 0 !in root[i].key
  }

  /** The path without its leading slash. */
  function Strip(path: seq<Byte>): seq<Byte>
  {
    if path != [] && path[0] == SLASH then path[1..] else path
  }

  // ---------------------------------------------------------------- find_directory_entry

  predicate KeyMatches(e: Dirent, key: seq<Byte>)
    requires |e.key| == 11
  {
    Used(e) && e.key == key
  }

  /** The first used slot with the key, or |root|. */
  function Lookup(root: seq<Dirent>, key: seq<Byte>): (k: nat)
    requires SlotsOk(root)
    ensures k <= |root|
    ensures k < |root| ==> KeyMatches(root[k], key)
    ensures forall j | 0 <= j < k :: !KeyMatches(root[j], key)
  {
    if root == [] || KeyMatches(root[0], key) then 0 else 1 + Lookup(root[1..], key)
  }

  lemma LookupIs(root: seq<Dirent>, key: seq<Byte>, k: nat)
    requires SlotsOk(root) && k <= |root| && (k < |root| ==> KeyMatches(root[k], key))
    requires forall j | 0 <= j < k :: !KeyMatches(root[j], key)
    ensures Lookup(root, key) == k
  {
  }

  // ---------------------------------------------------------------- find_entry

  predicate NameMatches(e: Dirent, name: seq<Byte>)
    requires |e.key| == 11
  {
    e.key[0] != 0 && SameIgnoringCase(Shown(e.key), name)
  }

  function FirstNamed(root: seq<Dirent>, name: seq<Byte>): (k: nat)
    requires SlotsOk(root)
    ensures k <= |root|
    ensures k < |root| ==> NameMatches(root[k], name)
    ensures forall j | 0 <= j < k :: !NameMatches(root[j], name)
  {
    if root == [] || NameMatches(root[0], name) then 0 else 1 + FirstNamed(root[1..], name)
  }

  /** find_entry: the slot shown under the path's name, or |root|; the root itself has none. */
  function FindEntry(root: seq<Dirent>, path: seq<Byte>): (k: nat)
    requires SlotsOk(root)
    ensures k <= |root|
  {
    if path == [SLASH] then |root| else FirstNamed(root, Strip(path))
  }

  // ---------------------------------------------------------------- agreement

  lemma KeyIgnoresCase(n: seq<Byte>)
    ensures Key(Upper(n)) == Key(n)
  {
    var u := Upper(n);
    IndexOfIs(u, DOT, IndexOf(n, DOT));
    assert Field(Base(u), 8) == Field(Base(n), 8);
    assert Field(Ext(u), 3) == Field(Ext(n), 3);
  }

  lemma ShownIsUpper(k: seq<Byte>)
    requires WellFormedKey(k)
    ensures Upper(Shown(k)) == Shown(k)
  {
    var n := Shown(k);
    forall i | 0 <= i < |n|
      ensures ToUpper(n[i]) == n[i]
    {
      var b := UpToSpace(k[..8]);
      if i < |b| {
        assert n[i] == k[..8][i];
      } else if i > |b| {
        assert n[i] == k[8..][i - |b| - 1];
      }
    }
  }

  /** What find_entry sees in a slot with a well-formed key. */
  lemma NameMatchesIff(e: Dirent, name: seq<Byte>)
    requires |e.key| == 11 && WellFormedKey(e.key) && e.key[0] != 0
    ensures NameMatches(e, name) <==> e.key == Key(name) && Canonical(name)
  {
    hide Shown, Key, Upper, WellFormedKey, Canonical, SameIgnoringCase;
    KeyShownIff(e.key);
    ShownIsUpper(e.key);
    SameIgnoringCaseIsUpper(Shown(e.key), name);
    ShownKeyIff(name);
    KeyIgnoresCase(name);
  }

  /** Every slot in use, or once in use, holds a well-formed key. */
  ghost predicate RootWellFormed(root: seq<Dirent>)
  {
    SlotsOk(root) && forall i | 0 <= i < |root| :: root[i].key[0] == 0 || WellFormedKey(root[i].key)
  }

  /** Both lookups treat this path alike. */
  predicate PathAgrees(path: seq<Byte>)
  {
    && path != [SLASH]
    && (WellFormedKey(Key(Strip(path))) ==> (Canonical(Strip(path)) <==> Key(Strip(path))[0] != DELETED))
  }

  /** On every well-formed directory the two lookups find the same slot, deleted slots included. */
  lemma LookupsAgree(root: seq<Dirent>, path: seq<Byte>)
    requires RootWellFormed(root) && PathAgrees(path)
    ensures FindEntry(root, path) == Lookup(root, Key(Strip(path)))
  {
    hide Shown, Key, WellFormedKey, Canonical, SameIgnoringCase, NameMatches, Strip;
    var name := Strip(path);
    forall i | 0 <= i < |root|
      ensures NameMatches(root[i], name) <==> KeyMatches(root[i], Key(name))
    {
      if root[i].key[0] == 0 {
        NoMatchInEmptySlot(root[i], name);
      } else {
        NameMatchesIff(root[i], name);
      }
    }
    LookupIs(root, Key(name), FirstNamed(root, name));
  }

  lemma NoMatchInEmptySlot(e: Dirent, name: seq<Byte>)
    requires |e.key| == 11 && e.key[0] == 0
    ensures !NameMatches(e, name)
  {
  }

  /** For every other path there is a well-formed directory on which they differ: that with the
      one entry a create of the path makes. */
  lemma LookupsDiffer(path: seq<Byte>, attr: Byte, cluster: int)
    requires !PathAgrees(path) && 0 !in path
    ensures var root := EmptyRoot()[0 := Dirent(Key(Strip(path)), attr, cluster, 0)];
            RootWellFormed(root) && FindEntry(root, path) != Lookup(root, Key(Strip(path)))
  {
    hide Shown, WellFormedKey, Canonical, SameIgnoringCase, NameMatches, IndexOf;
    var name := Strip(path);
    KeyStart(name);
    var e := Dirent(Key(name), attr, cluster, 0);
    var root := EmptyRoot()[0 := e];
    if path == [SLASH] {
      BlankKey();
      assert name == [];
    } else {
      NameMatchesIff(e, name);
    }
    forall i | 0 < i < |root|
      ensures !NameMatches(root[i], name) && !KeyMatches(root[i], Key(name))
    {
      NoMatchInEmptySlot(root[i], name);
    }
    LookupIs(root, Key(name), if Used(e) then 0 else |root|);
  }

  /** A canonical name has a well-formed key. */
  lemma CanonicalKey(n: seq<Byte>)
    requires Canonical(n)
    ensures WellFormedKey(Key(n))
  {
    hide Shown, Key, Upper, WellFormedKey, Canonical;
    CanonicalSurvives(n);
    KeyIgnoresCase(n);
    KeyShownIff(Key(n));
  }

  lemma KeyStart(name: seq<Byte>)
    requires 0 !in name
    ensures Key(name)[0] != 0
  {
    assert Base(name) != [] ==> Base(name)[0] in name;
  }

  lemma BlankKey()
    ensures WellFormedKey(Key([])) && Key([])[0] == SPACE
  {
    var k := Key([]);
    assert Base([]) == [] && Ext([]) == [];
  }

  /** In particular they agree on every canonical name that does not start with the deletion mark. */
  lemma CanonicalPathAgrees(path: seq<Byte>)
    requires path != [SLASH] && Canonical(Strip(path)) && (Strip(path) == [] || Strip(path)[0] != DELETED)
    ensures PathAgrees(path)
  {
  }
}
