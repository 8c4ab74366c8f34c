/** 8.3 names: the 11-byte directory key of a file name, and the name shown for a key. */
module Names {
  import opened Machine

  const SPACE: Byte := 0x20
  const DOT: Byte := 0x2E
  const SLASH: Byte := 0x2F

  // ---------------------------------------------------------------- C string functions on sequences

  /** The index of the first c in s, or |s|: strchr with NULL as |s|. */
  function IndexOf(s: seq<Byte>, c: Byte): (k: nat)
    ensures k <= |s|
    ensures k < |s| ==> s[k] == c
    ensures forall j | 0 <= j < k :: s[j] != c
  {
    if s == [] || s[0] == c then 0 else 1 + IndexOf(s[1..], c)
  }

  lemma IndexOfIs(s: seq<Byte>, c: Byte, k: nat)
    requires k <= |s| && (k < |s| ==> s[k] == c) && forall j | 0 <= j < k :: s[j] != c
    ensures IndexOf(s, c) == k
  {
  }

  method Strchr(s: seq<Byte>, c: Byte) returns (k: nat)
    ensures k == IndexOf(s, c)
  {
    k := 0;
    while k < |s| && s[k] != c
      invariant k <= |s| && forall j | 0 <= j < k :: s[j] != c
    {
      k := k + 1;
    }
    IndexOfIs(s, c, k);
  }

  function ToUpper(c: Byte): Byte
  {
    if 0x61 <= c <= 0x7A then c - 0x61 + 0x41 else c
  }

  function ToLower(c: Byte): Byte
  {
    if 0x41 <= c <= 0x5A then c - 0x41 + 0x61 else c
  }

  /** What the two do to a byte: capitals are 0x41 to 0x5A, small letters 0x61 to 0x7A. */
  lemma CaseIs(c: Byte)
    ensures ToUpper(c) == (if 0x61 <= c <= 0x7A then c - 0x20 else c) && !(0x61 <= ToUpper(c) <= 0x7A)
    ensures ToLower(c) == (if 0x41 <= c <= 0x5A then c + 0x20 else c) && !(0x41 <= ToLower(c) <= 0x5A)
  {
  }

  function Upper(s: seq<Byte>): (r: seq<Byte>)
    ensures |r| == |s| && forall i | 0 <= i < |s| :: r[i] == ToUpper(s[i])
  {
    seq(|s|, i requires 0 <= i < |s| => ToUpper(s[i]))
  }

  /** strcasecmp(a, b) == 0 */
  predicate SameIgnoringCase(a: seq<Byte>, b: seq<Byte>)
  {
    |a| == |b| && forall i | 0 <= i < |a| :: ToLower(a[i]) == ToLower(b[i])
  }

  lemma SameIgnoringCaseIsUpper(a: seq<Byte>, b: seq<Byte>)
    ensures SameIgnoringCase(a, b) <==> Upper(a) == Upper(b)
  {
    if Upper(a) == Upper(b) {
      assert |a| == |b|;
      forall i | 0 <= i < |a|
        ensures ToLower(a[i]) == ToLower(b[i])
      {
        assert Upper(a)[i] == Upper(b)[i];
      }
    }
  }

  /** The length of the longest common beginning, up to case. */
  function Common(a: seq<Byte>, b: seq<Byte>): (k: nat)
    ensures k <= |a| && k <= |b|
    ensures forall i | 0 <= i < k :: ToLower(a[i]) == ToLower(b[i])
    ensures k < |a| && k < |b| ==> ToLower(a[k]) != ToLower(b[k])
  {
    if a == [] || b == [] || ToLower(a[0]) != ToLower(b[0]) then 0 else 1 + Common(a[1..], b[1..])
  }

  lemma CommonIs(a: seq<Byte>, b: seq<Byte>, k: nat)
    requires k <= |a| && k <= |b| && (forall i | 0 <= i < k :: ToLower(a[i]) == ToLower(b[i]))
    requires k < |a| && k < |b| ==> ToLower(a[k]) != ToLower(b[k])
    ensures Common(a, b) == k
  {
  }

  /** The byte as a char, which is signed. */
  function Signed(c: Byte): int
  {
    if c < 0x80 then c else c - 0x100
  }

  /** The byte at k, or the zero that ends the string. */
  function ByteAt(s: seq<Byte>, k: nat): int
  {
    if k < |s| then s[k] else 0
  }

  /** Zero exactly if the strings agree up to case; otherwise the difference of the first
      characters that differ, as signed characters, or of a character and the end. */
  method Strcasecmp(a: seq<Byte>, b: seq<Byte>) returns (r: int)
    requires 0 !in a && 0 !in b
    ensures r == 0 <==> SameIgnoringCase(a, b)
    ensures var k := Common(a, b);
            r == if k < |a| && k < |b| then Signed(ToLower(a[k])) - Signed(ToLower(b[k]))
                 else ByteAt(a, k) - ByteAt(b, k)
  {
    var i := 0;
    while i < |a| && i < |b|
      invariant i <= |a| && i <= |b|
      invariant forall k | 0 <= k < i :: ToLower(a[k]) == ToLower(b[k])
    {
      var c1, c2 := ToLower(a[i]), ToLower(b[i]);
      if c1 != c2 {
        CommonIs(a, b, i);
        return Signed(c1) - Signed(c2);
      }
      i := i + 1;
    }
    CommonIs(a, b, i);
    r := ByteAt(a, i) - ByteAt(b, i);
  }

  /** The sign of the first difference. */
  method Memcmp(a: seq<Byte>, b: seq<Byte>, num: nat) returns (r: int)
    requires num <= |a| && num <= |b|
    ensures -1 <= r <= 1
    ensures r == 0 <==> a[..num] == b[..num]
    ensures r < 0 <==> exists k | 0 <= k < num :: a[..k] == b[..k] && a[k] < b[k]
    ensures r > 0 <==> exists k | 0 <= k < num :: a[..k] == b[..k] && a[k] > b[k]
  {
    for i := 0 to num
      invariant a[..i] == b[..i]
    {
      if a[i] < b[i] {
        FirstDifference(a, b, num, i);
        return -1;
      } else if a[i] > b[i] {
        FirstDifference(a, b, num, i);
        return 1;
      }
    }
    forall k | 0 <= k < num
      ensures a[k] == b[k]
    {
      assert a[..num][k] == b[..num][k];
    }
    r := 0;
  }

  lemma FirstDifference(a: seq<Byte>, b: seq<Byte>, num: nat, i: nat)
    requires i < num <= |a| && num <= |b| && a[..i] == b[..i] && a[i] != b[i]
    ensures a[..num] != b[..num]
    ensures forall k | 0 <= k < num && a[..k] == b[..k] && a[k] != b[k] :: k == i
  {
    assert a[..num][i] != b[..num][i];
    assert forall j | 0 <= j < i :: a[..i][j] == a[j] && b[..i][j] == b[j];
  }

  // ---------------------------------------------------------------- encoding

  /** The part before the first dot. */
  function Base(n: seq<Byte>): seq<Byte>
  {
    n[..IndexOf(n, DOT)]
  }

  /** The part after the first dot. */
  function Ext(n: seq<Byte>): seq<Byte>
  {
    var k := IndexOf(n, DOT);
    if k < |n| then n[k + 1..] else []
  }

  predicate HasDot(n: seq<Byte>)
  {
    IndexOf(n, DOT) < |n|
  }

  /** s cut or filled with spaces to len bytes, in upper case. */
  function Field(s: seq<Byte>, len: nat): (r: seq<Byte>)
    ensures |r| == len
    ensures forall i | 0 <= i < len :: r[i] == if i < |s| then ToUpper(s[i]) else SPACE
  {
    seq(len, i requires 0 <= i < len => if i < |s| then ToUpper(s[i]) else SPACE)
  }

  /** convert_filename: name and ext side by side. */
  function Key(n: seq<Byte>): (k: seq<Byte>)
    ensures |k| == 11
  {
    Field(Base(n), 8) + Field(Ext(n), 3)
  }

  /** The loop of convert_filename that fills one of its two buffers. */
  method FillField(buffer: array<Byte>, s: seq<Byte>)
    modifies buffer
    ensures buffer[..] == Field(s, buffer.Length)
  {
    // memset
    for i := 0 to buffer.Length
      invariant forall j | 0 <= j < i :: buffer[j] == SPACE
    {
      buffer[i] := SPACE;
    }
    // memcpy, cut to the buffer
    var len := if |s| > buffer.Length then buffer.Length else |s|;
    for i := 0 to len
      invariant forall j | 0 <= j < buffer.Length :: buffer[j] == if j < i then s[j] else SPACE
    {
      buffer[i] := s[i];
    }
    // upper case
    for i := 0 to buffer.Length
      invariant forall j | 0 <= j < buffer.Length ::
                  buffer[j] == if j < |s| then (if j < i then ToUpper(s[j]) else s[j]) else SPACE
    {
      if 0x61 <= buffer[i] <= 0x7A {
        buffer[i] := buffer[i] - 0x61 + 0x41;
      }
    }
  }

  /** field holds s in capitals, cut, with spaces behind it. */
  ghost predicate HoldsCapitals(field: seq<Byte>, s: seq<Byte>)
  {
    && (forall i | 0 <= i < |field| && i < |s| :: field[i] == if 0x61 <= s[i] <= 0x7A then s[i] - 0x20 else s[i])
    && (forall i | |s| <= i < |field| :: field[i] == 0x20)
    && (forall i | 0 <= i < |field| :: !(0x61 <= field[i] <= 0x7A))
  }

  /** dot is where the first dot of s is, or the end of s. */
  ghost predicate IsFirstDot(s: seq<Byte>, dot: int)
  {
    0 <= dot <= |s| && (dot < |s| ==> s[dot] == 0x2E) && forall i | 0 <= i < dot :: s[i] != 0x2E
  }

  /** What a key holds, byte by byte. */
  lemma KeyIs(n: seq<Byte>, dot: int)
    requires IsFirstDot(n, dot)
    ensures HoldsCapitals(Key(n)[..8], n[..dot])
    ensures HoldsCapitals(Key(n)[8..], if dot < |n| then n[dot + 1..] else [])
  {
    IndexOfIs(n, DOT, dot);
    assert Key(n)[..8] == Field(Base(n), 8) && Key(n)[8..] == Field(Ext(n), 3);
  }

  method ConvertFilename(filename: seq<Byte>, name: array<Byte>, ext: array<Byte>)
    requires name.Length == 8 && ext.Length == 3 && name != ext
    modifies name, ext
    ensures name[..] + ext[..] == Key(filename)
    ensures forall dot | IsFirstDot(filename, dot) ::
              && HoldsCapitals(name[..], filename[..dot])
              && HoldsCapitals(ext[..], if dot < |filename| then filename[dot + 1..] else [])
  {
    var dot := Strchr(filename, DOT);
    FillField(name, filename[..dot]);
    if dot < |filename| {
      FillField(ext, filename[dot + 1..]);
    } else {
      FillField(ext, []);
    }
    assert Key(filename)[..8] == name[..] && Key(filename)[8..] == ext[..];
    forall d | IsFirstDot(filename, d)
      ensures && HoldsCapitals(name[..], filename[..d])
              && HoldsCapitals(ext[..], if d < |filename| then filename[d + 1..] else [])
    {
      KeyIs(filename, d);
    }
  }

  // ---------------------------------------------------------------- decoding

  function UpToSpace(s: seq<Byte>): seq<Byte>
  {
    s[..IndexOf(s, SPACE)]
  }

  /** convert_filename_back */
  function Shown(k: seq<Byte>): (n: seq<Byte>)
    requires |k| == 11
  {
    UpToSpace(k[..8]) + if k[8] != SPACE then [DOT] + UpToSpace(k[8..]) else []
  }

  lemma ShownOf(name: seq<Byte>, ext: seq<Byte>)
    requires |name| == 8 && |ext| == 3
    ensures Shown(name + ext) == UpToSpace(name) + if ext[0] != SPACE then [DOT] + UpToSpace(ext) else []
  {
    assert (name + ext)[..8] == name && (name + ext)[8..] == ext;
  }

  method ConvertFilenameBack(name: seq<Byte>, ext: seq<Byte>) returns (filename: seq<Byte>)
    requires |name| == 8 && |ext| == 3
    ensures filename == Shown(name + ext)
  {
    hide Shown, IndexOf;
    filename := [];
    var i := 0;
    while i < 8 && name[i] != SPACE
      invariant i <= 8 && filename == name[..i] && forall j | 0 <= j < i :: name[j] != SPACE
    {
      filename := filename + [name[i]];
      i := i + 1;
    }
    IndexOfIs(name, SPACE, i);
    ShownOf(name, ext);
    if ext[0] != SPACE {
      filename := filename + [DOT];
      ghost var before := filename;
      i := 0;
      while i < 3 && ext[i] != SPACE
        invariant i <= 3 && filename == before + ext[..i] && forall j | 0 <= j < i :: ext[j] != SPACE
      {
        filename := filename + [ext[i]];
        i := i + 1;
      }
      IndexOfIs(ext, SPACE, i);
    }
  }

  // ---------------------------------------------------------------- round trips

  /** What a name must satisfy to survive: no space, base and extension within 8 and 3, and no
      trailing dot. */
  predicate Canonical(n: seq<Byte>)
  {
    SPACE !in n && |Base(n)| <= 8 && (HasDot(n) ==> 1 <= |Ext(n)| <= 3)
  }

  lemma NameSplits(n: seq<Byte>)
    ensures n == Base(n) + if HasDot(n) then [DOT] + Ext(n) else []
    ensures DOT !in Base(n)
  {
  }

  lemma FieldUpToSpace(s: seq<Byte>, len: nat)
    ensures var r := UpToSpace(Field(s, len));
            |r| <= |s| && |r| <= len && SPACE !in r && (SPACE !in s && |s| <= len ==> r == Upper(s))
  {
    var f := Field(s, len);
    assert |s| < len ==> f[|s|] == SPACE;
    if SPACE !in s && |s| <= len {
      IndexOfIs(f, SPACE, |s|);
    }
  }

  /** The shown form, in terms of the two fields. */
  lemma ShownParts(n: seq<Byte>)
    ensures Shown(Key(n)) ==
            UpToSpace(Field(Base(n), 8)) +
            if Ext(n) != [] && Ext(n)[0] != SPACE then [DOT] + UpToSpace(Field(Ext(n), 3)) else []
  {
    assert Key(n)[..8] == Field(Base(n), 8) && Key(n)[8..] == Field(Ext(n), 3);
    assert Key(n)[8] == Field(Ext(n), 3)[0];
  }

  lemma UpperConcat(a: seq<Byte>, b: seq<Byte>)
    ensures Upper(a + b) == Upper(a) + Upper(b)
  {
  }

  lemma CanonicalSurvives(n: seq<Byte>)
    requires Canonical(n)
    ensures Shown(Key(n)) == Upper(n)
  {
    hide Field, UpToSpace, Upper, Shown, Key, Base, Ext;
    NameSplits(n);
    ShownParts(n);
    FieldUpToSpace(Base(n), 8);
    FieldUpToSpace(Ext(n), 3);
    CanonicalParts(n);
    if HasDot(n) {
      UpperConcat(Base(n), [DOT] + Ext(n));
      UpperConcat([DOT], Ext(n));
      assert Upper([DOT]) == [DOT];
    }
  }

  lemma CanonicalParts(n: seq<Byte>)
    requires Canonical(n)
    ensures SPACE !in Base(n) && SPACE !in Ext(n)
    ensures HasDot(n) ==> Ext(n)[0] != SPACE
    ensures !HasDot(n) ==> n == Base(n) && Ext(n) == []
  {
  }

  lemma SurvivorIsCanonical(n: seq<Byte>)
    requires Shown(Key(n)) == Upper(n)
    ensures Canonical(n)
  {
    hide Field, UpToSpace, Upper, Shown, Key, Base, Ext;
    NameSplits(n);
    ShownParts(n);
    FieldUpToSpace(Base(n), 8);
    FieldUpToSpace(Ext(n), 3);
    assert |Upper(n)| == |n| && SPACE !in Upper(n);
    NoSpaceInUpper(n);
    assert !HasDot(n) ==> Ext(n) == [] by { NoDotNoExt(n); }
  }

  lemma NoDotNoExt(n: seq<Byte>)
    ensures !HasDot(n) ==> Ext(n) == []
  {
  }

  lemma NoSpaceInUpper(n: seq<Byte>)
    requires SPACE !in Upper(n)
    ensures SPACE !in n
  {
    forall i | 0 <= i < |n|
      ensures n[i] != SPACE
    {
      assert Upper(n)[i] in Upper(n);
    }
  }

  /** t is s with its small letters made capitals. */
  ghost predicate IsCapitals(t: seq<Byte>, s: seq<Byte>)
  {
    |t| == |s| && forall i | 0 <= i < |s| :: t[i] == if 0x61 <= s[i] <= 0x7A then s[i] - 0x20 else s[i]
  }

  lemma UpperIs(s: seq<Byte>, t: seq<Byte>)
    ensures t == Upper(s) <==> IsCapitals(t, s)
  {
  }

  /** A name survives being stored as a key and shown again, up to case, exactly when it is canonical. */
  lemma ShownKeyIff(n: seq<Byte>)
    ensures Shown(Key(n)) == Upper(n) <==> Canonical(n)
    ensures IsCapitals(Shown(Key(n)), n) <==> Canonical(n)
  {
    hide *;
    UpperIs(n, Shown(Key(n)));
    if Canonical(n) {
      CanonicalSurvives(n);
    }
    if Shown(Key(n)) == Upper(n) {
      SurvivorIsCanonical(n);
    }
  }

  /** A field as it is stored: in upper case, and filled with spaces at the end only. */
  predicate Filled(f: seq<Byte>)
  {
    && (forall i | 0 <= i < |f| :: f[i] == ToUpper(f[i]))
    && (forall i, j | 0 <= i < j < |f| && f[i] == SPACE :: f[j] == SPACE)
  }

  predicate WellFormedKey(k: seq<Byte>)
  {
    |k| == 11 && Filled(k[..8]) && Filled(k[8..]) && DOT !in k[..8]
  }

  lemma ShownSplits(k: seq<Byte>)
    requires |k| == 11 && DOT !in k[..8]
    ensures Base(Shown(k)) == UpToSpace(k[..8])
    ensures Ext(Shown(k)) == if k[8] != SPACE then UpToSpace(k[8..]) else []
  {
    IndexOfIs(Shown(k), DOT, |UpToSpace(k[..8])|);
  }

  /** A field survives being cut at its first space and filled again exactly when it is filled. */
  lemma RefilledIff(f: seq<Byte>)
    ensures Field(UpToSpace(f), |f|) == f <==> Filled(f)
  {
    var g := Field(UpToSpace(f), |f|);
    if g == f {
      assert forall i | 0 <= i < |f| :: f[i] == g[i];
    } else {
      assert exists i | 0 <= i < |f| :: g[i] != f[i];
    }
  }

  /** Showing a key and storing the name again gives the same 11 bytes exactly when the key is well-formed. */
  lemma KeyShownIff(k: seq<Byte>)
    requires |k| == 11
    ensures Key(Shown(k)) == k <==> WellFormedKey(k)
  {
    hide Field, Shown, Base, Ext, Filled;
    var n, x := k[..8], k[8..];
    assert k == n + x;
    RefilledIff(n);
    RefilledIff(x);
    if DOT !in n {
      ShownSplits(k);
      assert k[8] == x[0];
      var k' := Key(Shown(k));
      assert k'[..8] == Field(UpToSpace(n), 8) && k'[8..] == Field(UpToSpace(x), 3);
      assert k' == k'[..8] + k'[8..];
    } else {
      KeyHasNoDot(Shown(k));
    }
  }

  lemma KeyHasNoDot(n: seq<Byte>)
    ensures DOT !in Key(n)[..8]
  {
    NameSplits(n);
    assert Key(n)[..8] == Field(Base(n), 8);
  }
}
