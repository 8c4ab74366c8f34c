/** Cluster chains in the FAT. */
module FatChains {
  import opened DiskLayout

  /** Values from here on end a chain. */
  const END_OF_CHAIN := 0xFF8
  /** What fs_allocate_cluster writes. */
  const LAST := 0xFFF

  ghost predicate TableOk(t: seq<int>)
  {
    |t| == CLUSTERS && forall c | 0 <= c < CLUSTERS :: 0 <= t[c] < 0x1000
  }

  /** cs is a path of data clusters along the table, ending in an end mark. */
  ghost predicate IsChain(t: seq<int>, cs: seq<int>)
  {
    && |t| == CLUSTERS
    && cs != []
    && 2 <= cs[0] < CLUSTERS
    && if |cs| == 1 then t[cs[0]] >= END_OF_CHAIN else t[cs[0]] == cs[1] && IsChain(t, cs[1..])
  }

  lemma {:induction false} ChainAt(t: seq<int>, cs: seq<int>, i: nat)
    requires IsChain(t, cs) && i < |cs|
    ensures IsChain(t, cs[i..])
    ensures 2 <= cs[i] < CLUSTERS
    ensures if i + 1 < |cs| then t[cs[i]] == cs[i + 1] && 2 <= cs[i + 1] < CLUSTERS else t[cs[i]] >= END_OF_CHAIN
    ensures t[cs[i]] != 0
  {
    if i > 0 {
      ChainAt(t, cs[1..], i - 1);
      assert cs[1..][i - 1..] == cs[i..];
    } else {
      assert cs[0..] == cs;
      if |cs| > 1 {
        assert 2 <= cs[1..][0];
      }
    }
  }

  lemma ChainInRange(t: seq<int>, cs: seq<int>)
    requires IsChain(t, cs)
    ensures |cs| > 0 && |t| == CLUSTERS
    ensures forall c | c in cs :: 2 <= c < CLUSTERS && t[c] != 0
  {
    forall c | c in cs
      ensures 2 <= c < CLUSTERS && t[c] != 0
    {
      var i :| 0 <= i < |cs| && cs[i] == c;
      ChainAt(t, cs, i);
    }
  }

  /** A chain is determined by its first cluster. */
  lemma {:induction false} ChainUnique(t: seq<int>, a: seq<int>, b: seq<int>)
    requires IsChain(t, a) && IsChain(t, b) && a[0] == b[0]
    ensures a == b
  {
    if |a| > 1 && |b| > 1 {
      ChainUnique(t, a[1..], b[1..]);
      assert a == [a[0]] + a[1..];
      assert b == [b[0]] + b[1..];
    }
  }

  /** A chain never visits a cluster twice. */
  lemma ChainAcyclic(t: seq<int>, cs: seq<int>)
    requires IsChain(t, cs)
    ensures forall i, j | 0 <= i < j < |cs| :: cs[i] != cs[j]
  {
    forall i, j | 0 <= i < j < |cs|
      ensures cs[i] != cs[j]
    {
      if cs[i] == cs[j] {
        ChainAt(t, cs, i);
        ChainAt(t, cs, j);
        ChainUnique(t, cs[i..], cs[j..]);
      }
    }
  }

  /** Only the entries on the chain matter. */
  lemma {:induction false} ChainFrame(t: seq<int>, u: seq<int>, cs: seq<int>)
    requires IsChain(t, cs) && |u| == |t| && forall c | c in cs :: 0 <= c < |t| && t[c] == u[c]
    ensures IsChain(u, cs)
  {
    assert cs[0] in cs;
    if |cs| > 1 {
      assert forall c | c in cs[1..] :: c in cs;
      ChainFrame(t, u, cs[1..]);
    }
  }

  // ---------------------------------------------------------------- finding and allocating

  /** The first free data cluster from c on, or CLUSTERS. */
  function FreeFrom(t: seq<int>, c: int): (d: int)
    requires |t| == CLUSTERS && 0 <= c <= CLUSTERS
    ensures c <= d <= CLUSTERS
    ensures d < CLUSTERS ==> t[d] == 0
    ensures forall e | c <= e < d :: t[e] != 0
    decreases CLUSTERS - c
  {
    if c == CLUSTERS || t[c] == 0 then c else FreeFrom(t, c + 1)
  }

  lemma {:induction false} FreeFromIs(t: seq<int>, c: int, d: int)
    requires |t| == CLUSTERS && 0 <= c <= d <= CLUSTERS && (d < CLUSTERS ==> t[d] == 0)
    requires forall e | c <= e < d :: t[e] != 0
    ensures FreeFrom(t, c) == d
    decreases d - c
  {
    if c < d {
      FreeFromIs(t, c + 1, d);
    }
  }

  // ---------------------------------------------------------------- freeing

  ghost predicate InTable(t: seq<int>, cs: seq<int>)
  {
    forall c | c in cs :: 0 <= c < |t|
  }

  /** The table with the entries of cs cleared. */
  function Cleared(t: seq<int>, cs: seq<int>): (u: seq<int>)
    requires InTable(t, cs)
    ensures |u| == |t|
    ensures forall c | 0 <= c < |t| :: u[c] == if c in cs then 0 else t[c]
    decreases |cs|
  {
    if cs == [] then t else
      assert cs == [cs[0]] + cs[1..];
      assert cs[0] in cs && forall c | c in cs[1..] :: c in cs;
      Cleared(t[cs[0] := 0], cs[1..])
  }

  /** The state of the loop of fs_free_cluster_chain. */
  datatype LoopState = Running(t: seq<int>, c: int) | Left(t: seq<int>)

  /** The loop started at cluster c, after at most k iterations. */
  function FreeLoop(t: seq<int>, c: int, k: nat): LoopState
    requires |t| == CLUSTERS && 0 <= c
    requires forall d | 0 <= d < CLUSTERS :: 0 <= t[d]
    decreases k
  {
    if c >= END_OF_CHAIN || c >= CLUSTERS then Left(t)
    else if k == 0 then Running(t, c)
    else FreeLoop(t[c := 0], t[c], k - 1)
  }

  /** cs follows the table from cluster to cluster until a value outside the table. */
  ghost predicate IsWalk(t: seq<int>, cs: seq<int>)
  {
    && |t| == CLUSTERS
    && cs != []
    && 0 <= cs[0] < CLUSTERS
    && if |cs| == 1 then t[cs[0]] >= CLUSTERS else t[cs[0]] == cs[1] && IsWalk(t, cs[1..])
  }

  /** Where the walk cs from c leaves the table; the empty walk starts outside. */
  ghost function Exit(t: seq<int>, c: int, cs: seq<int>): int
    requires InTable(t, cs)
  {
    if cs == [] then c else
      assert cs[|cs| - 1] in cs;
      t[cs[|cs| - 1]]
  }

  /** The loop leaves exactly when the table leads from c out of the table: otherwise it comes
      to an entry that is free, or that it has cleared itself, and goes round on cluster 0. */
  lemma FreeingEndsIff(t: seq<int>, c: int)
    requires TableOk(t) && t[0] == 0 && 0 <= c < CLUSTERS
    ensures (exists k: nat :: FreeLoop(t, c, k).Left?) <==> exists cs :: IsWalk(t, cs) && cs[0] == c
  {
    if k: nat :| FreeLoop(t, c, k).Left? {
      var cs := LeftMeansWalk(t, c, k);
    }
    if cs :| IsWalk(t, cs) && cs[0] == c {
      FreeingWalkEnds(t, cs);
    }
  }

  lemma {:induction false} LeftMeansWalk(t: seq<int>, c: int, k: nat) returns (cs: seq<int>)
    requires TableOk(t) && t[0] == 0 && 0 <= c < CLUSTERS && FreeLoop(t, c, k).Left?
    ensures IsWalk(t, cs) && cs[0] == c
    decreases k
  {
    if t[c] >= CLUSTERS {
      cs := [c];
    } else {
      var rest := LeftMeansWalk(t[c := 0], t[c], k - 1);
      WalkAvoids(t[c := 0], rest, c);
      WalkFrame(t[c := 0], t, rest);
      cs := [c] + rest;
    }
  }

  /** On a walk the loop leaves after as many iterations as the walk has clusters, having
      cleared exactly them. */
  lemma {:induction false} FreeingWalkEnds(t: seq<int>, cs: seq<int>)
    requires TableOk(t) && IsWalk(t, cs)
    ensures InTable(t, cs) && FreeLoop(t, cs[0], |cs|) == Left(Cleared(t, cs))
    decreases |cs|
  {
    WalkInTable(t, cs);
    if |cs| > 1 {
      var u := t[cs[0] := 0];
      WalkShort(t, cs);
      WalkFrame(t, u, cs[1..]);
      FreeingWalkEnds(u, cs[1..]);
    } else {
      assert cs[1..] == [];
    }
  }

  lemma WalkInTable(t: seq<int>, cs: seq<int>)
    requires IsWalk(t, cs)
    ensures |cs| > 0 && InTable(t, cs)
  {
    forall c | c in cs
      ensures 0 <= c < |t|
    {
      var i :| 0 <= i < |cs| && cs[i] == c;
      WalkSuffix(t, cs, i);
    }
  }

  /** The i-th cluster of a walk, where it leads, and that it has not come before. */
  lemma WalkAt(t: seq<int>, cs: seq<int>, i: nat)
    requires IsWalk(t, cs) && i < |cs|
    ensures 0 <= cs[i] < CLUSTERS && cs[i] !in cs[..i]
    ensures if i + 1 < |cs| then t[cs[i]] == cs[i + 1] && 0 <= cs[i + 1] < CLUSTERS else t[cs[i]] >= CLUSTERS
  {
    WalkSuffix(t, cs, i);
    forall j | 0 <= j < i
      ensures cs[j] != cs[i]
    {
      WalkSuffix(t, cs, j);
      WalkShort(t, cs[j..]);
      assert cs[j..][1..][i - j - 1] == cs[i];
    }
  }

  /** The k-th iteration on a walk: what it reads is where the walk goes on, what it clears is the next cluster. */
  lemma FreeStep(t: seq<int>, c: int, cs: seq<int>, k: nat)
    requires IsWalk(t, cs) && k < |cs|
    ensures 0 <= cs[k] < CLUSTERS == |t| && InTable(t, cs) && InTable(t, cs[..k]) && InTable(t, cs[..k + 1])
    ensures Cleared(t, cs[..k])[cs[k]] == t[cs[k]]
    ensures if k + 1 < |cs| then t[cs[k]] == cs[k + 1] < CLUSTERS else t[cs[k]] == Exit(t, c, cs) >= CLUSTERS
    ensures Cleared(t, cs[..k + 1]) == Cleared(t, cs[..k])[cs[k] := 0]
  {
    hide IsWalk, Cleared;
    WalkAt(t, cs, k);
    WalkInTable(t, cs);
    assert |t| == CLUSTERS by { WalkSize(t, cs); }
    assert forall c | c in cs[..k] || c in cs[..k + 1] :: c in cs;
    assert cs[..k + 1] == cs[..k] + [cs[k]];
  }

  lemma WalkSize(t: seq<int>, cs: seq<int>)
    requires IsWalk(t, cs)
    ensures |t| == CLUSTERS
  {
  }

  /** ws is what freeing from cluster c walks through. */
  ghost predicate Leads(t: seq<int>, c: int, ws: seq<int>)
  {
    && 0 <= c < 0x10000
    && if 0 < c < CLUSTERS then IsWalk(t, ws) && ws[0] == c else ws == []
  }

  /** A chain is a walk that ends in an end mark. */
  lemma {:induction false} ChainIsWalk(t: seq<int>, cs: seq<int>)
    requires IsChain(t, cs)
    ensures IsWalk(t, cs) && InTable(t, cs) && Exit(t, cs[0], cs) >= END_OF_CHAIN
  {
    if |cs| > 1 {
      ChainIsWalk(t, cs[1..]);
    }
    WalkInTable(t, cs);
  }

  /** A walk does not pass through a free entry. */
  lemma {:induction false} WalkAvoids(t: seq<int>, cs: seq<int>, c: int)
    requires IsWalk(t, cs) && t[0] == 0 && 0 <= c < CLUSTERS && t[c] == 0
    ensures c !in cs
    decreases |cs|
  {
    if |cs| > 1 {
      WalkAvoids(t, cs[1..], c);
      WalkAvoids(t, cs[1..], 0);
      assert cs == [cs[0]] + cs[1..];
    }
  }

  lemma {:induction false} WalkUnique(t: seq<int>, a: seq<int>, b: seq<int>)
    requires IsWalk(t, a) && IsWalk(t, b) && a[0] == b[0]
    ensures a == b
  {
    if |a| > 1 && |b| > 1 {
      WalkUnique(t, a[1..], b[1..]);
      assert a == [a[0]] + a[1..];
      assert b == [b[0]] + b[1..];
    }
  }

  lemma {:induction false} WalkSuffix(t: seq<int>, cs: seq<int>, i: nat)
    requires IsWalk(t, cs) && i < |cs|
    ensures IsWalk(t, cs[i..])
  {
    if i > 0 {
      WalkSuffix(t, cs[1..], i - 1);
      assert cs[1..][i - 1..] == cs[i..];
    } else {
      assert cs[0..] == cs;
    }
  }

  /** The first cluster of a walk does not come again. */
  lemma WalkShort(t: seq<int>, cs: seq<int>)
    requires IsWalk(t, cs)
    ensures cs[0] !in cs[1..]
  {
    forall i | 0 <= i < |cs[1..]|
      ensures cs[1..][i] != cs[0]
    {
      if cs[1..][i] == cs[0] {
        WalkSuffix(t, cs, i + 1);
        WalkUnique(t, cs, cs[i + 1..]);
      }
    }
  }

  lemma {:induction false} WalkFrame(t: seq<int>, u: seq<int>, cs: seq<int>)
    requires IsWalk(t, cs) && |u| == |t| && forall c | c in cs && 0 <= c < |t| :: t[c] == u[c]
    ensures IsWalk(u, cs)
  {
    assert cs[0] in cs;
    if |cs| > 1 {
      assert forall c | c in cs[1..] :: c in cs;
      WalkFrame(t, u, cs[1..]);
    }
  }

  /** In particular freeing from a cluster that is itself free never ends. */
  lemma {:induction false} FreeingFreeClusterHangs(t: seq<int>, c: int, k: nat)
    requires TableOk(t) && 0 <= c < CLUSTERS && t[c] == 0 && t[0] == 0
    ensures FreeLoop(t, c, k).Running?
  {
    if k > 0 {
      assert t[c := 0] == t;
      FreeingFreeClusterHangs(t, 0, k - 1);
    }
  }

  /** Freeing the cluster just allocated restores the table. */
  lemma UndoAllocation(t: seq<int>, c: int)
    requires |t| == CLUSTERS && 0 <= c < CLUSTERS && t[c] == 0
    ensures InTable(t[c := LAST], [c]) && Cleared(t[c := LAST], [c]) == t
  {
  }

  // ---------------------------------------------------------------- extending

  /** Appending the free cluster n: what fs_write does at the end of a chain. */
  lemma {:induction false} ChainAppend(t: seq<int>, cs: seq<int>, n: int)
    requires TableOk(t) && IsChain(t, cs) && 2 <= n < CLUSTERS && t[n] == 0
    ensures 2 <= cs[|cs| - 1] < CLUSTERS && n !in cs
    ensures IsChain(t[n := LAST][cs[|cs| - 1] := n], cs + [n])
  {
    ChainInRange(t, cs);
    ChainAcyclic(t, cs);
    ChainAt(t, cs, |cs| - 1);
    var last := cs[|cs| - 1];
    if |cs| == 1 {
      assert (cs + [n])[1..] == [n];
    } else {
      ChainAppend(t, cs[1..], n);
      assert cs[1..][|cs| - 2] == last;
      assert (cs + [n])[1..] == cs[1..] + [n];
    }
  }
}
