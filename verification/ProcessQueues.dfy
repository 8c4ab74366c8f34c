/** The process table and its intrusive doubly linked queues, as values.  PCBs live in a pool of
    64 slots; a pointer to a PCB is its slot number. */
module ProcessQueues {
  import opened Sequences

  const MAX_PROCESSES := 64
  const NULL := -1
  const DEFAULT_TIME_SLICE := 10

  datatype ProcessState = New | Ready | Running | Blocked | Terminated

  /** pcb_t */
  datatype Pcb = Pcb(pid: int, state: ProcessState, timeSlice: int, remainingSlice: int, stackBase: int,
                     next: int, prev: int)

  const ZERO_PCB := Pcb(0, New, 0, 0, 0, NULL, NULL)

  ghost function Nth(xs: seq<int>, i: int): int
  {
    if 0 <= i < |xs| then xs[i] else NULL
  }

  /** Following next from head visits exactly xs, and prev leads back. */
  ghost predicate IsQueue(pool: seq<Pcb>, head: int, xs: seq<int>)
  {
    && head == Nth(xs, 0)
    && NoDup(xs)
    && forall i | 0 <= i < |xs| ::
         0 <= xs[i] < |pool| && pool[xs[i]].next == Nth(xs, i + 1) && pool[xs[i]].prev == Nth(xs, i - 1)
  }

  /** add_to_queue: the new head is p. */
  function PushFront(pool: seq<Pcb>, head: int, p: int): (r: seq<Pcb>)
    requires 0 <= p < |pool| && (head == NULL || 0 <= head < |pool|)
    ensures |r| == |pool|
  {
    var q := pool[p := pool[p].(next := head)];
    var q := if head != NULL then q[head := q[head].(prev := p)] else q;
    q[p := q[p].(prev := NULL)]
  }

  datatype Unlinked = Unlinked(pool: seq<Pcb>, head: int)

  /** remove_from_queue */
  function Unlink(pool: seq<Pcb>, head: int, p: int): (r: Unlinked)
    requires 0 <= p < |pool|
    requires pool[p].prev == NULL || 0 <= pool[p].prev < |pool|
    requires pool[p].next == NULL || 0 <= pool[p].next < |pool|
    ensures |r.pool| == |pool| && r.pool[p].next == NULL && r.pool[p].prev == NULL
  {
    var prev, next := pool[p].prev, pool[p].next;
    var q := if prev != NULL then pool[prev := pool[prev].(next := next)] else pool;
    var head' := if prev != NULL then head else next;
    var q := if next != NULL then q[next := q[next].(prev := prev)] else q;
    Unlinked(q[p := q[p].(next := NULL, prev := NULL)], head')
  }

  lemma PushFrontAt(pool: seq<Pcb>, head: int, p: int, x: int)
    requires 0 <= p < |pool| && 0 <= x < |pool| && (head == NULL || 0 <= head < |pool|) && head != p
    ensures var q := PushFront(pool, head, p)[x];
            q == if x == p then pool[x].(next := head, prev := NULL)
                 else if x == head then pool[x].(prev := p) else pool[x]
  {
  }

  lemma PushFrontQueue(pool: seq<Pcb>, head: int, xs: seq<int>, p: int)
    requires IsQueue(pool, head, xs) && 0 <= p < |pool| && p !in xs
    ensures IsQueue(PushFront(pool, head, p), p, [p] + xs)
  {
    hide PushFront;
    var ys := [p] + xs;
    forall i | 0 <= i < |ys|
      ensures 0 <= ys[i] < |pool| &&
              var q := PushFront(pool, head, p)[ys[i]]; q.next == Nth(ys, i + 1) && q.prev == Nth(ys, i - 1)
    {
      if i > 0 {
        assert ys[i] == xs[i - 1] && pool[ys[i]].next == Nth(xs, i) && pool[ys[i]].prev == Nth(xs, i - 2);
      }
      PushFrontAt(pool, head, p, ys[i]);
    }
  }

  /** A push leaves every queue alone that shares no slot with the one pushed on. */
  lemma PushFrontOther(pool: seq<Pcb>, head: int, xs: seq<int>, p: int, head': int, ys: seq<int>)
    requires IsQueue(pool, head, xs) && IsQueue(pool, head', ys) && 0 <= p < |pool| && p !in ys
    requires forall y | y in ys :: y !in xs
    ensures IsQueue(PushFront(pool, head, p), head', ys)
  {
    assert head != NULL ==> head in xs;
    forall i | 0 <= i < |ys|
      ensures PushFront(pool, head, p)[ys[i]] == pool[ys[i]]
    {
      assert ys[i] in ys;
    }
  }

  /** The links of another member of the queue after slot xs[k] has been taken off. */
  lemma UnlinkEntry(pool: seq<Pcb>, head: int, xs: seq<int>, k: nat, i: nat)
    requires IsQueue(pool, head, xs) && k < |xs| && i < |xs| && i != k
    ensures pool[xs[k]].prev == NULL || 0 <= pool[xs[k]].prev < |pool|
    ensures pool[xs[k]].next == NULL || 0 <= pool[xs[k]].next < |pool|
    ensures 0 <= xs[i] < |pool| && 0 <= xs[k] < |pool|
    ensures var q := Unlink(pool, head, xs[k]).pool[xs[i]];
            && q.next == (if i + 1 == k then Nth(xs, k + 1) else Nth(xs, i + 1))
            && q.prev == (if i == k + 1 then Nth(xs, k - 1) else Nth(xs, i - 1))
  {
    hide Unlink;
    var p, x := xs[k], xs[i];
    assert pool[p].prev == Nth(xs, k - 1) && pool[p].next == Nth(xs, k + 1);
    assert pool[x].prev == Nth(xs, i - 1) && pool[x].next == Nth(xs, i + 1);
    assert pool[p].prev == x <==> i + 1 == k;
    assert pool[p].next == x <==> i == k + 1;
    UnlinkAt(pool, head, p, x);
  }

  lemma UnlinkAt(pool: seq<Pcb>, head: int, p: int, x: int)
    requires 0 <= p < |pool| && 0 <= x < |pool| && x != p
    requires pool[p].prev == NULL || 0 <= pool[p].prev < |pool|
    requires pool[p].next == NULL || 0 <= pool[p].next < |pool|
    requires pool[p].prev != p && pool[p].next != p
    ensures var q := Unlink(pool, head, p).pool[x];
            && q.pid == pool[x].pid && q.state == pool[x].state && q.stackBase == pool[x].stackBase
            && q.next == (if x == pool[p].prev then pool[p].next else pool[x].next)
            && q.prev == (if x == pool[p].next then pool[p].prev else pool[x].prev)
            && (x != pool[p].prev && x != pool[p].next ==> q == pool[x])
  {
  }

  lemma UnlinkHead(pool: seq<Pcb>, head: int, xs: seq<int>, k: nat)
    requires IsQueue(pool, head, xs) && k < |xs|
    ensures pool[xs[k]].prev == NULL || 0 <= pool[xs[k]].prev < |pool|
    ensures pool[xs[k]].next == NULL || 0 <= pool[xs[k]].next < |pool|
    ensures 0 <= xs[k] < |pool|
    ensures var r := Unlink(pool, head, xs[k]);
            r.head == Nth(Without(xs, k), 0) && r.pool[xs[k]].next == NULL && r.pool[xs[k]].prev == NULL
  {
    assert k > 0 ==> pool[xs[k]].prev == xs[k - 1];
    assert k + 1 < |xs| ==> pool[xs[k]].next == xs[k + 1];
  }

  lemma UnlinkQueue(pool: seq<Pcb>, head: int, xs: seq<int>, k: nat)
    requires IsQueue(pool, head, xs) && k < |xs|
    ensures pool[xs[k]].prev == NULL || 0 <= pool[xs[k]].prev < |pool|
    ensures pool[xs[k]].next == NULL || 0 <= pool[xs[k]].next < |pool|
    ensures var r := Unlink(pool, head, xs[k]);
            && IsQueue(r.pool, r.head, Without(xs, k))
            && r.pool[xs[k]].next == NULL && r.pool[xs[k]].prev == NULL
  {
    hide Unlink, IsQueue, NoDup;
    UnlinkHead(pool, head, xs, k);
    var r, ys := Unlink(pool, head, xs[k]), Without(xs, k);
    NoDupWithout(pool, head, xs, k);
    forall i | 0 <= i < |ys|
      ensures LinkedAt(r.pool, ys, i)
    {
      LinkedAtWithout(pool, head, xs, k, i);
    }
    QueueOf(r.pool, r.head, ys);
  }

  ghost predicate LinkedAt(pool: seq<Pcb>, xs: seq<int>, i: int)
    requires 0 <= i < |xs|
  {
    0 <= xs[i] < |pool| && pool[xs[i]].next == Nth(xs, i + 1) && pool[xs[i]].prev == Nth(xs, i - 1)
  }

  lemma QueueOf(pool: seq<Pcb>, head: int, xs: seq<int>)
    requires head == Nth(xs, 0) && NoDup(xs) && forall i | 0 <= i < |xs| :: LinkedAt(pool, xs, i)
    ensures IsQueue(pool, head, xs)
  {
    hide NoDup;
    forall i | 0 <= i < |xs|
      ensures 0 <= xs[i] < |pool| && pool[xs[i]].next == Nth(xs, i + 1) && pool[xs[i]].prev == Nth(xs, i - 1)
    {
      assert LinkedAt(pool, xs, i);
    }
  }

  lemma NoDupWithout(pool: seq<Pcb>, head: int, xs: seq<int>, k: nat)
    requires IsQueue(pool, head, xs) && k < |xs|
    ensures NoDup(Without(xs, k))
  {
  }

  lemma LinkedAtWithout(pool: seq<Pcb>, head: int, xs: seq<int>, k: nat, i: nat)
    requires IsQueue(pool, head, xs) && k < |xs| && i < |xs| - 1
    ensures pool[xs[k]].prev == NULL || 0 <= pool[xs[k]].prev < |pool|
    ensures pool[xs[k]].next == NULL || 0 <= pool[xs[k]].next < |pool|
    ensures 0 <= xs[k] < |pool| && |Without(xs, k)| == |xs| - 1
    ensures LinkedAt(Unlink(pool, head, xs[k]).pool, Without(xs, k), i)
  {
    hide Unlink, IsQueue, Without, Nth;
    UnlinkEntry(pool, head, xs, k, if i < k then i else i + 1);
    NthWithout(xs, k, i);
    NthWithout(xs, k, i + 1);
    NthWithout(xs, k, i - 1);
  }

  lemma NthWithout(xs: seq<int>, k: nat, j: int)
    requires k < |xs|
    ensures Nth(Without(xs, k), j) == if j < k then Nth(xs, j) else Nth(xs, j + 1)
    ensures 0 <= j < |xs| - 1 ==>
              |Without(xs, k)| == |xs| - 1 && Without(xs, k)[j] == if j < k then xs[j] else xs[j + 1]
  {
  }

  lemma UnlinkOther(pool: seq<Pcb>, head: int, xs: seq<int>, k: nat, head': int, ys: seq<int>)
    requires IsQueue(pool, head, xs) && k < |xs| && IsQueue(pool, head', ys) && forall y | y in ys :: y !in xs
    ensures pool[xs[k]].prev == NULL || 0 <= pool[xs[k]].prev < |pool|
    ensures pool[xs[k]].next == NULL || 0 <= pool[xs[k]].next < |pool|
    ensures IsQueue(Unlink(pool, head, xs[k]).pool, head', ys)
  {
    var p := xs[k];
    assert k > 0 ==> pool[p].prev == xs[k - 1];
    assert k + 1 < |xs| ==> pool[p].next == xs[k + 1];
    forall i | 0 <= i < |ys|
      ensures Unlink(pool, head, p).pool[ys[i]] == pool[ys[i]]
    {
      assert ys[i] in ys && xs[k] in xs;
    }
  }

  /** Taking a slot off changes links only, and only of it and its neighbours. */
  lemma UnlinkKeeps(pool: seq<Pcb>, head: int, xs: seq<int>, k: nat)
    requires IsQueue(pool, head, xs) && k < |xs|
    ensures pool[xs[k]].prev == NULL || 0 <= pool[xs[k]].prev < |pool|
    ensures pool[xs[k]].next == NULL || 0 <= pool[xs[k]].next < |pool|
    ensures forall x | 0 <= x < |pool| ::
              var q := Unlink(pool, head, xs[k]).pool[x];
              && q.pid == pool[x].pid && q.state == pool[x].state && q.stackBase == pool[x].stackBase
              && (x !in xs ==> q == pool[x])
  {
    hide Unlink;
    var p := xs[k];
    assert k > 0 ==> pool[p].prev == xs[k - 1] && xs[k - 1] in xs;
    assert k + 1 < |xs| ==> pool[p].next == xs[k + 1] && xs[k + 1] in xs;
    assert xs[k] in xs;
    UnlinkSelf(pool, head, p);
    forall x | 0 <= x < |pool| && x != p
      ensures var q := Unlink(pool, head, p).pool[x];
              && q.pid == pool[x].pid && q.state == pool[x].state && q.stackBase == pool[x].stackBase
              && (x !in xs ==> q == pool[x])
    {
      UnlinkAt(pool, head, p, x);
    }
  }

  lemma UnlinkSelf(pool: seq<Pcb>, head: int, p: int)
    requires 0 <= p < |pool|
    requires pool[p].prev == NULL || 0 <= pool[p].prev < |pool|
    requires pool[p].next == NULL || 0 <= pool[p].next < |pool|
    ensures var q := Unlink(pool, head, p).pool[p];
            q.pid == pool[p].pid && q.state == pool[p].state && q.stackBase == pool[p].stackBase
  {
  }

  /** Taking off a slot that is on no queue does nothing. */
  lemma UnlinkIdle(pool: seq<Pcb>, p: int)
    requires 0 <= p < |pool| && pool[p].next == NULL && pool[p].prev == NULL
    ensures Unlink(pool, NULL, p) == Unlinked(pool, NULL)
  {
  }

  /** A queue is determined by the pool and its head. */
  lemma {:induction false} QueueUnique(pool: seq<Pcb>, head: int, xs: seq<int>, ys: seq<int>, i: nat)
    requires IsQueue(pool, head, xs) && IsQueue(pool, head, ys) && i < |xs|
    ensures i < |ys| && xs[i] == ys[i]
  {
    if i > 0 {
      QueueUnique(pool, head, xs, ys, i - 1);
    }
  }

  lemma NoDupConcat(xs: seq<int>, ys: seq<int>)
    requires NoDup(xs + ys)
    ensures NoDup(xs) && NoDup(ys) && forall x | x in xs :: x !in ys
  {
    var zs := xs + ys;
    forall x | x in xs
      ensures x !in ys
    {
      var i :| 0 <= i < |xs| && xs[i] == x;
      forall j | 0 <= j < |ys|
        ensures ys[j] != x
      {
        assert zs[i] == x && zs[|xs| + j] == ys[j];
      }
    }
    forall i, j | 0 <= i < j < |ys|
      ensures ys[i] != ys[j]
    {
      assert zs[|xs| + i] == ys[i] && zs[|xs| + j] == ys[j];
    }
    forall i, j | 0 <= i < j < |xs|
      ensures xs[i] != xs[j]
    {
      assert zs[i] == xs[i] && zs[j] == xs[j];
    }
  }
}
