/** The process manager: pool, flags, queue heads and counters, changed in place. */
module ProcessTable {
  import opened Sequences
  import opened ProcessQueues
  import opened Scheduler

  /** The manager's state at one moment. */
  datatype Raw = Raw(pool: seq<Pcb>, used: seq<bool>, running: int, readyHead: int, blockedHead: int,
                     terminatedHead: int, nextPid: int, count: int)

  /** uint32_t increment and decrement */
  function Plus1(n: int): int { if n == 0xFFFF_FFFF then 0 else n + 1 }
  function Minus1(n: int): int { if n == 0 then 0xFFFF_FFFF else n - 1 }

  ghost function Pids(pool: seq<Pcb>): (r: seq<int>)
    ensures |r| == |pool| && forall i | 0 <= i < |pool| :: r[i] == pool[i].pid
  {
    seq(|pool|, i requires 0 <= i < |pool| => pool[i].pid)
  }

  ghost function Stacks(pool: seq<Pcb>): (r: seq<int>)
    ensures |r| == |pool| && forall i | 0 <= i < |pool| :: r[i] == pool[i].stackBase
  {
    seq(|pool|, i requires 0 <= i < |pool| => pool[i].stackBase)
  }

  /** What the links and counters stand for. */
  ghost function View(s: Raw, ready: seq<int>, terminated: seq<int>): Sched
  {
    Sched(s.running, ready, terminated, Pids(s.pool), Stacks(s.pool), s.nextPid)
  }

  /** The flags mark exactly the live slots, and process_count is their number. */
  ghost predicate Marks(s: Raw, live: seq<int>)
    requires |s.used| == MAX_PROCESSES
  {
    s.count == |live| && forall i | 0 <= i < MAX_PROCESSES :: s.used[i] <==> i in live
  }

  /** The running process is on no queue and says so; the ready and the terminated ones say so too. */
  ghost predicate StatesOk(s: Raw, ready: seq<int>, terminated: seq<int>)
    requires |s.pool| == MAX_PROCESSES
  {
    && (s.running != NULL ==>
          0 <= s.running < MAX_PROCESSES && s.pool[s.running].state == Running &&
          s.pool[s.running].next == NULL && s.pool[s.running].prev == NULL)
    && (forall x | x in ready && 0 <= x < MAX_PROCESSES :: s.pool[x].state == Ready)
    && forall x | x in terminated && 0 <= x < MAX_PROCESSES :: s.pool[x].state == Terminated
  }

  /** The queues are well linked, and links, flags and counters tell the same story. */
  ghost predicate Inv(s: Raw, ready: seq<int>, terminated: seq<int>)
  {
    && |s.pool| == |s.used| == MAX_PROCESSES
    && SchedOk(View(s, ready, terminated))
    && IsQueue(s.pool, s.readyHead, ready)
    && IsQueue(s.pool, s.terminatedHead, terminated)
    && s.blockedHead == NULL
    && Marks(s, Live(View(s, ready, terminated)))
    && StatesOk(s, ready, terminated)
  }

  // ---------------------------------------------------------------- consequences of the invariant

  lemma InvApart(s: Raw, ready: seq<int>, terminated: seq<int>)
    requires Inv(s, ready, terminated)
    ensures s.running != NULL ==> s.running !in ready && s.running !in terminated
    ensures forall x | x in ready :: x !in terminated && 0 <= x < MAX_PROCESSES && s.used[x]
    ensures forall x | x in terminated :: x !in ready && 0 <= x < MAX_PROCESSES && !s.used[x]
  {
    hide IsQueue;
    var a := View(s, ready, terminated);
    NoDupConcat(Live(a), terminated);
    NoDupConcat(if s.running == NULL then [] else [s.running], ready);
    assert forall x | x in ready :: x in Live(a);
    assert forall x | x in Live(a) || x in terminated :: x in All(a);
  }

  // ---------------------------------------------------------------- creating

  ghost predicate IsFirstUnused(used: seq<bool>, i: int)
  {
    0 <= i < |used| && !used[i] && forall j | 0 <= j < i :: used[j]
  }

  /** What process_create makes of a cleared PCB; stack is what kmalloc answered, or NULL. */
  function NewPcb(pid: int, stack: int): Pcb
  {
    Pcb(pid, Ready, DEFAULT_TIME_SLICE, DEFAULT_TIME_SLICE, stack, NULL, NULL)
  }

  /** process_create into slot i. */
  function CreateIn(s: Raw, i: int, stack: int): Raw
    requires |s.pool| == |s.used| && 0 <= i < |s.pool| && (s.readyHead == NULL || 0 <= s.readyHead < |s.pool|)
  {
    var pcb := NewPcb(s.nextPid, stack);
    s.(pool := PushFront(s.pool[i := pcb], s.readyHead, i), used := s.used[i := true], readyHead := i,
       nextPid := Plus1(s.nextPid), count := s.count + 1)
  }

  lemma HeadInPool(pool: seq<Pcb>, head: int, xs: seq<int>)
    requires IsQueue(pool, head, xs)
    ensures head == NULL || (0 <= head < |pool| && head in xs)
  {
  }

  /** Setting a PCB outside a queue does not touch the queue. */
  lemma QueueFrame(pool: seq<Pcb>, p: int, pcb: Pcb, head: int, xs: seq<int>)
    requires IsQueue(pool, head, xs) && 0 <= p < |pool| && p !in xs
    ensures IsQueue(pool[p := pcb], head, xs)
  {
    forall i | 0 <= i < |xs|
      ensures xs[i] != p
    {
      assert xs[i] in xs;
    }
  }

  /** With nothing terminated, the first unused slot is the number of live processes, and
      creating there keeps the invariant. */
  lemma CreateKeepsInv(s: Raw, ready: seq<int>, i: int, stack: int)
    requires Inv(s, ready, []) && IsFirstUnused(s.used, i)
    ensures s.readyHead == NULL || 0 <= s.readyHead < |s.pool|
    ensures Inv(CreateIn(s, i, stack), [i] + ready, [])
    ensures View(CreateIn(s, i, stack), [i] + ready, []) == Created(View(s, ready, []), stack)
  {
    hide IsQueue, SchedOk, PushFront, Marks, StatesOk;
    InvApart(s, ready, []);
    HeadInPool(s.pool, s.readyHead, ready);
    var a, t := View(s, ready, []), CreateIn(s, i, stack);
    FirstUnusedIsCount(s, ready, i);
    var pcb := NewPcb(s.nextPid, stack);
    QueueFrame(s.pool, i, pcb, s.readyHead, ready);
    QueueFrame(s.pool, i, pcb, s.terminatedHead, []);
    var pool := s.pool[i := pcb];
    PushFrontQueue(pool, s.readyHead, ready, i);
    PushFrontOther(pool, s.readyHead, ready, i, s.terminatedHead, []);
    CreatedOk(a, stack);
    PushFrontKeeps(pool, s.readyHead, i);
    NextPidSmall(a);
    assert Pids(t.pool) == a.pids[i := a.nextPid];
    assert Stacks(t.pool) == a.stacks[i := stack];
    CreateMarks(s, ready, i, stack);
    CreateStates(s, ready, i, stack);
  }

  /** Flags and count after a create. */
  lemma CreateMarks(s: Raw, ready: seq<int>, i: int, stack: int)
    requires Inv(s, ready, []) && IsFirstUnused(s.used, i) && i !in ready && i != s.running
    requires s.readyHead == NULL || 0 <= s.readyHead < |s.pool|
    ensures var t := CreateIn(s, i, stack); Marks(t, Live(View(t, [i] + ready, [])))
  {
    hide IsQueue, SchedOk, PushFront, StatesOk, Pids, Stacks, NewPcb;
    LivePushed(s.running, ready, i);
  }

  /** States after a create. */
  lemma CreateStates(s: Raw, ready: seq<int>, i: int, stack: int)
    requires |s.pool| == |s.used| == MAX_PROCESSES && StatesOk(s, ready, [])
    requires 0 <= i < MAX_PROCESSES && i !in ready && i != s.running && s.running !in ready
    requires s.readyHead == NULL || (0 <= s.readyHead < |s.pool| && s.readyHead in ready)
    ensures StatesOk(CreateIn(s, i, stack), [i] + ready, [])
  {
    hide PushFront;
    PushFrontKeeps(s.pool[i := NewPcb(s.nextPid, stack)], s.readyHead, i);
  }

  lemma NextPidSmall(a: Sched)
    requires SchedOk(a)
    ensures 0 <= a.nextPid <= MAX_PROCESSES
  {
  }

  lemma LivePushed(running: int, ready: seq<int>, i: int)
    ensures var r := if running == NULL then [] else [running];
            |r + ([i] + ready)| == |r + ready| + 1 && forall x :: x in r + ([i] + ready) <==> x == i || x in r + ready
  {
  }

  /** A push changes links only, and only of the new and the old head. */
  lemma PushFrontKeeps(pool: seq<Pcb>, head: int, p: int)
    requires 0 <= p < |pool| && (head == NULL || 0 <= head < |pool|)
    ensures forall i | 0 <= i < |pool| ::
              var q := PushFront(pool, head, p)[i];
              && q.pid == pool[i].pid && q.state == pool[i].state && q.stackBase == pool[i].stackBase
              && (i != p && i != head ==> q == pool[i])
  {
  }

  lemma FirstUnusedIsCount(s: Raw, ready: seq<int>, i: int)
    requires Inv(s, ready, []) && IsFirstUnused(s.used, i)
    ensures i == |Live(View(s, ready, []))| < MAX_PROCESSES && i !in ready && i != s.running
  {
    hide IsQueue;
    var a := View(s, ready, []);
    var n := |Live(a)|;
    assert All(a) == Live(a);
    if i < n {
      NoDupCovers(Live(a), i);
    }
    assert n < MAX_PROCESSES ==> !s.used[n];
    assert i !in Live(a);
  }

  /** Once a process has been terminated, the first unused slot is one that is still on the
      terminated queue, and creating there breaks the invariant for good: no two lists describe
      the queues any more. */
  lemma CreateAfterTerminateBreaks(s: Raw, ready: seq<int>, terminated: seq<int>, i: int, stack: int,
                                   ready': seq<int>, terminated': seq<int>)
    requires Inv(s, ready, terminated) && terminated != [] && IsFirstUnused(s.used, i)
    ensures s.readyHead == NULL || 0 <= s.readyHead < |s.pool|
    ensures i in terminated && !Inv(CreateIn(s, i, stack), ready', terminated')
  {
    hide SchedOk, PushFront;
    InvApart(s, ready, terminated);
    HeadInPool(s.pool, s.readyHead, ready);
    FirstUnusedIsTerminated(s, ready, terminated, i);
    var t := CreateIn(s, i, stack);
    if Inv(t, ready', terminated') {
      var k :| 0 <= k < |terminated| && terminated[k] == i;
      StillOnQueue(s, ready, terminated, i, stack, terminated', k);
      InvApart(t, ready', terminated');
    }
  }

  lemma FirstUnusedIsTerminated(s: Raw, ready: seq<int>, terminated: seq<int>, i: int)
    requires Inv(s, ready, terminated) && terminated != [] && IsFirstUnused(s.used, i)
    ensures i in terminated
  {
    hide IsQueue;
    var a := View(s, ready, terminated);
    InvApart(s, ready, terminated);
    var x := terminated[0];
    assert x in terminated && x in All(a);
    assert i <= x;
    NoDupCovers(All(a), i);
  }

  /** The first k entries of the terminated queue are as before, so it still leads to slot i. */
  lemma {:induction false} StillOnQueue(s: Raw, ready: seq<int>, terminated: seq<int>, i: int, stack: int,
                                        terminated': seq<int>, k: nat)
    requires Inv(s, ready, terminated) && k < |terminated| && terminated[k] == i
    requires s.readyHead == NULL || 0 <= s.readyHead < |s.pool|
    requires 0 <= i < |s.pool| && IsQueue(CreateIn(s, i, stack).pool, s.terminatedHead, terminated')
    ensures i in terminated'
  {
    hide SchedOk;
    SameUpTo(s, ready, terminated, i, stack, terminated', k, k);
  }

  lemma {:induction false} SameUpTo(s: Raw, ready: seq<int>, terminated: seq<int>, i: int, stack: int,
                                    terminated': seq<int>, k: nat, j: nat)
    requires Inv(s, ready, terminated) && j <= k < |terminated| && terminated[k] == i
    requires s.readyHead == NULL || 0 <= s.readyHead < |s.pool|
    requires 0 <= i < |s.pool| && IsQueue(CreateIn(s, i, stack).pool, s.terminatedHead, terminated')
    ensures j < |terminated'| && terminated'[j] == terminated[j]
  {
    hide SchedOk;
    if j > 0 {
      SameUpTo(s, ready, terminated, i, stack, terminated', k, j - 1);
      var x := terminated[j - 1];
      InvApart(s, ready, terminated);
      HeadInPool(s.pool, s.readyHead, ready);
      assert x in terminated && x != i;
      PushFrontKeeps(s.pool[i := NewPcb(s.nextPid, stack)], s.readyHead, i);
      assert CreateIn(s, i, stack).pool[x] == s.pool[x];
    }
  }

  // ---------------------------------------------------------------- terminating

  ghost predicate LinksInPool(s: Raw, p: int)
  {
    && 0 <= p < |s.pool|
    && (s.pool[p].prev == NULL || 0 <= s.pool[p].prev < |s.pool|)
    && (s.pool[p].next == NULL || 0 <= s.pool[p].next < |s.pool|)
  }

  /** Taking slot p off the ready queue, then off the blocked queue. */
  function TakeOff(s: Raw, p: int): (r: Raw)
    requires LinksInPool(s, p)
    ensures |r.pool| == |s.pool| && r == s.(pool := r.pool, readyHead := r.readyHead, blockedHead := r.blockedHead)
  {
    var u := Unlink(s.pool, s.readyHead, p);
    var v := Unlink(u.pool, s.blockedHead, p);
    s.(pool := v.pool, readyHead := u.head, blockedHead := v.head)
  }

  /** The rest of process_terminate: slot p goes on the terminated queue and is released. */
  function Bury(s: Raw, p: int): Raw
    requires |s.pool| == |s.used| && 0 <= p < |s.pool| && (s.terminatedHead == NULL || 0 <= s.terminatedHead < |s.pool|)
  {
    var pool := s.pool[p := s.pool[p].(state := Terminated)];
    s.(pool := PushFront(pool, s.terminatedHead, p), terminatedHead := p, used := s.used[p := false],
       count := Minus1(s.count))
  }

  /** process_terminate of the process in slot p. */
  function TerminateSlot(s: Raw, p: int): Raw
    requires |s.pool| == |s.used| && LinksInPool(s, p) && (s.terminatedHead == NULL || 0 <= s.terminatedHead < |s.pool|)
  {
    if p == s.running then Bury(s.(running := NULL), p) else Bury(TakeOff(s, p), p)
  }

  /** The links change, the stacks do not: a slot still says which stack it had. */
  lemma StacksKept(s: Raw, p: int)
    requires |s.pool| == |s.used| && LinksInPool(s, p) && (s.terminatedHead == NULL || 0 <= s.terminatedHead < |s.pool|)
    ensures Stacks(TerminateSlot(s, p).pool) == Stacks(s.pool)
  {
    hide PushFront, Unlink;
    var t := if p == s.running then s else TakeOff(s, p);
    if p != s.running {
      var u := Unlink(s.pool, s.readyHead, p);
      UnlinkStacks(s.pool, s.readyHead, p);
      UnlinkStacks(u.pool, s.blockedHead, p);
    }
    PushFrontKeeps(t.pool[p := t.pool[p].(state := Terminated)], s.terminatedHead, p);
  }

  lemma UnlinkStacks(pool: seq<Pcb>, head: int, p: int)
    requires 0 <= p < |pool|
    requires pool[p].prev == NULL || 0 <= pool[p].prev < |pool|
    requires pool[p].next == NULL || 0 <= pool[p].next < |pool|
    ensures forall x | 0 <= x < |pool| :: Unlink(pool, head, p).pool[x].stackBase == pool[x].stackBase
  {
  }

  /** Burying a slot that is on no queue. */
  lemma BuryQueues(s: Raw, p: int, ready: seq<int>, terminated: seq<int>)
    requires |s.pool| == |s.used| == MAX_PROCESSES && 0 <= p < |s.pool|
    requires IsQueue(s.pool, s.readyHead, ready) && IsQueue(s.pool, s.terminatedHead, terminated)
    requires p !in ready && p !in terminated && forall x | x in ready :: x !in terminated
    ensures s.terminatedHead == NULL || 0 <= s.terminatedHead < |s.pool|
    ensures var t := Bury(s, p);
            && IsQueue(t.pool, t.readyHead, ready) && IsQueue(t.pool, t.terminatedHead, [p] + terminated)
            && Pids(t.pool) == Pids(s.pool) && Stacks(t.pool) == Stacks(s.pool)
            && t.pool[p].state == Terminated
            && (forall x | 0 <= x < |s.pool| && x != p :: t.pool[x].state == s.pool[x].state)
            && forall x | 0 <= x < |s.pool| && x != p && x !in terminated :: t.pool[x] == s.pool[x]
  {
    hide IsQueue, PushFront;
    HeadInPool(s.pool, s.terminatedHead, terminated);
    var pcb := s.pool[p].(state := Terminated);
    var pool := s.pool[p := pcb];
    QueueFrame(s.pool, p, pcb, s.readyHead, ready);
    QueueFrame(s.pool, p, pcb, s.terminatedHead, terminated);
    PushFrontQueue(pool, s.terminatedHead, terminated, p);
    PushFrontOther(pool, s.terminatedHead, terminated, p, s.readyHead, ready);
    PushFrontKeeps(pool, s.terminatedHead, p);
  }

  lemma TerminateRunningKeepsInv(s: Raw, ready: seq<int>, terminated: seq<int>)
    requires Inv(s, ready, terminated) && s.running != NULL
    ensures LinksInPool(s, s.running) && (s.terminatedHead == NULL || 0 <= s.terminatedHead < |s.pool|)
    ensures var t := TerminateSlot(s, s.running); var a := View(s, ready, terminated);
            && Inv(t, ready, [s.running] + terminated)
            && View(t, ready, [s.running] + terminated) == a.(running := NULL, terminated := [s.running] + terminated)
  {
    hide IsQueue, SchedOk, PushFront, All;
    var a, p := View(s, ready, terminated), s.running;
    InvApart(s, ready, terminated);
    BuryQueues(s.(running := NULL), p, ready, terminated);
    var t := TerminateSlot(s, p);
    var b := View(t, ready, [p] + terminated);
    assert b == a.(running := NULL, terminated := [p] + terminated);
    MovedFromRunning(a);
    MovedOk(a, b);
    CountInPool(a);
    assert Live(a) == [p] + ready && Live(b) == ready;
  }

  lemma MovedFromRunning(a: Sched)
    requires a.running != NULL
    ensures multiset(All(a.(running := NULL, terminated := [a.running] + a.terminated))) == multiset(All(a))
  {
    assert All(a.(running := NULL, terminated := [a.running] + a.terminated)) == a.ready + ([a.running] + a.terminated);
  }

  lemma CountInPool(a: Sched)
    requires SchedOk(a)
    ensures |Live(a)| <= MAX_PROCESSES
  {
  }

  lemma TakeOffQueues(s: Raw, ready: seq<int>, terminated: seq<int>, k: nat)
    requires IsQueue(s.pool, s.readyHead, ready) && IsQueue(s.pool, s.terminatedHead, terminated) && k < |ready|
    requires s.blockedHead == NULL && forall x | x in ready :: x !in terminated
    ensures LinksInPool(s, ready[k])
    ensures var t := TakeOff(s, ready[k]);
            && IsQueue(t.pool, t.readyHead, Without(ready, k)) && IsQueue(t.pool, t.terminatedHead, terminated)
            && t.blockedHead == NULL
            && (forall x | 0 <= x < |s.pool| :: t.pool[x].pid == s.pool[x].pid && t.pool[x].state == s.pool[x].state
                                                && t.pool[x].stackBase == s.pool[x].stackBase)
            && (forall x | 0 <= x < |s.pool| && x !in ready :: t.pool[x] == s.pool[x])
  {
    hide IsQueue, Unlink;
    UnlinkQueue(s.pool, s.readyHead, ready, k);
    UnlinkOther(s.pool, s.readyHead, ready, k, s.terminatedHead, terminated);
    UnlinkKeeps(s.pool, s.readyHead, ready, k);
    InQueueInPool(s.pool, s.readyHead, ready, k);
    UnlinkIdle(Unlink(s.pool, s.readyHead, ready[k]).pool, ready[k]);
  }

  lemma InQueueInPool(pool: seq<Pcb>, head: int, xs: seq<int>, k: nat)
    requires IsQueue(pool, head, xs) && k < |xs|
    ensures 0 <= xs[k] < |pool|
    ensures pool[xs[k]].prev == NULL || 0 <= pool[xs[k]].prev < |pool|
    ensures pool[xs[k]].next == NULL || 0 <= pool[xs[k]].next < |pool|
  {
    assert k > 0 ==> pool[xs[k]].prev == xs[k - 1];
    assert k + 1 < |xs| ==> pool[xs[k]].next == xs[k + 1];
  }

  /** States after slot p of the ready queue has been buried. */
  lemma BuriedStates(s: Raw, ready: seq<int>, terminated: seq<int>, t: Raw, rest: seq<int>, p: int)
    requires |s.pool| == |t.pool| == MAX_PROCESSES && t.running == s.running && 0 <= p < MAX_PROCESSES
    requires StatesOk(s, ready, terminated) && p in ready && p != s.running
    requires s.running !in ready && s.running !in terminated
    requires forall x | x in rest :: x in ready && x != p
    requires t.pool[p].state == Terminated
    requires forall x | 0 <= x < |s.pool| && x != p :: t.pool[x].state == s.pool[x].state
    requires forall x | 0 <= x < |s.pool| && x !in ready && x !in terminated :: t.pool[x] == s.pool[x]
    ensures StatesOk(t, rest, [p] + terminated)
  {
  }

  /** Flags and count after slot p of the ready queue has been released. */
  lemma ReleasedMarks(s: Raw, t: Raw, ready: seq<int>, k: nat)
    requires |s.used| == MAX_PROCESSES && k < |ready| && ready[k] !in Without(ready, k)
    requires forall x :: x in Without(ready, k) <==> x in ready && x != ready[k]
    requires var r := if s.running == NULL then [] else [s.running]; Marks(s, r + ready) && |r + ready| <= MAX_PROCESSES
    requires 0 <= ready[k] < MAX_PROCESSES && ready[k] != s.running
    requires t.used == s.used[ready[k] := false] && t.count == Minus1(s.count)
    ensures var r := if s.running == NULL then [] else [s.running]; Marks(t, r + Without(ready, k))
  {
    LiveWithout(s.running, ready, k);
  }

  lemma TerminateReadyKeepsInv(s: Raw, ready: seq<int>, terminated: seq<int>, k: nat)
    requires Inv(s, ready, terminated) && k < |ready|
    ensures LinksInPool(s, ready[k]) && (s.terminatedHead == NULL || 0 <= s.terminatedHead < |s.pool|)
    ensures var t := TerminateSlot(s, ready[k]); var a := View(s, ready, terminated);
            && Inv(t, Without(ready, k), [ready[k]] + terminated)
            && View(t, Without(ready, k), [ready[k]] + terminated)
               == a.(ready := Without(ready, k), terminated := [ready[k]] + terminated)
  {
    hide IsQueue, SchedOk, PushFront, TakeOff, Marks, StatesOk, Pids, Stacks, Without;
    var a, p, rest := View(s, ready, terminated), ready[k], Without(ready, k);
    InvApart(s, ready, terminated);
    HeadInPool(s.pool, s.terminatedHead, terminated);
    ReadyNoDup(s.pool, s.readyHead, ready, k);
    TakeOffQueues(s, ready, terminated, k);
    var s1 := TakeOff(s, p);
    assert p in ready && p != s.running;
    BuryQueues(s1, p, rest, terminated);
    var t := TerminateSlot(s, p);
    var b := View(t, rest, [p] + terminated);
    assert Pids(t.pool) == Pids(s1.pool) == Pids(s.pool);
    assert Stacks(t.pool) == Stacks(s1.pool) == Stacks(s.pool);
    assert b == a.(ready := rest, terminated := [p] + terminated);
    MovedFromReady(a, k);
    RunningInPool(a);
    MovedOk(a, b);
    CountInPool(a);
    BuriedStates(s, ready, terminated, t, rest, p);
    ReleasedMarks(s, t, ready, k);
  }

  lemma ReadyNoDup(pool: seq<Pcb>, head: int, ready: seq<int>, k: nat)
    requires IsQueue(pool, head, ready) && k < |ready|
    ensures ready[k] !in Without(ready, k)
    ensures forall x :: x in Without(ready, k) <==> x in ready && x != ready[k]
  {
    assert ready == ready[..k] + [ready[k]] + ready[k + 1..];
  }

  lemma LiveWithout(running: int, ready: seq<int>, k: nat)
    requires k < |ready|
    ensures var r := if running == NULL then [] else [running];
            |r + Without(ready, k)| + 1 == |r + ready|
  {
  }

  /** Terminating a pid that is already on the terminated queue breaks the invariant for good:
      process_count no longer is the number of used slots. */
  lemma TerminateDeadBreaks(s: Raw, ready: seq<int>, terminated: seq<int>, p: int,
                            ready': seq<int>, terminated': seq<int>)
    requires Inv(s, ready, terminated) && p in terminated
    ensures LinksInPool(s, p) && (s.terminatedHead == NULL || 0 <= s.terminatedHead < |s.pool|)
    ensures !Inv(TerminateSlot(s, p), ready', terminated')
  {
    hide IsQueue, SchedOk, PushFront, Unlink, TakeOff, StatesOk;
    InvApart(s, ready, terminated);
    HeadInPool(s.pool, s.terminatedHead, terminated);
    var i :| 0 <= i < |terminated| && terminated[i] == p;
    InQueueInPool(s.pool, s.terminatedHead, terminated, i);
    var t := TerminateSlot(s, p);
    assert t.used == s.used;
    if Inv(t, ready', terminated') {
      var a, b := View(s, ready, terminated), View(t, ready', terminated');
      LiveSlots(a);
      LiveSlots(b);
      SameMembersSameLength(Live(a), Live(b));
    }
  }

  lemma LiveSlots(a: Sched)
    requires SchedOk(a)
    ensures NoDup(Live(a)) && forall x | x in Live(a) :: 0 <= x < MAX_PROCESSES
  {
    NoDupConcat(Live(a), a.terminated);
    assert forall x | x in Live(a) :: x in All(a);
  }

  // ---------------------------------------------------------------- switching

  /** Pushing a process that is on no queue and taking it off again restores pool and head. */
  lemma PopUndoesPush(pool: seq<Pcb>, head: int, ready: seq<int>, p: int)
    requires IsQueue(pool, head, ready) && 0 <= p < |pool| && p !in ready
    requires pool[p].next == NULL && pool[p].prev == NULL
    ensures head == NULL || 0 <= head < |pool|
    ensures var q := PushFront(pool, head, p);
            q[p].prev == NULL && q[p].next == head && Unlink(q, p, p) == Unlinked(pool, head)
  {
    HeadInPool(pool, head, ready);
    var q := PushFront(pool, head, p);
    var r := Unlink(q, p, p);
    assert head != NULL ==> pool[head].prev == NULL;
    assert forall i | 0 <= i < |pool| :: r.pool[i] == pool[i];
  }

  /** process_switch to slot p. */
  function SwitchTo(s: Raw, p: int): Raw
    requires 0 <= p < |s.pool|
  {
    s.(running := p, pool := s.pool[p := s.pool[p].(state := Running, remainingSlice := s.pool[p].timeSlice)])
  }

  /** process_scheduler when the slice of the running process is used up: push it on the ready
      queue, take the front of the ready queue, switch to it. */
  function Rescheduled(s: Raw): Raw
    requires 0 <= s.running < |s.pool| && (s.readyHead == NULL || 0 <= s.readyHead < |s.pool|)
    requires s.pool[s.running].next == NULL && s.pool[s.running].prev == NULL
  {
    var p := s.running;
    var pool := PushFront(s.pool[p := s.pool[p].(state := Ready)], s.readyHead, p);
    if pool[p].next != NULL && !(0 <= pool[p].next < |pool|) then s else
    var u := Unlink(pool, p, p);
    SwitchTo(s.(pool := u.pool, readyHead := u.head), p)
  }

  /** The running process with a full slice again. */
  function SliceRestored(s: Raw): Raw
  {
    if !(0 <= s.running < |s.pool|) then s else
      s.(pool := s.pool[s.running := s.pool[s.running].(remainingSlice := s.pool[s.running].timeSlice)])
  }

  /** Rescheduling changes nothing but the slice of the process that goes on running. */
  lemma RescheduledIdles(s: Raw, ready: seq<int>, terminated: seq<int>)
    requires Inv(s, ready, terminated) && s.running != NULL
    ensures s.readyHead == NULL || 0 <= s.readyHead < |s.pool|
    ensures Rescheduled(s) == SliceRestored(s)
    ensures Inv(Rescheduled(s), ready, terminated)
    ensures View(Rescheduled(s), ready, terminated) == Switched(View(s, ready, terminated), true)
  {
    hide IsQueue, SchedOk, PushFront, Unlink;
    var p := s.running;
    InvApart(s, ready, terminated);
    HeadInPool(s.pool, s.readyHead, ready);
    var pcb := s.pool[p].(state := Ready);
    QueueFrame(s.pool, p, pcb, s.readyHead, ready);
    PopUndoesPush(s.pool[p := pcb], s.readyHead, ready, p);
    var t := Rescheduled(s);
    var pcb' := s.pool[p].(remainingSlice := s.pool[p].timeSlice);
    assert t == s.(pool := s.pool[p := pcb']);
    QueueFrame(s.pool, p, pcb', s.readyHead, ready);
    QueueFrame(s.pool, p, pcb', s.terminatedHead, terminated);
    assert Pids(t.pool) == Pids(s.pool) && Stacks(t.pool) == Stacks(s.pool);
    NeverSwitches(View(s, ready, terminated), true);
  }

  // ---------------------------------------------------------------- the manager

  lemma InitialInv(s: Raw)
    requires |s.pool| == |s.used| == MAX_PROCESSES && View(s, [], []) == Initial()
    requires s.readyHead == s.blockedHead == s.terminatedHead == NULL && s.count == 1
    requires forall i | 0 <= i < MAX_PROCESSES :: s.used[i] <==> i == 0
    requires s.pool[0].state == Running && s.pool[0].next == s.pool[0].prev == NULL
    ensures Inv(s, [], [])
  {
    hide SchedOk;
    InitialOk();
    assert Live(Initial()) == [0];
  }

  datatype Code = Success | InvalidParam | NotFound | QueueFull | NoMemory

  class Manager {
    const pool: array<Pcb>
    const used: array<bool>
    var running: int
    var readyQueue: int
    var blockedQueue: int
    var terminatedQueue: int
    var nextPid: int
    var processCount: int
    var schedulerTicks: int
    ghost var ready: seq<int>
    ghost var terminated: seq<int>

    ghost function Snapshot(): Raw
      reads this, pool, used
    {
      Raw(pool[..], used[..], running, readyQueue, blockedQueue, terminatedQueue, nextPid, processCount)
    }

    ghost predicate Valid()
      reads this, pool, used
    {
      pool.Length == MAX_PROCESSES && used.Length == MAX_PROCESSES && Inv(Snapshot(), ready, terminated)
    }

    ghost function Now(): Sched
      reads this, pool, used
    {
      View(Snapshot(), ready, terminated)
    }

    /** The running process is in the pool and the queues can be followed. */
    ghost predicate Linked()
      reads this, pool, used
    {
      && NULL <= running < pool.Length && blockedQueue == NULL
      && IsQueue(pool[..], readyQueue, ready) && IsQueue(pool[..], terminatedQueue, terminated)
    }

    /** process_manager_init */
    constructor ()
      ensures Valid() && Now() == Initial() && fresh(pool) && fresh(used)
    {
      hide Inv;
      pool := new Pcb[MAX_PROCESSES](_ => ZERO_PCB);
      used := new bool[MAX_PROCESSES](_ => false);
      running, readyQueue, blockedQueue, terminatedQueue := NULL, NULL, NULL, NULL;
      nextPid, processCount, schedulerTicks := 1, 0, 0;
      ready, terminated := [], [];
      new;
      assert !used[..][0];
      var idle := AllocatePcb();
      assert idle == 0;
      pool[idle] := pool[idle].(pid := 0, state := Running, timeSlice := 0, remainingSlice := 0);
      running := idle;
      processCount := 1;
      assert Pids(pool[..]) == Initial().pids && Stacks(pool[..]) == Initial().stacks;
      InitialInv(Snapshot());
    }

    method AllocatePcb() returns (i: int)
      requires pool.Length == used.Length
      modifies pool, used
      ensures i == NULL ==>
                && used[..] == old(used[..]) && pool[..] == old(pool[..])
                && forall j | 0 <= j < used.Length :: used[j]
      ensures i != NULL ==>
                && IsFirstUnused(old(used[..]), i)
                && used[..] == old(used[..])[i := true] && pool[..] == old(pool[..])[i := ZERO_PCB]
    {
      i := 0;
      while i < used.Length
        invariant 0 <= i <= used.Length && used[..] == old(used[..]) && pool[..] == old(pool[..])
        invariant forall j | 0 <= j < i :: used[j]
      {
        if !used[i] {
          used[i] := true;
          pool[i] := ZERO_PCB;
          return;
        }
        i := i + 1;
      }
      i := NULL;
    }

    method DeallocatePcb(p: int)
      requires 0 <= p < used.Length
      modifies used
      ensures used[..] == old(used[..])[p := false]
    {
      var i := 0;
      while i < used.Length
        invariant 0 <= i <= p && used[..] == old(used[..])
      {
        if i == p {
          used[i] := false;
          return;
        }
        i := i + 1;
      }
    }

    method AddToQueue(head: int, p: int) returns (head': int)
      requires 0 <= p < pool.Length && (head == NULL || 0 <= head < pool.Length)
      modifies pool
      ensures pool[..] == PushFront(old(pool[..]), head, p) && head' == p
    {
      pool[p] := pool[p].(next := head);
      if head != NULL {
        pool[head] := pool[head].(prev := p);
      }
      pool[p] := pool[p].(prev := NULL);
      head' := p;
    }

    method RemoveFromQueue(head: int, p: int) returns (head': int)
      requires 0 <= p < pool.Length
      requires pool[p].prev == NULL || 0 <= pool[p].prev < pool.Length
      requires pool[p].next == NULL || 0 <= pool[p].next < pool.Length
      modifies pool
      ensures Unlinked(pool[..], head') == Unlink(old(pool[..]), head, p)
    {
      var prev, next := pool[p].prev, pool[p].next;
      head' := head;
      if prev != NULL {
        pool[prev] := pool[prev].(next := next);
      } else {
        head' := next;
      }
      if next != NULL {
        pool[next] := pool[next].(prev := prev);
      }
      pool[p] := pool[p].(next := NULL, prev := NULL);
    }

    method FindProcessInQueue(head: int, pid: int, ghost xs: seq<int>) returns (p: int)
      requires IsQueue(pool[..], head, xs)
      ensures p == Nth(xs, PidIndex(Pids(pool[..]), xs, pid))
    {
      hide NoDup;
      p := head;
      ghost var k := 0;
      while p != NULL
        invariant 0 <= k <= |xs| && p == Nth(xs, k)
        invariant forall j | 0 <= j < k :: 0 <= xs[j] < pool.Length && pool[xs[j]].pid != pid
        decreases |xs| - k
      {
        assert p == xs[k];
        if pool[p].pid == pid {
          break;
        }
        p := pool[p].next;
        k := k + 1;
      }
      PidIndexIs(Pids(pool[..]), xs, pid, k);
    }

    method ProcessGetByPid(pid: int) returns (p: int)
      requires Linked()
      ensures p == Found(Now(), pid)
    {
      if running != NULL && pool[running].pid == pid {
        return running;
      }
      p := FindProcessInQueue(readyQueue, pid, ready);
      if p != NULL {
        return;
      }
      p := FindProcessInQueue(blockedQueue, pid, []);
      if p != NULL {
        return;
      }
      p := FindProcessInQueue(terminatedQueue, pid, terminated);
    }

    /** process_create.  After the check of process_count there is always a free PCB.  With
        nothing terminated the invariant is kept; otherwise it is lost for good.  name and
        entryPoint say whether these pointers are given, and stack is what kmalloc answers; NULL
        is not looked at. */
    method ProcessCreate(name: bool, entryPoint: bool, stack: int) returns (code: Code, pid: int)
      requires Valid()
      modifies this, pool, used
      ensures code == (if !name || !entryPoint then InvalidParam
                       else if old(processCount) >= MAX_PROCESSES then QueueFull else Success)
      ensures code != Success ==> Valid() && Snapshot() == old(Snapshot()) && Now() == old(Now())
      ensures code == Success ==>
                && pid == old(nextPid) && 0 <= readyQueue < MAX_PROCESSES == pool.Length
                && pool[readyQueue].pid == pid && pool[readyQueue].stackBase == stack
                && pool[readyQueue].timeSlice == pool[readyQueue].remainingSlice == 10
      ensures code == Success && old(terminated) == [] ==> Valid() && Now() == Created(old(Now()), stack)
      ensures code == Success && old(terminated) != [] ==> forall r, t :: !Inv(Snapshot(), r, t)
    {
      hide SchedOk, IsQueue, PushFront, Marks, StatesOk, IsFirstUnused;
      ghost var s := Snapshot();
      if !name || !entryPoint {
        return InvalidParam, 0;
      }
      if processCount >= MAX_PROCESSES {
        return QueueFull, 0;
      }
      SomeSlotUnused(s, ready, terminated);
      HeadInPool(s.pool, s.readyHead, ready);
      var p := AllocatePcb();
      if p == NULL {
        return NoMemory, 0;
      }
      FirstUnusedInPool(s.used, p);
      pid := nextPid;
      nextPid := Plus1(nextPid);
      pool[p] := pool[p].(pid := pid, state := New);
      pool[p] := pool[p].(timeSlice := DEFAULT_TIME_SLICE, remainingSlice := DEFAULT_TIME_SLICE);
      // setup_process_stack
      pool[p] := pool[p].(stackBase := stack);
      pool[p] := pool[p].(state := Ready);
      ghost var pcb := NewPcb(pid, stack);
      assert pool[..] == s.pool[p := pcb];
      PushFrontPcb(pool[..], readyQueue, p);
      readyQueue := AddToQueue(readyQueue, p);
      processCount := processCount + 1;
      code := Success;
      assert Snapshot() == CreateIn(s, p, stack);
      if terminated == [] {
        CreateKeepsInv(s, ready, p, stack);
        ready := [p] + ready;
      } else {
        forall r, t
          ensures !Inv(Snapshot(), r, t)
        {
          CreateAfterTerminateBreaks(s, ready, terminated, p, stack, r, t);
        }
      }
    }

    /** process_terminate, once the process is found. */
    method Release(p: int) returns (freed: seq<int>)
      requires pool.Length == used.Length && p != NULL && LinksInPool(Snapshot(), p)
      requires terminatedQueue == NULL || 0 <= terminatedQueue < pool.Length
      modifies this`running, this`readyQueue, this`blockedQueue, this`terminatedQueue, this`processCount, pool, used
      ensures Snapshot() == TerminateSlot(old(Snapshot()), p) && freed == StackIn(old(Stacks(pool[..])), p)
    {
      hide PushFront, Unlink;
      ghost var s := Snapshot();
      if p == running {
        running := NULL;
      } else {
        readyQueue := RemoveFromQueue(readyQueue, p);
        blockedQueue := RemoveFromQueue(blockedQueue, p);
      }
      pool[p] := pool[p].(state := Terminated);
      terminatedQueue := AddToQueue(terminatedQueue, p);
      StacksKept(s, p);
      assert pool[p].stackBase == Stacks(s.pool)[p];
      freed := [];
      if pool[p].stackBase != 0 {
        freed := [pool[p].stackBase];
      }
      DeallocatePcb(p);
      processCount := Minus1(processCount);
      // running_process was set to NULL above, so no other process is scheduled here
      assert Snapshot() == TerminateSlot(s, p);
    }

    /** process_terminate.  A live pid moves to the terminated queue; a pid already there is
        found again, and terminating it loses the invariant for good.  freed is what is given to
        kfree: the stack, if there is one; heap_base is always 0. */
    method ProcessTerminate(pid: int) returns (code: Code, freed: seq<int>)
      requires Valid()
      modifies this, pool, used
      ensures code == if Found(old(Now()), pid) == NULL then NotFound else Success
      ensures freed == Freed(old(Now()), pid) && Stacks(pool[..]) == old(Stacks(pool[..]))
      ensures !DeadPid(old(Now()), pid) ==> Valid() && Now() == TerminatedBy(old(Now()), pid)
      ensures DeadPid(old(Now()), pid) ==> forall r, t :: !Inv(Snapshot(), r, t)
    {
      hide SchedOk, IsQueue, PushFront, Unlink, Marks, StatesOk, PidIndex;
      ghost var s, a := Snapshot(), Now();
      PidsLength(a);
      RunningInPool(a);
      var p := ProcessGetByPid(pid);
      FoundWhere(s, ready, terminated, pid);
      if p == NULL {
        return NotFound, [];
      }
      StacksKept(s, p);
      freed := Release(p);
      code := Success;
      if p == s.running {
        TerminateRunningKeepsInv(s, ready, terminated);
        terminated := [p] + terminated;
      } else if p in ready {
        ghost var k := PidIndex(a.pids, ready, pid);
        TerminateReadyKeepsInv(s, ready, terminated, k);
        ready, terminated := Without(ready, k), [p] + terminated;
      } else {
        forall r, t
          ensures !Inv(Snapshot(), r, t)
        {
          TerminateDeadBreaks(s, ready, terminated, p, r, t);
        }
      }
    }

    /** schedule_next_process: the front of the ready queue, or the process with pid 0, wherever it
        is found, if that queue is empty. */
    method ScheduleNextProcess()
      requires readyQueue != NULL ==>
                 && 0 <= readyQueue < pool.Length
                 && (pool[readyQueue].prev == NULL || 0 <= pool[readyQueue].prev < pool.Length)
                 && (pool[readyQueue].next == NULL || 0 <= pool[readyQueue].next < pool.Length)
      requires readyQueue == NULL ==> Linked()
      modifies this`running, this`readyQueue, pool
      ensures old(readyQueue) != NULL ==>
                var u := Unlink(old(pool[..]), old(readyQueue), old(readyQueue));
                Snapshot() == SwitchTo(old(Snapshot()).(pool := u.pool, readyHead := u.head), old(readyQueue))
      ensures old(readyQueue) == NULL ==>
                var idle := Found(old(Now()), 0);
                && NULL <= idle < pool.Length
                && Snapshot() == if idle == NULL then old(Snapshot()) else SwitchTo(old(Snapshot()), idle)
    {
      hide Unlink, IsQueue;
      var next := NULL;
      if readyQueue != NULL {
        next := readyQueue;
        readyQueue := RemoveFromQueue(readyQueue, next);
      }
      if next == NULL {
        next := ProcessGetByPid(0);
        FoundInPool(Snapshot(), ready, terminated, 0);
      }
      if next != NULL {
        ProcessSwitch(next);
      }
    }

    method ProcessSwitch(p: int)
      requires 0 <= p < pool.Length
      modifies this`running, pool
      ensures Snapshot() == SwitchTo(old(Snapshot()), p)
      ensures running == p && pool[p].state == Running && pool[p].remainingSlice == old(pool[p].timeSlice)
      ensures forall x | 0 <= x < pool.Length && x != p :: pool[x] == old(pool[x])
    {
      running := p;
      pool[p] := pool[p].(state := Running);
      pool[p] := pool[p].(remainingSlice := pool[p].timeSlice);
    }

    /** process_scheduler: whatever the slice, the same process goes on running. */
    method ProcessScheduler()
      requires Valid()
      modifies this`schedulerTicks, this`running, this`readyQueue, pool
      ensures Valid() && Now() == old(Now()) && schedulerTicks == old(schedulerTicks) + 1
      ensures var expired := old(running != NULL && 0 <= running < pool.Length && pool[running].remainingSlice <= 0);
              && Now() == Switched(old(Now()), expired)
              && Snapshot() == if expired then SliceRestored(old(Snapshot())) else old(Snapshot())
    {
      hide SchedOk, IsQueue, PushFront, Unlink;
      ghost var s := Snapshot();
      schedulerTicks := schedulerTicks + 1;
      NeverSwitches(Now(), true);
      NeverSwitches(Now(), false);
      if running != NULL && pool[running].remainingSlice <= 0 {
        RescheduledIdles(s, ready, terminated);
        InvApart(s, ready, terminated);
        HeadInPool(s.pool, s.readyHead, ready);
        if pool[running].state == Running {
          pool[running] := pool[running].(state := Ready);
          PushLinks(pool[..], readyQueue, running);
          readyQueue := AddToQueue(readyQueue, running);
        }
        ScheduleNextProcess();
        assert Snapshot() == Rescheduled(s);
      }
    }

    method ProcessYield()
      requires Valid()
      modifies this`schedulerTicks, this`running, this`readyQueue, pool
      ensures Valid() && Now() == old(Now())
      ensures Snapshot() == if old(running) == NULL then old(Snapshot()) else SliceRestored(old(Snapshot()))
    {
      hide SchedOk, IsQueue;
      if running != NULL {
        ghost var s := Snapshot();
        ghost var pcb := pool[running].(remainingSlice := 0);
        InvApart(s, ready, terminated);
        QueueFrame(s.pool, running, pcb, s.readyHead, ready);
        QueueFrame(s.pool, running, pcb, s.terminatedHead, terminated);
        pool[running] := pool[running].(remainingSlice := 0);
        assert pool[..] == s.pool[running := pcb];
        assert Pids(pool[..]) == Pids(s.pool) && Stacks(pool[..]) == Stacks(s.pool);
        ProcessScheduler();
      }
    }
  }

  lemma PushFrontPcb(pool: seq<Pcb>, head: int, p: int)
    requires 0 <= p < |pool| && (head == NULL || 0 <= head < |pool|)
    ensures var q := PushFront(pool, head, p)[p];
            && q.pid == pool[p].pid && q.stackBase == pool[p].stackBase
            && q.timeSlice == pool[p].timeSlice && q.remainingSlice == pool[p].remainingSlice
  {
  }

  lemma PushLinks(pool: seq<Pcb>, head: int, p: int)
    requires 0 <= p < |pool| && (head == NULL || 0 <= head < |pool|) && head != p
    ensures PushFront(pool, head, p)[p].next == head && PushFront(pool, head, p)[p].prev == NULL
  {
  }

  /** Below 64 live processes there is an unused slot. */
  lemma SomeSlotUnused(s: Raw, ready: seq<int>, terminated: seq<int>)
    requires Inv(s, ready, terminated) && s.count < MAX_PROCESSES
    ensures exists i :: 0 <= i < MAX_PROCESSES && !s.used[i]
  {
    hide IsQueue;
    InvApart(s, ready, terminated);
    var a := View(s, ready, terminated);
    if terminated == [] {
      assert All(a) == Live(a);
      assert !s.used[|Live(a)|];
    } else {
      assert terminated[0] in terminated && !s.used[terminated[0]];
    }
  }

  lemma FirstUnusedInPool(used: seq<bool>, i: int)
    requires IsFirstUnused(used, i)
    ensures 0 <= i < |used|
  {
  }

  /** Where the process found is, and that its links and the terminated queue lie in the pool. */
  lemma FoundWhere(s: Raw, ready: seq<int>, terminated: seq<int>, pid: int)
    requires Inv(s, ready, terminated)
    ensures var a := View(s, ready, terminated); var p := Found(a, pid); var k := PidIndex(a.pids, ready, pid);
            && |a.pids| == MAX_PROCESSES
            && (s.terminatedHead == NULL || 0 <= s.terminatedHead < |s.pool|)
            && (p != NULL ==> LinksInPool(s, p))
            && (p != NULL && p == s.running ==> a.pids[p] == pid && !DeadPid(a, pid))
            && (p != NULL && p in ready ==> p != s.running && k < |ready| && p == ready[k] && !DeadPid(a, pid))
            && (p != NULL && p != s.running && p !in ready ==> p in terminated && DeadPid(a, pid))
            && (p == NULL ==> !DeadPid(a, pid) && k == |ready|)
            && (p == NULL || p in ready ==>
                  !(s.running != NULL && 0 <= s.running < |a.pids| && a.pids[s.running] == pid))
  {
    hide IsQueue;
    var a, p := View(s, ready, terminated), Found(View(s, ready, terminated), pid);
    InvApart(s, ready, terminated);
    HeadInPool(s.pool, s.terminatedHead, terminated);
    var k, t := PidIndex(a.pids, ready, pid), PidIndex(a.pids, terminated, pid);
    LiveAndDeadDiffer(a);
    if s.running != NULL && a.pids[s.running] == pid {
    } else if k < |ready| {
      assert ready[k] in ready;
      InQueueInPool(s.pool, s.readyHead, ready, k);
    } else if t < |terminated| {
      assert terminated[t] in terminated;
      InQueueInPool(s.pool, s.terminatedHead, terminated, t);
    }
  }

  /** No terminated process has the pid of a live one. */
  lemma LiveAndDeadDiffer(a: Sched)
    requires SchedOk(a)
    ensures forall x | x in Live(a) || x in a.terminated :: 0 <= x < |a.pids|
    ensures forall x, y | x in Live(a) && y in a.terminated :: x != y && a.pids[x] != a.pids[y]
  {
    NoDupConcat(Live(a), a.terminated);
    assert forall x | x in Live(a) || x in a.terminated :: x in All(a);
    forall x, y | x in Live(a) && y in a.terminated
      ensures x != y && a.pids[x] != a.pids[y]
    {
      assert x in All(a) && y in All(a);
    }
  }

  /** The slot found has been released exactly if the pid is a dead one: only then is a stack given
      back whose slot is no longer in use. */
  lemma ReleasedIff(s: Raw, ready: seq<int>, terminated: seq<int>, pid: int)
    requires Inv(s, ready, terminated)
    ensures var a := View(s, ready, terminated); var p := Found(a, pid);
            |a.pids| == MAX_PROCESSES && (p != NULL ==> 0 <= p < |s.used| && (!s.used[p] <==> DeadPid(a, pid)))
  {
    hide SchedOk, IsQueue, PidIndex;
    FoundWhere(s, ready, terminated, pid);
    InvApart(s, ready, terminated);
  }

  /** Terminating a live process, running or ready, leaves a consistent state in which its pid is
      found again in the same slot, and a second call would give back the same stack. */
  lemma StackFreedTwice(s: Raw, ready: seq<int>, terminated: seq<int>, pid: int)
    returns (ready': seq<int>, terminated': seq<int>)
    requires Inv(s, ready, terminated)
    requires var a := View(s, ready, terminated); !DeadPid(a, pid) && Found(a, pid) != NULL
    ensures var a := View(s, ready, terminated); var p := Found(a, pid);
            && LinksInPool(s, p) && (s.terminatedHead == NULL || 0 <= s.terminatedHead < |s.pool|)
            && |s.pool| == |s.used|
            && var t := TerminateSlot(s, p); var b := View(t, ready', terminated');
               Inv(t, ready', terminated') && DeadPid(b, pid) && Found(b, pid) == p && Freed(b, pid) == Freed(a, pid)
  {
    hide SchedOk, IsQueue, PidIndex, PushFront, Unlink, Marks, StatesOk, TerminateSlot;
    var a := View(s, ready, terminated);
    var p := Found(a, pid);
    PidsLength(a);
    RunningInPool(a);
    FoundWhere(s, ready, terminated, pid);
    FoundAgain(a, pid);
    if p == s.running {
      TerminateRunningKeepsInv(s, ready, terminated);
      ready', terminated' := ready, [p] + terminated;
    } else {
      var k := PidIndex(a.pids, ready, pid);
      TerminateReadyKeepsInv(s, ready, terminated, k);
      ready', terminated' := Without(ready, k), [p] + terminated;
    }
  }

  lemma FoundInPool(s: Raw, ready: seq<int>, terminated: seq<int>, pid: int)
    requires IsQueue(s.pool, s.readyHead, ready) && IsQueue(s.pool, s.terminatedHead, terminated)
    ensures NULL <= Found(View(s, ready, terminated), pid) < |s.pool|
  {
  }

  lemma {:induction false} PidIndexIs(pids: seq<int>, xs: seq<int>, pid: int, k: nat)
    requires k <= |xs| && (k < |xs| ==> 0 <= xs[k] < |pids| && pids[xs[k]] == pid)
    requires forall j | 0 <= j < k :: 0 <= xs[j] < |pids| && pids[xs[j]] != pid
    ensures PidIndex(pids, xs, pid) == k
  {
    if k > 0 {
      PidIndexIs(pids, xs[1..], pid, k - 1);
    }
  }
}
