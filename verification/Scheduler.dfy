/** Which processes there are and which one runs, over whole runs of process_create,
    process_terminate, timer ticks and process_yield. */
module Scheduler {
  import opened Sequences
  import opened ProcessQueues

  /** Slots: the running one or NULL, the ready queue and the terminated queue from their heads,
      and the pid and stack of every slot. */
  datatype Sched = Sched(running: int, ready: seq<int>, terminated: seq<int>, pids: seq<int>, stacks: seq<int>,
                         nextPid: int)

  /** Every slot has a pid and a stack, and the running process is in the pool. */
  ghost predicate Shaped(a: Sched)
  {
    |a.pids| == |a.stacks| == MAX_PROCESSES && NULL <= a.running < MAX_PROCESSES
  }

  /** The slots of live processes. */
  ghost function Live(a: Sched): seq<int>
  {
    (if a.running == NULL then [] else [a.running]) + a.ready
  }

  ghost function All(a: Sched): seq<int>
  {
    Live(a) + a.terminated
  }

  /** Running, ready and terminated slots are all different and fill the pool from slot 0 on;
      their pids are different too and below next_pid. */
  ghost predicate SchedOk(a: Sched)
  {
    && |a.pids| == |a.stacks| == MAX_PROCESSES
    && NULL <= a.running
    && NoDup(All(a))
    && |All(a)| == a.nextPid <= MAX_PROCESSES
    && (forall x | x in All(a) :: 0 <= x < |All(a)| && 0 <= a.pids[x] < a.nextPid)
    && (forall x, y | x in All(a) && y in All(a) && x != y :: a.pids[x] != a.pids[y])
  }

  // ---------------------------------------------------------------- counting slots

  /** Distinct slots below their number are all slots below it. */
  lemma {:induction false} NoDupCovers(xs: seq<int>, i: int)
    requires NoDup(xs) && (forall x | x in xs :: 0 <= x < |xs|) && 0 <= i < |xs|
    ensures i in xs
  {
    if i !in xs {
      var ys := seq(|xs|, k requires 0 <= k < |xs| => if xs[k] > i then xs[k] - 1 else xs[k]);
      forall j, k | 0 <= j < k < |ys|
        ensures ys[j] != ys[k]
      {
        assert xs[j] in xs && xs[k] in xs;
      }
      forall y | y in ys
        ensures 0 <= y < |xs| - 1
      {
        var k :| 0 <= k < |ys| && ys[k] == y;
        assert xs[k] in xs;
      }
      NoDupLength(ys, |xs| - 1);
    }
  }

  lemma SameMembersSameLength(xs: seq<int>, ys: seq<int>)
    requires NoDup(xs) && NoDup(ys) && forall x :: x in xs <==> x in ys
    ensures |xs| == |ys|
  {
    SetSize(xs);
    SetSize(ys);
    assert (set x | x in xs) == (set y | y in ys);
  }

  lemma {:induction false} SetSize(xs: seq<int>)
    requires NoDup(xs)
    ensures |set x | x in xs| == |xs|
  {
    if xs != [] {
      SetSize(xs[1..]);
      assert xs == [xs[0]] + xs[1..];
      assert (set x | x in xs) == {xs[0]} + set x | x in xs[1..];
    }
  }

  // ---------------------------------------------------------------- operations

  /** process_create, with no process terminated so far: the new process goes in front of the
      ready queue; the pool is full exactly when there are 64 live processes. */
  ghost function Created(a: Sched, stack: int): Sched
    requires |a.pids| == |a.stacks| == MAX_PROCESSES
  {
    var n := |Live(a)|;
    if n >= MAX_PROCESSES then a
    else a.(ready := [n] + a.ready, pids := a.pids[n := a.nextPid], stacks := a.stacks[n := stack],
            nextPid := a.nextPid + 1)
  }

  /** The index in the queue of the process with the pid, or its length. */
  ghost function PidIndex(pids: seq<int>, xs: seq<int>, pid: int): (k: nat)
    ensures k <= |xs|
    ensures k < |xs| ==> 0 <= xs[k] < |pids| && pids[xs[k]] == pid
    ensures forall j | 0 <= j < k && 0 <= xs[j] < |pids| :: pids[xs[j]] != pid
  {
    if xs == [] || (0 <= xs[0] < |pids| && pids[xs[0]] == pid) then 0 else 1 + PidIndex(pids, xs[1..], pid)
  }

  /** The slot process_get_by_pid finds: running, then ready, then terminated. */
  ghost function Found(a: Sched, pid: int): int
  {
    if 0 <= a.running < |a.pids| && a.pids[a.running] == pid then a.running
    else if PidIndex(a.pids, a.ready, pid) < |a.ready| then a.ready[PidIndex(a.pids, a.ready, pid)]
    else Nth(a.terminated, PidIndex(a.pids, a.terminated, pid))
  }

  /** A slot is found exactly if the process there has the pid and is running, ready or terminated. */
  lemma FoundIff(a: Sched, pid: int)
    requires SchedOk(a)
    ensures forall p | p != NULL :: Found(a, pid) == p <==> p in All(a) && 0 <= p < |a.pids| && a.pids[p] == pid
    ensures Found(a, pid) == NULL <==> forall p | p in All(a) && 0 <= p < |a.pids| :: a.pids[p] != pid
  {
    var k, t := PidIndex(a.pids, a.ready, pid), PidIndex(a.pids, a.terminated, pid);
    assert forall j | 0 <= j < |a.ready| :: a.ready[j] in Live(a) && a.ready[j] in All(a);
    assert forall j | 0 <= j < |a.terminated| :: a.terminated[j] in All(a);
    assert a.running != NULL ==> a.running in All(a);
  }

  /** The stacks process_terminate gives to kfree. */
  ghost function Freed(a: Sched, pid: int): seq<int>
  {
    StackIn(a.stacks, Found(a, pid))
  }

  /** The stack of slot p, if p is a slot and has one. */
  ghost function StackIn(stacks: seq<int>, p: int): seq<int>
  {
    if 0 <= p < |stacks| && stacks[p] != 0 then [stacks[p]] else []
  }

  /** process_terminate of a pid that is not among the terminated ones.  The running process is
      not replaced: the test that should schedule another comes after running_process was set
      to NULL. */
  ghost function TerminatedBy(a: Sched, pid: int): Sched
    requires |a.pids| == MAX_PROCESSES && NULL <= a.running < MAX_PROCESSES
  {
    if a.running != NULL && a.pids[a.running] == pid then
      a.(running := NULL, terminated := [a.running] + a.terminated)
    else
      var k := PidIndex(a.pids, a.ready, pid);
      if k < |a.ready| then a.(ready := Without(a.ready, k), terminated := [a.ready[k]] + a.terminated)
      else a
  }

  /** A timer tick, or a yield: when the slice of the running process is used up it goes in front
      of the ready queue, and the front of the ready queue runs next. */
  ghost function Switched(a: Sched, expired: bool): Sched
  {
    if a.running == NULL || !expired then a
    else
      var queue := [a.running] + a.ready;
      a.(running := queue[0], ready := queue[1..])
  }

  datatype Op = Create(stack: int) | Terminate(pid: int) | Tick(expired: bool) | Yield

  ghost predicate DeadPid(a: Sched, pid: int)
    requires |a.pids| == MAX_PROCESSES
  {
    exists x :: x in a.terminated && 0 <= x < MAX_PROCESSES && a.pids[x] == pid
  }

  /** No create after a terminate, and no pid terminated twice. */
  ghost predicate Allowed(a: Sched, op: Op)
    requires |a.pids| == MAX_PROCESSES
  {
    match op
    case Create(_) => a.terminated == [] || |Live(a)| >= MAX_PROCESSES
    case Terminate(pid) => !DeadPid(a, pid)
    case _ => true
  }

  ghost function Step(a: Sched, op: Op): (b: Sched)
    requires Shaped(a)
    ensures Shaped(b)
  {
    match op
    case Create(stack) => Created(a, stack)
    case Terminate(pid) => TerminatedBy(a, pid)
    case Tick(expired) => Switched(a, expired)
    case Yield => Switched(a, true)
  }

  /** process_manager_init: the idle process, pid 0, runs in slot 0. */
  ghost function Initial(): Sched
  {
    Sched(0, [], [], seq(MAX_PROCESSES, _ => 0), seq(MAX_PROCESSES, _ => 0), 1)
  }

  // ---------------------------------------------------------------- one step

  /** Ticks and yields never switch: the process pushed on the ready queue is the one popped. */
  lemma NeverSwitches(a: Sched, expired: bool)
    ensures Switched(a, expired) == a
  {
  }

  lemma CreatedOk(a: Sched, stack: int)
    requires SchedOk(a) && a.terminated == []
    ensures SchedOk(Created(a, stack))
  {
    if |Live(a)| < MAX_PROCESSES {
      var n, b := |Live(a)|, Created(a, stack);
      assert All(a) == Live(a);
      forall x | x in All(b)
        ensures x == n || x in All(a)
      {
      }
      assert |All(b)| == n + 1;
      assert NoDup(All(b)) by {
        AddedNoDup(a.running, a.ready, n);
      }
    }
  }

  lemma AddedNoDup(running: int, ready: seq<int>, n: int)
    requires var live := (if running == NULL then [] else [running]) + ready; NoDup(live) && n !in live
    ensures NoDup((if running == NULL then [] else [running]) + ([n] + ready) + [])
  {
    var live := (if running == NULL then [] else [running]) + ready;
    var more := (if running == NULL then [] else [running]) + ([n] + ready) + [];
    var r := if running == NULL then 0 else 1;
    forall i, j | 0 <= i < j < |more|
      ensures more[i] != more[j]
    {
      assert more[i] == if i < r then live[i] else if i == r then n else live[i - 1];
      assert more[j] == if j == r then n else live[j - 1];
    }
  }

  /** Moving a slot within the whole list keeps it well-formed. */
  lemma MovedOk(a: Sched, b: Sched)
    requires SchedOk(a) && b.pids == a.pids && |b.stacks| == |a.stacks| && b.nextPid == a.nextPid && NULL <= b.running
    requires multiset(All(b)) == multiset(All(a))
    ensures SchedOk(b)
  {
    MultisetNoDup(All(a), All(b));
    assert |All(a)| == |multiset(All(a))| == |multiset(All(b))| == |All(b)|;
    assert forall x | x in All(b) :: x in multiset(All(b)) && x in multiset(All(a));
    assert forall x | x in multiset(All(a)) :: x in All(a);
  }

  lemma {:induction false} MultisetNoDup(xs: seq<int>, ys: seq<int>)
    requires NoDup(xs) && multiset(xs) == multiset(ys)
    ensures NoDup(ys)
  {
    forall i, j | 0 <= i < j < |ys|
      ensures ys[i] != ys[j]
    {
      if ys[i] == ys[j] {
        var v := ys[i];
        assert ys == ys[..i] + [v] + ys[i + 1..j] + [v] + ys[j + 1..];
        assert multiset(ys)[v] >= 2;
        CountAtMostOne(xs, v);
      }
    }
  }

  lemma {:induction false} CountAtMostOne(xs: seq<int>, v: int)
    requires NoDup(xs)
    ensures multiset(xs)[v] <= 1
  {
    if xs != [] {
      CountAtMostOne(xs[1..], v);
      assert xs == [xs[0]] + xs[1..];
      if xs[0] == v {
        assert v !in xs[1..];
      }
    }
  }

  lemma TerminatedOk(a: Sched, pid: int)
    requires SchedOk(a)
    ensures a.running < MAX_PROCESSES && SchedOk(TerminatedBy(a, pid))
  {
    RunningInPool(a);
    PidsLength(a);
    hide SchedOk;
    var b := TerminatedBy(a, pid);
    if a.running != NULL && a.pids[a.running] == pid {
      assert All(b) == a.ready + ([a.running] + a.terminated);
      MovedOk(a, b);
    } else {
      var k := PidIndex(a.pids, a.ready, pid);
      if k < |a.ready| {
        MovedFromReady(a, k);
        MovedOk(a, b);
      }
    }
  }

  lemma MovedFromReady(a: Sched, k: nat)
    requires k < |a.ready|
    ensures var b := a.(ready := Without(a.ready, k), terminated := [a.ready[k]] + a.terminated);
            multiset(All(b)) == multiset(All(a))
  {
    assert a.ready == a.ready[..k] + [a.ready[k]] + a.ready[k + 1..];
  }

  lemma PidsLength(a: Sched)
    requires SchedOk(a)
    ensures |a.pids| == |a.stacks| == MAX_PROCESSES && NULL <= a.running
  {
  }

  lemma RunningInPool(a: Sched)
    requires SchedOk(a)
    ensures NULL <= a.running < MAX_PROCESSES
  {
    assert a.running != NULL ==> All(a)[0] == a.running && a.running in All(a);
  }

  lemma StepOk(a: Sched, op: Op)
    requires SchedOk(a) && Shaped(a) && Allowed(a, op)
    ensures SchedOk(Step(a, op))
  {
    match op
    case Create(stack) =>
      if |Live(a)| < MAX_PROCESSES {
        CreatedOk(a, stack);
      }
    case Terminate(pid) => TerminatedOk(a, pid);
    case Tick(expired) => NeverSwitches(a, expired);
    case Yield => NeverSwitches(a, true);
  }

  // ---------------------------------------------------------------- terminating again

  /** A process that has been terminated is found again in the same slot, and would give back the
      same stack again. */
  lemma FoundAgain(a: Sched, pid: int)
    requires SchedOk(a) && Shaped(a) && !DeadPid(a, pid) && Found(a, pid) != NULL
    ensures var b := TerminatedBy(a, pid);
            && SchedOk(b) && Shaped(b) && DeadPid(b, pid)
            && Found(b, pid) == Found(a, pid) && Freed(b, pid) == Freed(a, pid)
  {
    hide SchedOk;
    TerminatedOk(a, pid);
    FoundWhereLive(a, pid);
    var b, p := TerminatedBy(a, pid), Found(a, pid);
    assert b.terminated == [p] + a.terminated && 0 <= p < MAX_PROCESSES && a.pids[p] == pid;
    NotFoundLive(b, p, pid);
  }

  /** A live process found is running, or the ready one with the pid, and it is moved. */
  lemma FoundWhereLive(a: Sched, pid: int)
    requires SchedOk(a) && Shaped(a) && !DeadPid(a, pid) && Found(a, pid) != NULL
    ensures var p := Found(a, pid);
            p in Live(a) && 0 <= p < MAX_PROCESSES && a.pids[p] == pid &&
            TerminatedBy(a, pid).terminated == [p] + a.terminated
  {
    assert forall x | x in All(a) :: 0 <= x < MAX_PROCESSES;
    assert Found(a, pid) in Live(a);
  }

  /** The first of the terminated processes is found under its pid. */
  lemma NotFoundLive(b: Sched, p: int, pid: int)
    requires SchedOk(b) && Shaped(b) && b.terminated != [] && b.terminated[0] == p
    requires 0 <= p < MAX_PROCESSES && b.pids[p] == pid
    ensures Found(b, pid) == p
  {
    NoDupConcat(Live(b), b.terminated);
    assert p in b.terminated && p in All(b);
    assert forall x | x in Live(b) :: x in All(b) && x != p;
    assert b.running != NULL ==> b.running in Live(b);
    assert forall j | 0 <= j < |b.ready| :: b.ready[j] in Live(b);
  }

  // ---------------------------------------------------------------- runs

  /** The state after a run from process_manager_init, the last operation last. */
  ghost function Run(ops: seq<Op>): (a: Sched)
    ensures Shaped(a)
  {
    if ops == [] then Initial() else Step(Run(ops[..|ops| - 1]), ops[|ops| - 1])
  }

  /** No create after a terminate, and no pid terminated twice, anywhere in the run. */
  ghost predicate AllowedRun(ops: seq<Op>)
  {
    forall i | 0 <= i < |ops| :: Allowed(Run(ops[..i]), ops[i])
  }

  lemma AllowedBefore(ops: seq<Op>)
    requires AllowedRun(ops) && ops != []
    ensures AllowedRun(ops[..|ops| - 1]) && Allowed(Run(ops[..|ops| - 1]), ops[|ops| - 1])
  {
    hide Allowed, Run;
    var before := ops[..|ops| - 1];
    forall i | 0 <= i < |before|
      ensures Allowed(Run(before[..i]), before[i])
    {
      assert before[..i] == ops[..i];
    }
  }

  lemma {:induction false} RunOk(ops: seq<Op>)
    requires AllowedRun(ops)
    ensures SchedOk(Run(ops))
  {
    hide Step, Allowed, AllowedRun, SchedOk;
    if ops == [] {
      InitialOk();
    } else {
      AllowedBefore(ops);
      RunOk(ops[..|ops| - 1]);
      StepOk(Run(ops[..|ops| - 1]), ops[|ops| - 1]);
    }
  }

  lemma InitialOk()
    ensures SchedOk(Initial())
  {
    assert All(Initial()) == [0];
  }

  /** No process but the idle one ever runs, and once it is terminated nothing does. */
  lemma {:induction false} OnlyIdleEverRuns(ops: seq<Op>)
    ensures Run(ops).running == 0 || Run(ops).running == NULL
    ensures ops != [] && Run(ops[..|ops| - 1]).running == NULL ==> Run(ops).running == NULL
  {
    if ops != [] {
      OnlyIdleEverRuns(ops[..|ops| - 1]);
    }
  }

  // ---------------------------------------------------------------- stacks over runs

  /** The stacks of the slots xs. */
  ghost function StacksOf(stacks: seq<int>, xs: seq<int>): multiset<int>
  {
    if xs == [] then multiset{} else multiset(StackIn(stacks, xs[0])) + StacksOf(stacks, xs[1..])
  }

  lemma {:induction false} StacksOfConcat(stacks: seq<int>, xs: seq<int>, ys: seq<int>)
    ensures StacksOf(stacks, xs + ys) == StacksOf(stacks, xs) + StacksOf(stacks, ys)
  {
    if xs == [] {
      assert xs + ys == ys;
    } else {
      assert (xs + ys)[1..] == xs[1..] + ys;
      StacksOfConcat(stacks, xs[1..], ys);
    }
  }

  lemma StacksOfOne(stacks: seq<int>, x: int)
    ensures StacksOf(stacks, [x]) == multiset(StackIn(stacks, x))
  {
    assert [x][1..] == [];
  }

  lemma {:induction false} StacksOfFrame(stacks: seq<int>, n: int, stack: int, xs: seq<int>)
    requires 0 <= n < |stacks| && n !in xs
    ensures StacksOf(stacks[n := stack], xs) == StacksOf(stacks, xs)
  {
    if xs != [] {
      assert xs[0] in xs;
      StacksOfFrame(stacks, n, stack, xs[1..]);
    }
  }

  /** What an operation takes from kmalloc, and what it gives to kfree. */
  ghost function Taken(a: Sched, op: Op): multiset<int>
  {
    if op.Create? && |Live(a)| < MAX_PROCESSES && op.stack != 0 then multiset{op.stack} else multiset{}
  }

  ghost function Given(a: Sched, op: Op): multiset<int>
  {
    if op.Terminate? then multiset(Freed(a, op.pid)) else multiset{}
  }

  lemma StepStacks(a: Sched, op: Op)
    requires SchedOk(a) && Shaped(a) && Allowed(a, op)
    ensures var b := Step(a, op);
            StacksOf(a.stacks, Live(a)) + Taken(a, op) == StacksOf(b.stacks, Live(b)) + Given(a, op)
  {
    match op
    case Create(stack) => CreateStacks(a, stack);
    case Terminate(pid) => TerminateStacks(a, pid);
    case Tick(expired) => NeverSwitches(a, expired);
    case Yield => NeverSwitches(a, true);
  }

  lemma CreateStacks(a: Sched, stack: int)
    requires SchedOk(a) && (a.terminated == [] || |Live(a)| >= MAX_PROCESSES)
    ensures var b := Created(a, stack);
            StacksOf(a.stacks, Live(a)) + Taken(a, Create(stack)) == StacksOf(b.stacks, Live(b))
  {
    hide StacksOf;
    var n := |Live(a)|;
    if n < MAX_PROCESSES {
      var b, r := Created(a, stack), if a.running == NULL then [] else [a.running];
      assert All(a) == Live(a);
      assert n !in Live(a);
      assert forall x | x in r || x in a.ready :: x in Live(a);
      StacksOfConcat(a.stacks, r, a.ready);
      StacksOfConcat(b.stacks, r, [n] + a.ready);
      StacksOfConcat(b.stacks, [n], a.ready);
      StacksOfOne(b.stacks, n);
      StacksOfFrame(a.stacks, n, stack, r);
      StacksOfFrame(a.stacks, n, stack, a.ready);
    }
  }

  lemma TerminateStacks(a: Sched, pid: int)
    requires SchedOk(a) && Shaped(a) && !DeadPid(a, pid)
    ensures var b := TerminatedBy(a, pid);
            StacksOf(a.stacks, Live(a)) == StacksOf(b.stacks, Live(b)) + multiset(Freed(a, pid))
  {
    hide StacksOf, SchedOk, DeadPid;
    var k, r := PidIndex(a.pids, a.ready, pid), if a.running == NULL then [] else [a.running];
    if Found(a, pid) != NULL {
      FoundWhereLive(a, pid);
    }
    StacksOfConcat(a.stacks, r, a.ready);
    if a.running != NULL && a.pids[a.running] == pid {
      StacksOfOne(a.stacks, a.running);
      assert Live(TerminatedBy(a, pid)) == a.ready;
    } else if k < |a.ready| {
      StacksWithout(a.stacks, a.ready, k);
      StacksOfConcat(a.stacks, r, Without(a.ready, k));
    } else {
      assert Freed(a, pid) == [];
    }
  }

  lemma StacksWithout(stacks: seq<int>, xs: seq<int>, k: nat)
    requires k < |xs|
    ensures StacksOf(stacks, xs) == StacksOf(stacks, Without(xs, k)) + multiset(StackIn(stacks, xs[k]))
  {
    hide StacksOf;
    assert xs == xs[..k] + ([xs[k]] + xs[k + 1..]);
    StacksOfConcat(stacks, xs[..k], [xs[k]] + xs[k + 1..]);
    StacksOfConcat(stacks, [xs[k]], xs[k + 1..]);
    StacksOfConcat(stacks, xs[..k], xs[k + 1..]);
    StacksOfOne(stacks, xs[k]);
  }

  ghost function TakenBy(ops: seq<Op>): multiset<int>
  {
    if ops == [] then multiset{} else
      TakenBy(ops[..|ops| - 1]) + Taken(Run(ops[..|ops| - 1]), ops[|ops| - 1])
  }

  ghost function GivenBy(ops: seq<Op>): multiset<int>
  {
    if ops == [] then multiset{} else
      GivenBy(ops[..|ops| - 1]) + Given(Run(ops[..|ops| - 1]), ops[|ops| - 1])
  }

  /** Over every allowed run, the stacks taken from kmalloc are those given back, each once, and
      those of the live processes. */
  lemma {:induction false} StacksAddUp(ops: seq<Op>)
    requires AllowedRun(ops)
    ensures TakenBy(ops) == GivenBy(ops) + StacksOf(Run(ops).stacks, Live(Run(ops)))
  {
    hide Step, Allowed, AllowedRun, SchedOk, Taken, Given, Live;
    if ops == [] {
      InitialStacks();
    } else {
      var before := ops[..|ops| - 1];
      AllowedBefore(ops);
      RunOk(before);
      StacksAddUp(before);
      var a, b, op := Run(before), Run(ops), ops[|ops| - 1];
      StepStacks(a, op);
      Balance(TakenBy(before), GivenBy(before), StacksOf(a.stacks, Live(a)), Taken(a, op), Given(a, op),
              StacksOf(b.stacks, Live(b)));
    }
  }

  lemma Balance(taken: multiset<int>, given: multiset<int>, held: multiset<int>,
                more: multiset<int>, less: multiset<int>, held': multiset<int>)
    requires taken == given + held && held + more == held' + less
    ensures taken + more == (given + less) + held'
  {
    assert taken + more == given + (held + more) == given + (held' + less);
  }

  lemma InitialStacks()
    ensures StacksOf(Initial().stacks, Live(Initial())) == multiset{}
  {
    assert Live(Initial()) == [0];
    StacksOfOne(Initial().stacks, 0);
  }
}
