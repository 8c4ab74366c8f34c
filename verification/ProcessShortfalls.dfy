/** Real runs of the process manager, from process_manager_init on, in which it does not meet its purpose. */
module ProcessShortfalls {
  import opened Sequences
  import opened ProcessQueues
  import opened Scheduler
  import opened ProcessTable
  import BlockList
  import HeapTheorems

  /** create, terminate, create: the new process is given the slot of the terminated one, which is
      still on the terminated queue, and no reading of the links is consistent any more. */
  method CreateAfterTerminate(stack1: int, stack2: int) returns (m: Manager)
    ensures fresh(m) && forall r, t :: !Inv(m.Snapshot(), r, t)
  {
    hide Inv, Created, TerminatedBy, Initial, Live, DeadPid, Found, Freed;
    AfterOneCreate(stack1);
    m := new Manager();
    InvCount(m.Snapshot(), m.ready, m.terminated);
    var code, pid := m.ProcessCreate(true, true, stack1);
    var ended, _ := m.ProcessTerminate(1);
    InvCount(m.Snapshot(), m.ready, m.terminated);
    code, pid := m.ProcessCreate(true, true, stack2);
  }

  /** create, terminate, terminate: both calls succeed and give the same stack to kfree, and no
      reading of links, flags and count is consistent any more. */
  method TerminateTwice(stack: int) returns (m: Manager, freed1: seq<int>, freed2: seq<int>)
    requires stack != 0
    ensures fresh(m) && (forall r, t :: !Inv(m.Snapshot(), r, t)) && freed1 == freed2 == [stack]
  {
    hide Inv, Created, TerminatedBy, Initial, Live, DeadPid, Found, Freed;
    AfterOneCreate(stack);
    m := new Manager();
    InvCount(m.Snapshot(), m.ready, m.terminated);
    var code, pid := m.ProcessCreate(true, true, stack);
    var ended: Code;
    ended, freed1 := m.ProcessTerminate(1);
    ended, freed2 := m.ProcessTerminate(1);
  }

  lemma InvCount(s: Raw, ready: seq<int>, terminated: seq<int>)
    requires Inv(s, ready, terminated)
    ensures s.count == |Live(View(s, ready, terminated))|
  {
    hide SchedOk, IsQueue, StatesOk;
  }

  /** After one create the process with pid 1 is ready in slot 1, and terminating it leaves it dead. */
  lemma AfterOneCreate(stack: int)
    ensures var a := Created(Initial(), stack);
            && |Live(Initial())| == 1 && Initial().terminated == [] && Shaped(a) && SchedOk(a)
            && Found(a, 1) == 1 && !DeadPid(a, 1) && Freed(a, 1) == (if stack != 0 then [stack] else [])
            && var b := TerminatedBy(a, 1);
               b.terminated == [1] && |Live(b)| == 1 && DeadPid(b, 1) && Found(b, 1) == 1 && Freed(b, 1) == Freed(a, 1)
  {
    InitialOk();
    CreatedOk(Initial(), stack);
    var a := Created(Initial(), stack);
    assert Live(Initial()) == [0];
    assert a.ready == [1] && a.pids[1] == 1 && a.pids[0] == 0;
    assert PidIndex(a.pids, a.ready, 1) == 0;
    FoundAgain(a, 1);
    assert Without(a.ready, 0) == [];
  }

  /** The heap's side of it: a process whose stack kmalloc granted is terminated, the next owner is
      granted the same block, and terminating the process again takes it from that owner. */
  lemma StackOfAnotherFreed(a: Sched, pid: int, bs: seq<BlockList.Block>, n: int)
    requires SchedOk(a) && Shaped(a) && !DeadPid(a, pid) && Found(a, pid) != NULL
    requires BlockList.HeapOk(bs) && 0 <= n < 0x1_0000_0000 && BlockList.Malloc(bs, n).ptr != 0
    requires Freed(a, pid) == [BlockList.Malloc(bs, n).ptr]
    ensures var b := TerminatedBy(a, pid);
            var heap1 := BlockList.Free(BlockList.Malloc(bs, n).blocks, Freed(a, pid)[0]);
            var heap2 := BlockList.Malloc(heap1, n).blocks;
            && BlockList.Malloc(heap1, n).ptr != 0 && Freed(b, pid) == Freed(a, pid)
            && var block := BlockList.Granted(heap1, n);
               block in BlockList.Live(heap2) && block !in BlockList.Live(BlockList.Free(heap2, Freed(b, pid)[0]))
  {
    hide SchedOk, BlockList.HeapOk, BlockList.Malloc, BlockList.Free, BlockList.Granted;
    FoundAgain(a, pid);
    HeapTheorems.SecondFreeTakesAnothersBlock(bs, n);
  }
}
