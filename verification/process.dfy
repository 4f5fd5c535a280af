/** The process table as the kernel changes it (src/kernel/process/process.c,
    src/kernel/isr.c): creation, exit, the scheduler and the interrupt
    handler's dispatch. */
module ProcessTable {
  import opened Scheduler
  import opened Context
  import Pmm

  const STACK_SIZE: nat := 4096
  const USER_CODE: nat := 0x23
  const USER_DATA: nat := 0x1B
  const KERNEL_CODE: nat := 0x08
  const KERNEL_DATA: nat := 0x10

  lemma {:induction false} PushOneMore(m: Words, sp: nat, vs: seq<nat>, v: nat)
    requires 8 * (|vs| + 1) <= sp
    ensures PushAll(m, sp, vs + [v]) == PushAll(m, sp, vs)[sp - 8 * (|vs| + 1) := v]
    decreases |vs|
  {
    if vs == [] {
      assert [] + [v] == [v] && [v][1..] == [];
    } else {
      assert (vs + [v])[1..] == vs[1..] + [v];
      PushOneMore(m[sp - 8 := vs[0]], sp - 8, vs[1..], v);
    }
  }

  /** The table entry of a process with a frame at the top of its stack. */
  function Entry(pid: nat, stackBase: nat, kernelStack: nat, pml4: nat): Process
    requires kernelStack + STACK_SIZE >= FRAME_BYTES
  {
    Process(kernelStack + STACK_SIZE - FRAME_BYTES, pid, Ready, stackBase, kernelStack, kernelStack + STACK_SIZE, pml4)
  }

  // ---------------------------------------------------------------------
  // Stacks from the frame allocator
  // ---------------------------------------------------------------------

  /** Every frame that the stack touches is handed out. */
  ghost predicate StackOwned(s: Stack, used: seq<bool>)
  {
    forall f: nat {:trigger Touches(s, f)} :: Touches(s, f) ==> f < |used| && used[f]
  }

  predicate Touches(s: Stack, f: nat) { s.lo < (f + 1) * STACK_SIZE && f * STACK_SIZE < s.hi }

  ghost predicate StacksOwned(b: Book, count: nat, used: seq<bool>)
    requires count <= |b.stacks|
  {
    forall i :: 0 <= i < count ==> StackOwned(b.stacks[i], used)
  }

  function StackAt(base: nat): Stack { Stack(base, base + STACK_SIZE) }

  /** A stack fresh from the allocator overlaps no stack that is owned. */
  lemma FreshStackIsApart(s: Stack, used: seq<bool>)
    requires StackOwned(s, used) && Pmm.Alloc(used).1 != 0
    ensures Disjoint(s, StackAt(Pmm.Alloc(used).1)) && StackOwned(s, Pmm.Alloc(used).0)
    ensures StackOwned(StackAt(Pmm.Alloc(used).1), Pmm.Alloc(used).0)
  {
    var f := Pmm.FirstFree(used);
    assert !Touches(s, f);
    forall g: nat | Touches(StackAt(Pmm.Alloc(used).1), g) ensures g == f {
    }
  }

  lemma TakingKeepsOwned(s: Stack, used: seq<bool>)
    requires StackOwned(s, used)
    ensures StackOwned(s, Pmm.Alloc(used).0)
  {
  }

  /** A creation on a fresh stack is a spawning as executions know it: that the
      new stack overlaps no other follows from the allocator. */
  lemma FreshStackSpawns(m: Machine, m1: Machine, b: Book, used: seq<bool>, p: Process, r: Regs)
    requires Coherent(m, b) && StacksOwned(b, m.sched.count, used) && Pmm.Alloc(used).1 != 0
    requires RunStep(m.sched, m1.sched, Create(p)) && p.rsp == Pmm.Alloc(used).1 + STACK_SIZE - FRAME_BYTES
    requires Equipped(p, StackAt(Pmm.Alloc(used).1))
    requires m1.cpu == m.cpu && m1.tss == m.tss && m1.cr3 == m.cr3 && r == Fresh(r.rip, r.cs, r.ss, r.rsp)
    requires m1.mem == PushAll(m.mem, Pmm.Alloc(used).1 + STACK_SIZE, FirstWords(r.rip, r.cs, r.ss, r.rsp))
    ensures var s := StackAt(Pmm.Alloc(used).1);
            && Spawns(m, m1, b, p, s, r) && Coherent(m1, Enrolled(m, b, s, r))
            && StacksOwned(Enrolled(m, b, s, r), m1.sched.count, Pmm.Alloc(used).0)
  {
    var s := StackAt(Pmm.Alloc(used).1);
    forall i | 0 <= i < m.sched.count
      ensures Disjoint(b.stacks[i], s) && StackOwned(b.stacks[i], Pmm.Alloc(used).0)
    {
      FreshStackIsApart(b.stacks[i], used);
    }
    NewStackIsOwned(used);
    SpawnIsCoherent(m, m1, b, p, s, r);
  }

  lemma NewStackIsOwned(used: seq<bool>)
    requires Pmm.Alloc(used).1 != 0
    ensures StackOwned(StackAt(Pmm.Alloc(used).1), Pmm.Alloc(used).0)
  {
    var f := Pmm.FirstFree(used);
    forall g: nat | Touches(StackAt(Pmm.Alloc(used).1), g) ensures g == f {
    }
  }

  /** There is a slot, and a frame for each of the two stacks. */
  predicate CanSpawn(count: nat, used: seq<bool>)
  {
    count < MAX_PROCESSES && Pmm.Alloc(used).1 != 0 && Pmm.Alloc(Pmm.Alloc(used).0).1 != 0
  }

  lemma CanSpawnExactly(count: nat, used: seq<bool>)
    requires |used| > 0 ==> used[0]
    ensures CanSpawn(count, used) <==> count < MAX_PROCESSES && 2 <= Pmm.FreeCount(used)
  {
    Pmm.AllocCounts(used);
    Pmm.AllocCounts(Pmm.Alloc(used).0);
  }

  /** What create_user_process can come to, and that each outcome is coherent. */
  lemma SpawnOutcome(m: Machine, m1: Machine, b: Book, used: seq<bool>, used1: seq<bool>, entry: nat, pml4: nat)
    returns (b1: Book)
    requires Coherent(m, b) && StacksOwned(b, m.sched.count, used)
    requires m1.cpu == m.cpu && m1.tss == m.tss && m1.cr3 == m.cr3
    requires UserOutcome(m, m1, used, used1, entry, pml4)
    ensures Coherent(m1, b1) && StacksOwned(b1, m1.sched.count, used1)
    ensures m1.sched.count == m.sched.count + if CanSpawn(m.sched.count, used) then 1 else 0
    ensures CanSpawn(m.sched.count, used) ==>
              StartsAt(m1, b1, m.sched.count, entry, pml4) && UserStackIsOwn(m1, b1, m.sched.count, used1)
  {
    b1 := b;
    var u := Pmm.Alloc(used);
    var k := Pmm.Alloc(u.0);
    if m.sched.count < MAX_PROCESSES {
      forall i | 0 <= i < m.sched.count
        ensures StackOwned(b.stacks[i], u.0) && StackOwned(b.stacks[i], k.0)
      {
        TakingKeepsOwned(b.stacks[i], used);
        TakingKeepsOwned(b.stacks[i], u.0);
      }
      if u.1 == 0 || k.1 == 0 {
        FailingIsCoherent(m, m1, b, m1.sched.procs[m.sched.count]);
      } else {
        b1 := UserStarts(m, m1, b, u, k, entry, pml4);
        NewUserStack(m1, b, b1, m.sched.count, used, u, k);
      }
    }
  }

  lemma UserStarts(m: Machine, m1: Machine, b: Book, u: (seq<bool>, nat), k: (seq<bool>, nat), entry: nat, pml4: nat)
    returns (b1: Book)
    requires Coherent(m, b) && StacksOwned(b, m.sched.count, u.0)
    requires m1.cpu == m.cpu && m1.tss == m.tss && m1.cr3 == m.cr3
    requires k == Pmm.Alloc(u.0) && k.1 != 0 && m.sched.count < MAX_PROCESSES
    requires m1.sched == Do(m.sched, Create(Entry(m.sched.count, u.1, k.1, pml4)))
    requires m1.mem == PushAll(m.mem, k.1 + STACK_SIZE, FirstWords(entry, USER_CODE, USER_DATA, u.1 + STACK_SIZE))
    ensures Coherent(m1, b1) && StacksOwned(b1, m1.sched.count, k.0)
    ensures StartsAt(m1, b1, m.sched.count, entry, pml4) && m1.sched.procs[m.sched.count].stackBase == u.1
    ensures b1.stacks == b.stacks[m.sched.count := StackAt(k.1)]
  {
    var r := Fresh(entry, USER_CODE, USER_DATA, u.1 + STACK_SIZE);
    FreshStackSpawns(m, m1, b, u.0, Entry(m.sched.count, u.1, k.1, pml4), r);
    b1 := Enrolled(m, b, StackAt(k.1), r);
  }

  /** What a new process starts with: at its entry point on its own stack, in
      the ring of its code segment, interrupts on and the rest cleared. */
  lemma FreshRegisters(entry: nat, rsp: nat)
    ensures var r := Popped(Frame(Fresh(entry, USER_CODE, USER_DATA, rsp), 0, 0));
            && UserMode(r) && r.ss % 4 == 3 && r.rip == entry && r.rsp == rsp && r.rflags / 512 % 2 == 1
            && r.rflags / 4096 % 4 == 0 && r.rax == 0 && r.rbx == 0 && r.rbp == 0 && r.ds == 0
    ensures var r := Popped(Frame(Fresh(entry, KERNEL_CODE, KERNEL_DATA, rsp), 0, 0));
            !UserMode(r) && r.cs % 4 == 0 && r.rip == entry && r.rsp == rsp && r.rflags / 512 % 2 == 1
  {
    FrameRestores(Fresh(entry, USER_CODE, USER_DATA, rsp), 0, 0);
    FrameRestores(Fresh(entry, KERNEL_CODE, KERNEL_DATA, rsp), 0, 0);
  }

  /** A kernel process waits to start at entry, in kernel mode, on the stack
      that it will also be interrupted on. */
  ghost predicate KernelStartsAt(m: Machine, b: Book, i: nat, entry: nat)
  {
    && i < |m.sched.procs| && i < |b.saved| && i < |b.stacks|
    && b.saved[i] == Frame(Fresh(entry, KERNEL_CODE, KERNEL_DATA, b.stacks[i].hi), 0, 0)
  }

  lemma KernelStarts(m: Machine, m1: Machine, b: Book, used: seq<bool>, entry: nat, pml4: nat) returns (b1: Book)
    requires Coherent(m, b) && StacksOwned(b, m.sched.count, used)
    requires m1.cpu == m.cpu && m1.tss == m.tss && m1.cr3 == m.cr3
    requires var k := Pmm.Alloc(used);
             && k.1 != 0 && m.sched.count < MAX_PROCESSES
             && m1.sched == Do(m.sched, Create(Entry(m.sched.count, k.1, k.1, pml4)))
             && m1.mem == PushAll(m.mem, k.1 + STACK_SIZE,
                                  FirstWords(entry, KERNEL_CODE, KERNEL_DATA, k.1 + STACK_SIZE))
    ensures Coherent(m1, b1) && StacksOwned(b1, m1.sched.count, Pmm.Alloc(used).0)
    ensures KernelStartsAt(m1, b1, m.sched.count, entry)
  {
    var k := Pmm.Alloc(used);
    var r := Fresh(entry, KERNEL_CODE, KERNEL_DATA, k.1 + STACK_SIZE);
    FreshStackSpawns(m, m1, b, used, Entry(m.sched.count, k.1, k.1, pml4), r);
    b1 := Enrolled(m, b, StackAt(k.1), r);
  }

  /** The machine after init_multitasking is where executions begin. */
  lemma BootIsCoherent(m: Machine, b: Book)
    requires Safe(m.sched) && m.sched.count == 1 && m.cpu.ds < 0x1_0000
    requires |b.stacks| == |b.saved| == MAX_PROCESSES
    ensures Coherent(m, b)
  {
  }

  /** Process i waits to start at entry, in user mode, in the address space of
      pml4, with a stack of its own. */
  ghost predicate StartsAt(m: Machine, b: Book, i: nat, entry: nat, pml4: nat)
  {
    && i < |m.sched.procs| && i < |b.saved| && m.sched.procs[i].pml4 == pml4
    && m.sched.procs[i].pid == i && m.sched.procs[i].state == Ready
    && b.saved[i] == Frame(Fresh(entry, USER_CODE, USER_DATA, m.sched.procs[i].stackBase + STACK_SIZE), 0, 0)
  }

  /** The user stack of process i is handed out and overlaps no kernel stack. */
  ghost predicate UserStackIsOwn(m: Machine, b: Book, i: nat, used: seq<bool>)
    requires i < |m.sched.procs| && m.sched.count <= |b.stacks|
  {
    var s := StackAt(m.sched.procs[i].stackBase);
    StackOwned(s, used) && forall j :: 0 <= j < m.sched.count ==> Disjoint(b.stacks[j], s)
  }

  lemma NewUserStack(m: Machine, b: Book, b1: Book, n: nat, used: seq<bool>, u: (seq<bool>, nat), k: (seq<bool>, nat))
    requires n < |b.stacks| && n < |m.sched.procs| && m.sched.count == n + 1 && StacksOwned(b, n, used)
    requires u == Pmm.Alloc(used) && k == Pmm.Alloc(u.0) && u.1 != 0 && k.1 != 0
    requires b1.stacks == b.stacks[n := StackAt(k.1)] && m.sched.procs[n].stackBase == u.1
    ensures UserStackIsOwn(m, b1, n, k.0)
  {
    NewStackIsOwned(used);
    FreshStackIsApart(StackAt(u.1), u.0);
    forall j | 0 <= j < n ensures Disjoint(b1.stacks[j], StackAt(u.1)) {
      assert StackOwned(b.stacks[j], used);
      FreshStackIsApart(b.stacks[j], used);
    }
  }

  /** The machine and the allocator after create_user_process. */
  ghost predicate UserOutcome(m: Machine, m1: Machine, used: seq<bool>, used1: seq<bool>, entry: nat, pml4: nat)
    requires Safe(m.sched)
  {
    var u := Pmm.Alloc(used);
    var k := Pmm.Alloc(u.0);
    if m.sched.count == MAX_PROCESSES then m1.sched == m.sched && m1.mem == m.mem && used1 == used
    else if u.1 == 0 || k.1 == 0 then
      && m1.mem == m.mem && |m1.sched.procs| == MAX_PROCESSES && m1.sched.procs[m.sched.count].state == Ready
      && m1.sched == Do(m.sched, CreateFails(m1.sched.procs[m.sched.count]))
      && used1 == if u.1 == 0 then u.0 else k.0
    else
      && m1.sched == Do(m.sched, Create(Entry(m.sched.count, u.1, k.1, pml4))) && used1 == k.0
      && m1.mem == PushAll(m.mem, k.1 + STACK_SIZE, FirstWords(entry, USER_CODE, USER_DATA, u.1 + STACK_SIZE))
  }

  /** The timer, and the exit system call. */
  predicate Reschedules(intNo: nat, rax: nat) { intNo == 32 || (intNo == 128 && rax == 0) }

  /** Where the CPU begins to push: the stack of the TSS for an interrupt out of
      user mode, else its own, on a multiple of 16. */
  function EntryTop(cpu: Regs, tss: nat): nat { if UserMode(cpu) then tss else cpu.rsp / 16 * 16 }

  /** An interrupt that returns to where it came from touches the stack of the
      running process only. */
  lemma PushIsComputing(m: Machine, m1: Machine, b: Book, top: nat, intNo: nat, err: nat)
    requires Coherent(m, b) && EntersAt(m, b, top) && FRAME_BYTES <= top
    requires m1 == m.(mem := PushAll(m.mem, top, Pushed(m.cpu, intNo, err)))
    ensures Coherent(m1, b)
  {
    EntersOwnStack(m, b, top);
    var cur := m.sched.current;
    forall i | 0 <= i < m.sched.count && i != cur ensures Agree(m.mem, m1.mem, b.stacks[i].lo, b.stacks[i].hi) {
      assert Disjoint(b.stacks[if i < cur then i else cur], b.stacks[if i < cur then cur else i]);
      PushOnOwnStack(m.mem, top, Pushed(m.cpu, intNo, err), b.stacks[i]);
    }
    ComputingIsCoherent(m, m1, b);
  }

  /** The step of an interrupt that reschedules. */
  function StepOf(cpu: Regs, tss: nat, intNo: nat): Step
    requires FRAME_BYTES <= EntryTop(cpu, tss)
  {
    var frame := EntryTop(cpu, tss) - FRAME_BYTES;
    if intNo == 32 then Tick(frame) else Exit(frame)
  }

  /** From m to m1 one process was switched out and one in, as in an execution. */
  ghost predicate Rescheduled(m: Machine, m1: Machine, b: Book, intNo: nat, err: nat)
  {
    var top := EntryTop(m.cpu, m.tss);
    && |b.stacks| == MAX_PROCESSES && m.sched.current < m.sched.count <= MAX_PROCESSES && FRAME_BYTES <= top
    && Switches(m, m1, b, StepOf(m.cpu, m.tss, intNo), top, intNo, err)
  }

  lemma StepIsRun(s: Sched, s1: Sched, intNo: nat, frame: nat)
    requires Safe(s)
    requires if intNo == 32 then s1 == Scheduler.Schedule(s, frame)
             else s.current != 0 && s1 == Scheduler.Schedule(Kill(s), frame)
    ensures RunStep(s, s1, if intNo == 32 then Tick(frame) else Exit(frame))
  {
  }

  lemma SwitchFrom(m: Machine, m1: Machine, b: Book, step: Step, top: nat, intNo: nat, err: nat)
    requires |b.stacks| == MAX_PROCESSES && m.sched.current < m.sched.count <= MAX_PROCESSES
    requires EntersAt(m, b, top) && FRAME_BYTES <= top && RunStep(m.sched, m1.sched, step)
    requires step == Tick(top - FRAME_BYTES) || step == Exit(top - FRAME_BYTES)
    requires m1.mem == PushAll(m.mem, top, Pushed(m.cpu, intNo, err))
    requires m1.tss == LoadedTss(m.tss, m1.sched.procs[m1.sched.current])
    requires m1.cr3 == LoadedCr3(m.cr3, m1.sched.procs[m1.sched.current])
    requires m1.cpu == Popped(FrameAt(m1.mem, m1.sched.procs[m1.sched.current].rsp))
    ensures Switches(m, m1, b, step, top, intNo, err)
  {
  }

  lemma SwitchHappens(m: Machine, m1: Machine, b: Book, intNo: nat, err: nat, top: nat, frame: nat)
    requires Coherent(m, b) && EntersAt(m, b, top) && top == EntryTop(m.cpu, m.tss) && top == frame + FRAME_BYTES
    requires if intNo == 32 then m1.sched == Scheduler.Schedule(m.sched, frame)
             else m.sched.current != 0 && m1.sched == Scheduler.Schedule(Kill(m.sched), frame)
    requires m1.mem == PushAll(m.mem, top, Pushed(m.cpu, intNo, err))
    requires m1.tss == LoadedTss(m.tss, m1.sched.procs[m1.sched.current])
    requires m1.cr3 == LoadedCr3(m.cr3, m1.sched.procs[m1.sched.current])
    requires m1.cpu == Popped(FrameAt(m1.mem, m1.sched.procs[m1.sched.current].rsp))
    ensures Rescheduled(m, m1, b, intNo, err) && Coherent(m1, Noted(m, b, intNo, err))
  {
    var step := if intNo == 32 then Tick(frame) else Exit(frame);
    StepIsRun(m.sched, m1.sched, intNo, frame);
    SwitchFrom(m, m1, b, step, top, intNo, err);
    SwitchIsCoherent(m, m1, b, step, top, intNo, err);
  }

  /** What has happened when the handler returns: the context is on the stack,
      and table, TSS and CR3 are as the handler left them. */
  ghost predicate Handled(m: Machine, m1: Machine, intNo: nat, err: nat, frame: nat, nextRsp: nat)
  {
    && m.sched.current < m.sched.count <= MAX_PROCESSES == |m.sched.procs|
    && m1.sched.current < |m1.sched.procs| && m1.cpu == m.cpu
    && m1.mem == PushAll(m.mem, frame + FRAME_BYTES, Pushed(m.cpu, intNo, err))
    && if Reschedules(intNo, m.cpu.rax) then
         && m1.sched == Scheduler.Schedule(if intNo == 32 then m.sched else Kill(m.sched), frame)
         && nextRsp == m1.sched.procs[m1.sched.current].rsp
         && m1.tss == LoadedTss(m.tss, m1.sched.procs[m1.sched.current])
         && m1.cr3 == LoadedCr3(m.cr3, m1.sched.procs[m1.sched.current])
       else m1.sched == m.sched && m1.tss == m.tss && m1.cr3 == m.cr3 && nextRsp == frame
  }

  /** What an interrupt comes to, when the registers of m2 have been popped. */
  lemma Interrupted(m: Machine, m1: Machine, m2: Machine, b: Book, b1: Book, intNo: nat, err: nat, frame: nat, rsp: nat)
    requires Coherent(m, b) && Handled(m, m1, intNo, err, frame, rsp)
    requires frame + FRAME_BYTES == EntryTop(m.cpu, m.tss) && EntersAt(m, b, frame + FRAME_BYTES)
    requires intNo == 128 && m.cpu.rax == 0 ==> m.sched.current != 0
    requires m2 == m1.(cpu := Popped(FrameAt(m1.mem, rsp)))
    requires b1 == if Reschedules(intNo, m.cpu.rax) then Noted(m, b, intNo, err) else b
    ensures Coherent(m2, b1)
    ensures if Reschedules(intNo, m.cpu.rax) then Rescheduled(m, m2, b, intNo, err)
            else m2.cpu == m.cpu && m2.sched == m.sched
  {
    var top := frame + FRAME_BYTES;
    if Reschedules(intNo, m.cpu.rax) {
      SwitchHappens(m, m2, b, intNo, err, top, frame);
    } else {
      SaveThenResume(m.mem, top, m.cpu, intNo, err);
      PushIsComputing(m, m2, b, top, intNo, err);
    }
  }

  class Processes {
    const pmm: Pmm.FrameAllocator
    const procs: array<Process>
    var currentPid: nat
    var processCount: nat
    /** Physical memory, as 8-byte words, where the stacks are. */
    var words: Words
    var cr3: nat
    var tssRsp0: nat
    var kernelPml4: nat

    ghost predicate Valid()
      reads this
    {
      procs.Length == MAX_PROCESSES && currentPid < processCount <= MAX_PROCESSES
    }

    ghost function View(): (s: Sched)
      reads this, procs
    {
      Sched(procs[..], currentPid, processCount)
    }

    /** The machine, when the registers are these. */
    ghost function Now(cpu: Regs): Machine
      reads this, procs
    {
      Machine(View(), words, cpu, tssRsp0, cr3)
    }

    constructor (pmm: Pmm.FrameAllocator, procs: array<Process>, kernelPml4: nat)
      requires procs.Length == MAX_PROCESSES
      ensures this.pmm == pmm && this.procs == procs && this.kernelPml4 == kernelPml4
      ensures processCount == 0 && words == map[]
    {
      this.pmm, this.procs, this.kernelPml4 := pmm, procs, kernelPml4;
      currentPid, processCount, words, cr3, tssRsp0 := 0, 0, map[], 0, 0;
    }

    /** init_multitasking */
    method Init()
      requires procs.Length == MAX_PROCESSES
      modifies this`currentPid, this`processCount, procs
      ensures Valid() && Safe(View()) && currentPid == 0 && processCount == 1
      ensures forall i :: 1 <= i < MAX_PROCESSES ==> procs[i] == old(procs[i]).(state := Waiting)
      ensures procs[0] == old(procs[0]).(pid := 0, state := Running)
    {
      for i := 0 to MAX_PROCESSES
        invariant forall j :: 0 <= j < i ==> procs[j] == old(procs[j]).(state := Waiting)
        invariant forall j :: i <= j < MAX_PROCESSES ==> procs[j] == old(procs[j])
      {
        procs[i] := procs[i].(state := Waiting);
      }
      procs[0] := procs[0].(pid := 0, state := Running);
      processCount := 1;
      currentPid := 0;
    }

    /** Writes the first frame of a process downwards from top: five words for
        iretq, two for the entry macro and sixteen zeroed registers. */
    method WriteFrame(top: nat, entry: nat, cs: nat, ss: nat, rsp: nat) returns (sp: nat)
      requires FRAME_BYTES <= top
      modifies this`words
      ensures sp == top - FRAME_BYTES
      ensures words == PushAll(old(words), top, FirstWords(entry, cs, ss, rsp))
    {
      ghost var m, vs := words, FirstWords(entry, cs, ss, rsp);
      var head := [ss, rsp, 0x202, cs, entry, 0, 0];
      sp := top;
      for i := 0 to FRAME_WORDS
        invariant sp == top - 8 * i && words == PushAll(m, top, vs[..i])
      {
        sp := sp - 8;
        words := words[sp := if i < 7 then head[i] else 0];
        PushOneMore(m, top, vs[..i], vs[i]);
        assert vs[..i] + [vs[i]] == vs[..i + 1];
      }
      assert vs[..FRAME_WORDS] == vs;
    }

    /** The end of process creation, once the stacks are there. */
    method Launch(n: nat, entry: nat, cs: nat, ss: nat, rsp: nat, kernelStack: nat, pml4: nat)
      requires Valid() && n == processCount < MAX_PROCESSES && procs[n].pid == n && procs[n].state == Ready
      modifies this`processCount, this`words, procs
      ensures Valid() && View() == Do(old(View()), Create(Entry(n, old(procs[n].stackBase), kernelStack, pml4)))
      ensures words == PushAll(old(words), kernelStack + STACK_SIZE, FirstWords(entry, cs, ss, rsp))
    {
      procs[n] := procs[n].(kernelStackBase := kernelStack, kernelStackTop := kernelStack + STACK_SIZE, pml4 := pml4);
      var sp := WriteFrame(kernelStack + STACK_SIZE, entry, cs, ss, rsp);
      procs[n] := procs[n].(rsp := sp);
      processCount := processCount + 1;
    }

    /** The beginning of create_user_process: the slot is filled in as READY,
        then the two stacks are allocated. */
    method ClaimStacks(n: nat) returns (userStack: nat, kernelStack: nat)
      requires Valid() && pmm.Valid() && n == processCount < MAX_PROCESSES
      modifies procs, pmm.bitmap
      ensures Valid() && pmm.Valid()
      ensures procs[n].pid == n && procs[n].state == Ready && procs[..] == old(procs[..])[n := procs[n]]
      ensures userStack == Pmm.Alloc(old(pmm.Used())).1
      ensures if userStack == 0 then kernelStack == 0 && pmm.Used() == Pmm.Alloc(old(pmm.Used())).0
              else
                && (pmm.Used(), kernelStack) == Pmm.Alloc(Pmm.Alloc(old(pmm.Used())).0)
                && procs[n].stackBase == userStack
    {
      procs[n] := procs[n].(pid := n, state := Ready);
      kernelStack := 0;
      userStack := pmm.AllocBlock();
      if userStack == 0 {
        return;
      }
      procs[n] := procs[n].(stackBase := userStack);
      kernelStack := pmm.AllocBlock();
    }

    /** create_user_process. A failed stack allocation leaves the slot READY
        but outside the table; the user stack is not given back. */
    method CreateUser(entry: nat, pml4: nat)
      requires Valid() && pmm.Valid()
      modifies this`processCount, this`words, procs, pmm.bitmap
      ensures Valid() && pmm.Valid()
      ensures var u := Pmm.Alloc(old(pmm.Used())); var k := Pmm.Alloc(u.0); var s := old(View());
              if s.count == MAX_PROCESSES then View() == s && words == old(words) && pmm.Used() == old(pmm.Used())
              else if u.1 == 0 || k.1 == 0 then
                && words == old(words) && procs[s.count].state == Ready && View() == Do(s, CreateFails(procs[s.count]))
                && pmm.Used() == if u.1 == 0 then u.0 else k.0
              else
                && View() == Do(s, Create(Entry(s.count, u.1, k.1, pml4))) && pmm.Used() == k.0
                && var first := FirstWords(entry, USER_CODE, USER_DATA, u.1 + STACK_SIZE);
                   words == PushAll(old(words), k.1 + STACK_SIZE, first)
    {
      if processCount >= MAX_PROCESSES {
        return;
      }
      var userStack, kernelStack := ClaimStacks(processCount);
      if userStack == 0 || kernelStack == 0 {
        return;
      }
      Launch(processCount, entry, USER_CODE, USER_DATA, userStack + STACK_SIZE, kernelStack, pml4);
    }

    /** Creation from a coherent machine, whatever becomes of it: the table
        full, a stack missing, or a new process on stacks of its own. */
    method SpawnUser(entry: nat, pml4: nat, ghost cpu: Regs, ghost b: Book) returns (ghost b1: Book)
      requires Valid() && pmm.Valid() && Coherent(Now(cpu), b)
      requires StacksOwned(b, processCount, pmm.Used())
      modifies this`processCount, this`words, procs, pmm.bitmap
      ensures Valid() && pmm.Valid() && Coherent(Now(cpu), b1)
      ensures StacksOwned(b1, processCount, pmm.Used())
      ensures processCount == old(processCount) + if CanSpawn(old(processCount), old(pmm.Used())) then 1 else 0
      ensures processCount > old(processCount) ==>
                && StartsAt(Now(cpu), b1, old(processCount), entry, pml4)
                && UserStackIsOwn(Now(cpu), b1, old(processCount), pmm.Used())
    {
      ghost var m, used := Now(cpu), pmm.Used();
      CreateUser(entry, pml4);
      ghost var m1 := Now(cpu);
      b1 := SpawnOutcome(m, m1, b, used, pmm.Used(), entry, pml4);
    }

    /** create_kernel_process; here the allocation is not checked. */
    method CreateKernel(entry: nat)
      requires Valid() && pmm.Valid()
      modifies this`processCount, this`words, procs, pmm.bitmap
      ensures Valid() && pmm.Valid()
      ensures var k := Pmm.Alloc(old(pmm.Used())); var s := old(View());
              if s.count == MAX_PROCESSES then View() == s && words == old(words) && pmm.Used() == old(pmm.Used())
              else
                && View() == Do(s, Create(Entry(s.count, k.1, k.1, kernelPml4))) && pmm.Used() == k.0
                && var first := FirstWords(entry, KERNEL_CODE, KERNEL_DATA, k.1 + STACK_SIZE);
                   words == PushAll(old(words), k.1 + STACK_SIZE, first)
    {
      if processCount >= MAX_PROCESSES {
        return;
      }
      var n := processCount;
      procs[n] := procs[n].(pid := n, state := Ready);
      var stack := pmm.AllocBlock();
      procs[n] := procs[n].(stackBase := stack);
      Launch(n, entry, KERNEL_CODE, KERNEL_DATA, stack + STACK_SIZE, stack, kernelPml4);
    }

    /** Its creation from a coherent machine, when there was a stack. */
    method SpawnKernel(entry: nat, ghost cpu: Regs, ghost b: Book) returns (ghost b1: Book)
      requires Valid() && pmm.Valid() && Coherent(Now(cpu), b)
      requires StacksOwned(b, processCount, pmm.Used())
      modifies this`processCount, this`words, procs, pmm.bitmap
      ensures Valid() && pmm.Valid()
      ensures processCount == old(processCount) + if old(processCount) < MAX_PROCESSES then 1 else 0
      ensures Pmm.Alloc(old(pmm.Used())).1 != 0 ==>
                && Coherent(Now(cpu), b1) && StacksOwned(b1, processCount, pmm.Used())
                && (processCount > old(processCount) ==> KernelStartsAt(Now(cpu), b1, old(processCount), entry))
    {
      ghost var m, used := Now(cpu), pmm.Used();
      CreateKernel(entry);
      b1 := b;
      if m.sched.count < MAX_PROCESSES && Pmm.Alloc(used).1 != 0 {
        b1 := KernelStarts(m, Now(cpu), b, used, entry, kernelPml4);
      }
    }

    /** kill_current_process */
    method KillCurrent()
      requires Valid()
      modifies procs
      ensures Valid() && View() == Kill(old(View()))
    {
      procs[currentPid] := procs[currentPid].(state := Dead);
    }

    /** The do-while scan of schedule(). Its guard against endless looping
        never fires: the branch would have to return what the scan returns. */
    method Scan() returns (next: nat, gaveUp: bool)
      requires Valid()
      ensures !gaveUp && next == Pick(procs[..], currentPid, processCount, 1)
    {
      gaveUp := false;
      next := currentPid;
      var loopCount := 0;
      while true
        invariant loopCount < processCount && next == Slot(currentPid, loopCount, processCount)
        invariant Pick(procs[..], currentPid, processCount, 1)
                  == Pick(procs[..], currentPid, processCount, loopCount + 1)
        decreases processCount - loopCount
      {
        next := next + 1;
        if next >= processCount {
          next := 0;
        }
        loopCount := loopCount + 1;
        if loopCount > MAX_PROCESSES + 1 {
          gaveUp := true;
          return;
        }
        if !(procs[next].state != Ready && next != currentPid) {
          break;
        }
      }
    }

    /** schedule(): saves the interrupted context, picks the next process,
        and returns its stack pointer. */
    method Schedule(rsp: nat) returns (r: nat)
      requires Valid()
      modifies this`currentPid, this`cr3, this`tssRsp0, procs
      ensures Valid() && View() == Scheduler.Schedule(old(View()), rsp)
      ensures r == procs[currentPid].rsp
      ensures cr3 == LoadedCr3(old(cr3), procs[currentPid])
      ensures tssRsp0 == LoadedTss(old(tssRsp0), procs[currentPid])
    {
      if procs[currentPid].state != Dead {
        procs[currentPid] := procs[currentPid].(rsp := rsp);
        if procs[currentPid].state == Running {
          procs[currentPid] := procs[currentPid].(state := Ready);
        }
      }
      assert procs[..] == Save(old(View()), rsp);
      var next, gaveUp := Scan();
      if gaveUp {
        return rsp;
      }
      if next == currentPid && procs[next].state != Ready {
        if procs[0].state == Ready || procs[0].state == Running {
          next := 0;
        }
      }
      currentPid := next;
      procs[currentPid] := procs[currentPid].(state := Running);
      if procs[currentPid].pml4 != 0 {
        cr3 := procs[currentPid].pml4;
      }
      if procs[currentPid].kernelStackTop != 0 {
        tssRsp0 := procs[currentPid].kernelStackTop;
      }
      r := procs[currentPid].rsp;
    }

    /** isr_handler: the timer reschedules, system call 0 exits, everything
        else returns to the interrupted context. */
    method HandleInterrupt(intNo: nat, rax: nat, frame: nat) returns (nextRsp: nat)
      requires Valid()
      modifies this`currentPid, this`cr3, this`tssRsp0, procs
      ensures Valid()
      ensures intNo == 32 ==> View() == Scheduler.Schedule(old(View()), frame) && nextRsp == procs[currentPid].rsp
      ensures intNo == 128 && rax == 0 ==>
                View() == Scheduler.Schedule(Kill(old(View())), frame) && nextRsp == procs[currentPid].rsp
      ensures Reschedules(intNo, rax) ==>
                cr3 == LoadedCr3(old(cr3), procs[currentPid]) && tssRsp0 == LoadedTss(old(tssRsp0), procs[currentPid])
      ensures !Reschedules(intNo, rax) ==>
                View() == old(View()) && nextRsp == frame && cr3 == old(cr3) && tssRsp0 == old(tssRsp0)
    {
      nextRsp := frame;
      if intNo == 32 {
        nextRsp := Schedule(frame);
      } else if intNo == 128 && rax == 0 {
        KillCurrent();
        nextRsp := Schedule(frame);
      }
    }

    /** The way in: the context is pushed below top, and the handler reads the
        interrupt number and rax off it. */
    method Enter(frame: nat, intNo: nat, err: nat, cpu: Regs) returns (nextRsp: nat)
      requires Valid()
      modifies this`words, this`currentPid, this`cr3, this`tssRsp0, procs
      ensures Valid() && Handled(old(Now(cpu)), Now(cpu), intNo, err, frame, nextRsp)
    {
      HandlerReads(words, frame + FRAME_BYTES, cpu, intNo, err);
      words := PushAll(words, frame + FRAME_BYTES, Pushed(cpu, intNo, err));
      nextRsp := HandleInterrupt(Peek(words, frame + 128), Peek(words, frame + 8), frame);
    }

    /** An interrupt from the CPU's pushes to iretq: what is pushed goes where
        the TSS says, or on the stack the kernel is on; the handler says whose
        frame is popped. From a coherent machine this is a switch as executions
        know it, or nothing happens to the registers. */
    method Interrupt(intNo: nat, err: nat, cpu: Regs, ghost b: Book) returns (cpu1: Regs, ghost b1: Book)
      requires Valid() && Coherent(Now(cpu), b)
      requires EntersAt(Now(cpu), b, EntryTop(cpu, tssRsp0))
      requires intNo == 128 && cpu.rax == 0 ==> currentPid != 0
      modifies this`words, this`currentPid, this`cr3, this`tssRsp0, procs
      ensures Valid() && Coherent(Now(cpu1), b1)
      ensures if Reschedules(intNo, cpu.rax) then
                && b1 == Noted(old(Now(cpu)), b, intNo, err)
                && Rescheduled(old(Now(cpu)), Now(cpu1), b, intNo, err)
              else cpu1 == cpu && b1 == b && View() == old(View())
    {
      ghost var m := Now(cpu);
      EntersOwnStack(m, b, EntryTop(cpu, tssRsp0));
      var frame := EntryTop(cpu, tssRsp0) - FRAME_BYTES;
      var rsp := Enter(frame, intNo, err, cpu);
      cpu1 := Popped(FrameAt(words, rsp));
      b1 := if Reschedules(intNo, cpu.rax) then Noted(m, b, intNo, err) else b;
      Interrupted(m, Now(cpu), Now(cpu1), b, b1, intNo, err, frame, rsp);
    }
  }
}
