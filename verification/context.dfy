/** Context switching (src/kernel/interrupt.asm:47-118, src/kernel/isr.c:16-36,
    src/kernel/process/process.c:114-148): the words that an interrupt pushes
    on a stack, the stack switch, and the words that the way out pops. */
module Context {
  import opened Scheduler

  /** Words of a saved context: 5 from the CPU, 2 from the entry macro, 15
      general registers and the data segment. */
  const FRAME_WORDS: nat := 23
  const FRAME_BYTES: nat := 184

  /** What a context switch has to preserve. */
  datatype Regs = Regs(
    rax: nat, rbx: nat, rcx: nat, rdx: nat, rbp: nat, rsi: nat, rdi: nat,
    r8: nat, r9: nat, r10: nat, r11: nat, r12: nat, r13: nat, r14: nat, r15: nat,
    ds: nat, rip: nat, cs: nat, rflags: nat, rsp: nat, ss: nat)

  /** Memory as 8-byte words by address. */
  type Words = map<nat, nat>

  function Peek(m: Words, a: nat): nat { if a in m then m[a] else 0 }

  /** A sequence of pushes from stack pointer sp. */
  function PushAll(m: Words, sp: nat, vs: seq<nat>): Words
    requires 8 * |vs| <= sp
    decreases |vs|
  {
    if vs == [] then m else PushAll(m[sp - 8 := vs[0]], sp - 8, vs[1..])
  }

  /** n pops from stack pointer sp. */
  function PopAll(m: Words, sp: nat, n: nat): (r: seq<nat>)
    ensures |r| == n
  {
    seq<nat>(n, i requires 0 <= i < n => Peek(m, sp + 8 * i))
  }

  /** mov ax, ds; push rax: only the low 16 bits are replaced. */
  function SegmentWord(r: Regs): nat { r.rax / 0x1_0000 * 0x1_0000 + r.ds }

  /** The words of an interrupt entry in the order they are pushed. */
  function Pushed(r: Regs, intNo: nat, err: nat): (vs: seq<nat>)
    ensures |vs| == FRAME_WORDS
  {
    [r.ss, r.rsp, r.rflags, r.cs, r.rip, err, intNo,
     r.r15, r.r14, r.r13, r.r12, r.r11, r.r10, r.r9, r.r8,
     r.rdi, r.rsi, r.rbp, r.rdx, r.rcx, r.rbx, r.rax, SegmentWord(r)]
  }

  /** The same words in memory order, which is the layout of registers_t. */
  function Frame(r: Regs, intNo: nat, err: nat): (vs: seq<nat>)
    ensures |vs| == FRAME_WORDS
  {
    [SegmentWord(r), r.rax, r.rbx, r.rcx, r.rdx, r.rbp, r.rsi, r.rdi,
     r.r8, r.r9, r.r10, r.r11, r.r12, r.r13, r.r14, r.r15,
     intNo, err, r.rip, r.cs, r.rflags, r.rsp, r.ss]
  }

  /** The registers after the pops, the skip of two words and iretq. */
  function Popped(w: seq<nat>): Regs
    requires |w| == FRAME_WORDS
  {
    Regs(w[1], w[2], w[3], w[4], w[5], w[6], w[7],
         w[8], w[9], w[10], w[11], w[12], w[13], w[14], w[15],
         w[0] % 0x1_0000, w[18], w[19], w[20], w[21], w[22])
  }

  /** The frame that resuming at stack pointer sp pops. */
  function FrameAt(m: Words, sp: nat): (w: seq<nat>)
    ensures |w| == FRAME_WORDS
  {
    PopAll(m, sp, FRAME_WORDS)
  }

  // ---------------------------------------------------------------------
  // Pushes and pops
  // ---------------------------------------------------------------------

  lemma {:induction false} PushLeavesRest(m: Words, sp: nat, vs: seq<nat>, a: nat)
    requires 8 * |vs| <= sp && !(sp - 8 * |vs| <= a < sp)
    ensures Peek(PushAll(m, sp, vs), a) == Peek(m, a)
    decreases |vs|
  {
    if vs != [] {
      PushLeavesRest(m[sp - 8 := vs[0]], sp - 8, vs[1..], a);
    }
  }

  lemma {:induction false} PushedAt(m: Words, sp: nat, vs: seq<nat>, i: nat)
    requires 8 * |vs| <= sp && i < |vs|
    ensures Peek(PushAll(m, sp, vs), sp - 8 * (i + 1)) == vs[i]
    decreases |vs|
  {
    if i == 0 {
      PushLeavesRest(m[sp - 8 := vs[0]], sp - 8, vs[1..], sp - 8);
    } else {
      PushedAt(m[sp - 8 := vs[0]], sp - 8, vs[1..], i - 1);
    }
  }

  ghost predicate Agree(m: Words, m1: Words, lo: nat, hi: nat)
  {
    forall a :: lo <= a < hi ==> Peek(m1, a) == Peek(m, a)
  }

  lemma FrameUntouched(m: Words, m1: Words, sp: nat)
    requires Agree(m, m1, sp, sp + FRAME_BYTES)
    ensures FrameAt(m1, sp) == FrameAt(m, sp)
  {
  }

  /** Pops return what was pushed, last in first out. */
  lemma PopsReversePushes(m: Words, sp: nat, vs: seq<nat>, i: nat)
    requires 8 * |vs| <= sp && i < |vs|
    ensures PopAll(PushAll(m, sp, vs), sp - 8 * |vs|, |vs|)[i] == vs[|vs| - 1 - i]
  {
    PushedAt(m, sp, vs, |vs| - 1 - i);
    assert sp - 8 * |vs| + 8 * i == sp - 8 * (|vs| - i);
  }

  /** The layout that the C handler sees is what the pushes produce. */
  lemma PushOrderIsLayout(r: Regs, intNo: nat, err: nat, i: nat)
    requires i < FRAME_WORDS
    ensures Frame(r, intNo, err)[i] == Pushed(r, intNo, err)[22 - i]
  {
  }

  lemma PushedFrame(m: Words, top: nat, r: Regs, intNo: nat, err: nat)
    requires FRAME_BYTES <= top
    ensures FrameAt(PushAll(m, top, Pushed(r, intNo, err)), top - FRAME_BYTES) == Frame(r, intNo, err)
  {
    var vs, f := Pushed(r, intNo, err), Frame(r, intNo, err);
    var w := FrameAt(PushAll(m, top, vs), top - FRAME_BYTES);
    forall i | 0 <= i < FRAME_WORDS ensures w[i] == f[i] {
      PopsReversePushes(m, top, vs, i);
      PushOrderIsLayout(r, intNo, err, i);
    }
  }

  /** The way out restores every register that the way in saved. */
  lemma FrameRestores(r: Regs, intNo: nat, err: nat)
    requires r.ds < 0x1_0000
    ensures Popped(Frame(r, intNo, err)) == r
  {
    assert SegmentWord(r) % 0x1_0000 == r.ds;
  }

  lemma SaveThenResume(m: Words, top: nat, r: Regs, intNo: nat, err: nat)
    requires FRAME_BYTES <= top && r.ds < 0x1_0000
    ensures Popped(FrameAt(PushAll(m, top, Pushed(r, intNo, err)), top - FRAME_BYTES)) == r
  {
    PushedFrame(m, top, r, intNo, err);
    FrameRestores(r, intNo, err);
  }

  /** The registers a new process starts with. */
  function Fresh(entry: nat, cs: nat, ss: nat, rsp: nat): Regs
  {
    Regs(0, 0, 0, 0, 0, 0, 0, 0, 0, 0, 0, 0, 0, 0, 0, 0, entry, cs, 0x202, rsp, ss)
  }

  /** The 23 words that process creation writes on the new kernel stack. */
  function FirstWords(entry: nat, cs: nat, ss: nat, rsp: nat): (vs: seq<nat>)
    ensures |vs| == FRAME_WORDS
  {
    [ss, rsp, 0x202, cs, entry, 0, 0, 0, 0, 0, 0, 0, 0, 0, 0, 0, 0, 0, 0, 0, 0, 0, 0]
  }

  lemma FirstWordsAreAFrame(entry: nat, cs: nat, ss: nat, rsp: nat)
    ensures FirstWords(entry, cs, ss, rsp) == Pushed(Fresh(entry, cs, ss, rsp), 0, 0)
  {
  }

  /** A process that never ran starts at its entry point with zeroed
      registers, interrupts on and its own stack. */
  lemma FirstResume(m: Words, top: nat, entry: nat, cs: nat, ss: nat, rsp: nat)
    requires FRAME_BYTES <= top
    ensures FrameAt(PushAll(m, top, FirstWords(entry, cs, ss, rsp)), top - FRAME_BYTES)
            == Frame(Fresh(entry, cs, ss, rsp), 0, 0)
    ensures Popped(Frame(Fresh(entry, cs, ss, rsp), 0, 0)) == Fresh(entry, cs, ss, rsp)
  {
    var r := Fresh(entry, cs, ss, rsp);
    FirstWordsAreAFrame(entry, cs, ss, rsp);
    PushedFrame(m, top, r, 0, 0);
    FrameRestores(r, 0, 0);
  }

  /** What the handler reads off the frame of an interrupt: the number in
      word 16 and rax in word 1 of registers_t. */
  lemma HandlerReads(m: Words, top: nat, r: Regs, intNo: nat, err: nat)
    requires FRAME_BYTES <= top
    ensures var m1, frame := PushAll(m, top, Pushed(r, intNo, err)), top - FRAME_BYTES;
            Peek(m1, frame + 128) == intNo && Peek(m1, frame + 8) == r.rax
  {
    PushedFrame(m, top, r, intNo, err);
    var m1, frame := PushAll(m, top, Pushed(r, intNo, err)), top - FRAME_BYTES;
    assert Peek(m1, frame + 8 * 16) == FrameAt(m1, frame)[16] && Peek(m1, frame + 8 * 1) == FrameAt(m1, frame)[1];
  }

  // ---------------------------------------------------------------------
  // The machine
  // ---------------------------------------------------------------------

  /** Scheduler state, memory, the registers of the running process, the
      stack pointer in the TSS and the page table register. */
  datatype Machine = Machine(sched: Sched, mem: Words, cpu: Regs, tss: nat, cr3: nat)

  datatype Stack = Stack(lo: nat, hi: nat)

  /** The stack of every process and the frame with the registers it had when
      it was last switched out, or starts with. */
  datatype Book = Book(stacks: seq<Stack>, saved: seq<seq<nat>>)

  ghost predicate Disjoint(a: Stack, b: Stack) { a.hi <= b.lo || b.hi <= a.lo }

  /** Process i waits with its registers on its own stack. */
  ghost predicate Parked(m: Machine, b: Book, i: nat)
    requires i < |m.sched.procs| && i < |b.stacks| && i < |b.saved|
  {
    var rsp := m.sched.procs[i].rsp;
    b.stacks[i].lo <= rsp && rsp + FRAME_BYTES <= b.stacks[i].hi && FrameAt(m.mem, rsp) == b.saved[i]
  }

  /** The table entry of a created process names its own kernel stack. */
  ghost predicate Equipped(p: Process, s: Stack)
  {
    p.kernelStackBase == s.lo && p.kernelStackTop == s.hi && s.lo + FRAME_BYTES <= s.hi
  }

  /** While a created process runs, the TSS holds the upper end of its kernel
      stack and CR3 its page tables. */
  ghost predicate InEffect(m: Machine, b: Book)
    requires m.sched.current < |m.sched.procs| && m.sched.current < |b.stacks|
  {
    var cur := m.sched.current;
    cur != 0 ==>
      && m.tss == b.stacks[cur].hi
      && (m.sched.procs[cur].pml4 != 0 ==> m.cr3 == m.sched.procs[cur].pml4)
  }

  ghost predicate Coherent(m: Machine, b: Book)
  {
    && Safe(m.sched) && |b.stacks| == |b.saved| == MAX_PROCESSES && m.cpu.ds < 0x1_0000
    && (forall i, j :: 0 <= i < j < m.sched.count ==> Disjoint(b.stacks[i], b.stacks[j]))
    && (forall i :: 1 <= i < m.sched.count ==> Equipped(m.sched.procs[i], b.stacks[i])) && InEffect(m, b)
    && (forall i :: 0 <= i < m.sched.count && i != m.sched.current && m.sched.procs[i].state == Ready ==>
        Parked(m, b, i))
  }

  /** The running process computes: it may change its registers and any memory
      except the stacks of the others. */
  ghost predicate Computes(m: Machine, m1: Machine, b: Book)
    requires |b.stacks| == MAX_PROCESSES && m.sched.count <= MAX_PROCESSES
  {
    && m1.sched == m.sched && m1.cpu.ds < 0x1_0000 && m1.tss == m.tss && m1.cr3 == m.cr3
    && forall i :: 0 <= i < m.sched.count && i != m.sched.current ==>
        Agree(m.mem, m1.mem, b.stacks[i].lo, b.stacks[i].hi)
  }

  predicate UserMode(r: Regs) { r.cs % 4 == 3 }

  /** Where an interrupt begins to push: out of user mode at the stack pointer
      in the TSS, otherwise on the stack the kernel is on, where there has to
      be room. PID 0 is the kernel itself and never in user mode. */
  ghost predicate EntersAt(m: Machine, b: Book, top: nat)
    requires m.sched.current < |b.stacks|
  {
    var cur := m.sched.current;
    if UserMode(m.cpu) then cur != 0 && top == m.tss
    else b.stacks[cur].lo + FRAME_BYTES <= top <= b.stacks[cur].hi
  }

  /** Out of user mode too the frame goes on the process's own stack. */
  lemma EntersOwnStack(m: Machine, b: Book, top: nat)
    requires Coherent(m, b) && EntersAt(m, b, top)
    ensures var s := b.stacks[m.sched.current]; s.lo + FRAME_BYTES <= top <= s.hi
    ensures UserMode(m.cpu) ==>
              top == b.stacks[m.sched.current].hi == m.sched.procs[m.sched.current].kernelStackTop
  {
    assert m.sched.current != 0 ==> Equipped(m.sched.procs[m.sched.current], b.stacks[m.sched.current]);
  }

  /** What schedule() loads for the process it picked. */
  function LoadedTss(tss: nat, p: Process): nat { if p.kernelStackTop != 0 then p.kernelStackTop else tss }
  function LoadedCr3(cr3: nat, p: Process): nat { if p.pml4 != 0 then p.pml4 else cr3 }

  /** An interrupt that reschedules: the context goes on the current stack
      below top, schedule() picks a process, its context is popped. What the
      handler itself writes stays below the saved frame or off the stacks. */
  ghost predicate Switches(m: Machine, m1: Machine, b: Book, step: Step, top: nat, intNo: nat, err: nat)
    requires |b.stacks| == MAX_PROCESSES && m.sched.current < m.sched.count <= MAX_PROCESSES
  {
    var cur := m.sched.current;
    && EntersAt(m, b, top) && FRAME_BYTES <= top
    && (step == Tick(top - FRAME_BYTES) || step == Exit(top - FRAME_BYTES))
    && RunStep(m.sched, m1.sched, step)
    && m1.tss == LoadedTss(m.tss, m1.sched.procs[m1.sched.current])
    && m1.cr3 == LoadedCr3(m.cr3, m1.sched.procs[m1.sched.current])
    && var pushed := PushAll(m.mem, top, Pushed(m.cpu, intNo, err));
       && (forall i :: 0 <= i < m.sched.count && i != cur ==> Agree(pushed, m1.mem, b.stacks[i].lo, b.stacks[i].hi))
       && Agree(pushed, m1.mem, top - FRAME_BYTES, top)
       && m1.cpu == Popped(FrameAt(m1.mem, m1.sched.procs[m1.sched.current].rsp))
  }

  function Noted(m: Machine, b: Book, intNo: nat, err: nat): Book
    requires m.sched.current < |b.saved|
  {
    b.(saved := b.saved[m.sched.current := Frame(m.cpu, intNo, err)])
  }

  /** Other stacks keep their contents while a frame is pushed. */
  lemma PushOnOwnStack(m: Words, top: nat, vs: seq<nat>, s: Stack)
    requires 8 * |vs| <= top && (s.hi <= top - 8 * |vs| || top <= s.lo)
    ensures Agree(m, PushAll(m, top, vs), s.lo, s.hi)
  {
    forall a | s.lo <= a < s.hi ensures Peek(PushAll(m, top, vs), a) == Peek(m, a) {
      PushLeavesRest(m, top, vs, a);
    }
  }

  lemma ParkedThroughAgreement(m: Machine, m1: Machine, b: Book, b1: Book, i: nat)
    requires i < |m.sched.procs| && i < |m1.sched.procs| && i < |b.stacks| && i < |b.saved|
    requires b1.stacks == b.stacks && i < |b1.saved| && b1.saved[i] == b.saved[i]
    requires m1.sched.procs[i].rsp == m.sched.procs[i].rsp
    requires Agree(m.mem, m1.mem, b.stacks[i].lo, b.stacks[i].hi) && Parked(m, b, i)
    ensures Parked(m1, b1, i)
  {
    FrameUntouched(m.mem, m1.mem, m.sched.procs[i].rsp);
  }

  lemma ComputingIsCoherent(m: Machine, m1: Machine, b: Book)
    requires Coherent(m, b) && Computes(m, m1, b)
    ensures Coherent(m1, b)
  {
    forall i | 0 <= i < m.sched.count && i != m.sched.current
        && m.sched.procs[i].state == Ready ensures Parked(m1, b, i) {
      ParkedThroughAgreement(m, m1, b, b, i);
    }
  }

  /** How schedule() changes the table: only the outgoing process gets a new
      rsp, only it and the incoming one a new state. */
  lemma SwitchTouches(s: Sched, step: Step, i: nat)
    requires Safe(s) && Legal(s, step) && Schedules(step) && i < s.count
    ensures var s1 := Do(s, step);
            && s1.count == s.count && s.procs[s1.current].state != Dead
            && s1.procs[i] == s.procs[i].(rsp := s1.procs[i].rsp, state := s1.procs[i].state)
            && (i != s.current ==> s1.procs[i].rsp == s.procs[i].rsp)
            && (i != s.current && i != s1.current ==> s1.procs[i].state == s.procs[i].state)
            && (step.Exit? ==> s1.current != s.current && s1.procs[s.current].state == Dead)
            && (step.Tick? ==> s1.procs[s.current].rsp == step.rsp)
            && (s1.current != s.current ==> s.procs[s1.current].state == Ready)
  {
    match step
    case Tick(rsp) => ScanFindsReady(s, rsp);
    case Exit(rsp) =>
      assert Revive(Kill(s)) == s;
      ScanFindsReady(Kill(s), rsp);
  }

  lemma FrameStands(m: Words, m1: Words, top: nat, r: Regs, intNo: nat, err: nat)
    requires FRAME_BYTES <= top && Agree(PushAll(m, top, Pushed(r, intNo, err)), m1, top - FRAME_BYTES, top)
    ensures FrameAt(m1, top - FRAME_BYTES) == Frame(r, intNo, err)
  {
    PushedFrame(m, top, r, intNo, err);
    FrameUntouched(PushAll(m, top, Pushed(r, intNo, err)), m1, top - FRAME_BYTES);
  }

  /** The registers after the outgoing process was preempted and its stack
      left alone are those it had. */
  lemma OutgoingParked(m: Machine, m1: Machine, b: Book, step: Step, top: nat, intNo: nat, err: nat)
    requires Coherent(m, b) && Switches(m, m1, b, step, top, intNo, err) && step.Tick?
    ensures Parked(m1, Noted(m, b, intNo, err), m.sched.current)
  {
    EntersOwnStack(m, b, top);
    OutgoingFrame(m, m1, b, step, top, intNo, err);
  }

  lemma OutgoingFrame(m: Machine, m1: Machine, b: Book, step: Step, top: nat, intNo: nat, err: nat)
    requires Safe(m.sched) && |b.stacks| == |b.saved| == MAX_PROCESSES
    requires Switches(m, m1, b, step, top, intNo, err) && step.Tick?
    ensures m1.sched.procs[m.sched.current].rsp == top - FRAME_BYTES
    ensures FrameAt(m1.mem, m1.sched.procs[m.sched.current].rsp) == Noted(m, b, intNo, err).saved[m.sched.current]
  {
    SwitchTouches(m.sched, step, m.sched.current);
    FrameStands(m.mem, m1.mem, top, m.cpu, intNo, err);
  }

  lemma OthersStayParked(m: Machine, m1: Machine, b: Book, step: Step, top: nat, intNo: nat, err: nat, i: nat)
    requires Coherent(m, b) && Switches(m, m1, b, step, top, intNo, err)
    requires i < m.sched.count && i != m.sched.current && m.sched.procs[i].state == Ready
    ensures Parked(m1, Noted(m, b, intNo, err), i)
  {
    SwitchTouches(m.sched, step, i);
    EntersOwnStack(m, b, top);
    var cur, pushed := m.sched.current, PushAll(m.mem, top, Pushed(m.cpu, intNo, err));
    assert Disjoint(b.stacks[i], b.stacks[cur]);
    PushOnOwnStack(m.mem, top, Pushed(m.cpu, intNo, err), b.stacks[i]);
    ParkedThroughAgreement(m, m1, b, Noted(m, b, intNo, err), i);
  }

  lemma SwitchParks(m: Machine, m1: Machine, b: Book, step: Step, top: nat, intNo: nat, err: nat, i: nat)
    requires Coherent(m, b) && Switches(m, m1, b, step, top, intNo, err)
    requires i < m1.sched.count && (i == m1.sched.current || m1.sched.procs[i].state == Ready)
    ensures m1.sched.count == m.sched.count && i < |m1.sched.procs| && Parked(m1, Noted(m, b, intNo, err), i)
  {
    SwitchTouches(m.sched, step, i);
    if i == m.sched.current {
      OutgoingParked(m, m1, b, step, top, intNo, err);
    } else {
      OthersStayParked(m, m1, b, step, top, intNo, err, i);
    }
  }

  /** A switch resumes the chosen process with exactly the registers it had
      when it was last switched out. */
  lemma SwitchRestores(m: Machine, m1: Machine, b: Book, step: Step, top: nat, intNo: nat, err: nat)
    requires Coherent(m, b) && Switches(m, m1, b, step, top, intNo, err)
    ensures m1.sched.current < m.sched.count && |Noted(m, b, intNo, err).saved[m1.sched.current]| == FRAME_WORDS
    ensures m1.cpu == Popped(Noted(m, b, intNo, err).saved[m1.sched.current])
  {
    StepIsSafe(m.sched, step);
    SwitchParks(m, m1, b, step, top, intNo, err, m1.sched.current);
  }

  /** After a switch the TSS and CR3 are those of the process picked. */
  lemma SwitchEquips(m: Machine, m1: Machine, b: Book, step: Step, top: nat, intNo: nat, err: nat)
    requires Coherent(m, b) && Switches(m, m1, b, step, top, intNo, err)
    ensures m1.sched.count == m.sched.count && m1.sched.current < |m1.sched.procs| == MAX_PROCESSES
    ensures forall i :: 1 <= i < m1.sched.count ==> Equipped(m1.sched.procs[i], b.stacks[i])
    ensures InEffect(m1, b)
  {
    forall i | 1 <= i < m.sched.count ensures Equipped(m1.sched.procs[i], b.stacks[i]) {
      SwitchTouches(m.sched, step, i);
      assert Equipped(m.sched.procs[i], b.stacks[i]);
    }
    StepIsSafe(m.sched, step);
  }

  lemma SwitchIsCoherent(m: Machine, m1: Machine, b: Book, step: Step, top: nat, intNo: nat, err: nat)
    requires Coherent(m, b) && Switches(m, m1, b, step, top, intNo, err)
    ensures Coherent(m1, Noted(m, b, intNo, err))
  {
    StepIsSafe(m.sched, step);
    SwitchTouches(m.sched, step, m.sched.current);
    SwitchRestores(m, m1, b, step, top, intNo, err);
    SwitchEquips(m, m1, b, step, top, intNo, err);
    forall i | 0 <= i < m1.sched.count && i != m1.sched.current && m1.sched.procs[i].state == Ready
      ensures Parked(m1, Noted(m, b, intNo, err), i)
    {
      SwitchParks(m, m1, b, step, top, intNo, err, i);
    }
  }

  // ---------------------------------------------------------------------
  // Creation
  // ---------------------------------------------------------------------

  /** A process with a stack of its own is created and its first context
      written at the top of that stack. */
  ghost predicate Spawns(m: Machine, m1: Machine, b: Book, p: Process, s: Stack, r: Regs)
    requires |b.stacks| == MAX_PROCESSES && m.sched.count <= MAX_PROCESSES
  {
    && RunStep(m.sched, m1.sched, Create(p)) && m1.cpu == m.cpu && m1.tss == m.tss && m1.cr3 == m.cr3
    && Equipped(p, s) && p.rsp == s.hi - FRAME_BYTES
    && (forall i :: 0 <= i < m.sched.count ==> Disjoint(b.stacks[i], s))
    && r == Fresh(r.rip, r.cs, r.ss, r.rsp)
    && m1.mem == PushAll(m.mem, s.hi, FirstWords(r.rip, r.cs, r.ss, r.rsp))
  }

  function Enrolled(m: Machine, b: Book, s: Stack, r: Regs): Book
    requires m.sched.count < |b.stacks| && m.sched.count < |b.saved|
  {
    Book(b.stacks[m.sched.count := s], b.saved[m.sched.count := Frame(r, 0, 0)])
  }

  lemma SpawnKeepsParked(m: Machine, m1: Machine, b: Book, p: Process, s: Stack, r: Regs, i: nat)
    requires Coherent(m, b) && Spawns(m, m1, b, p, s, r)
    requires i < m.sched.count && i != m.sched.current && m.sched.procs[i].state == Ready
    ensures i < |m1.sched.procs| && Parked(m1, Enrolled(m, b, s, r), i)
  {
    PushOnOwnStack(m.mem, s.hi, FirstWords(r.rip, r.cs, r.ss, r.rsp), b.stacks[i]);
    FrameUntouched(m.mem, m1.mem, m.sched.procs[i].rsp);
  }

  lemma SpawnParks(m: Machine, m1: Machine, b: Book, p: Process, s: Stack, r: Regs)
    requires Coherent(m, b) && Spawns(m, m1, b, p, s, r)
    ensures m.sched.count < |m1.sched.procs| && Parked(m1, Enrolled(m, b, s, r), m.sched.count)
  {
    FirstResume(m.mem, s.hi, r.rip, r.cs, r.ss, r.rsp);
  }

  lemma SpawnIsCoherent(m: Machine, m1: Machine, b: Book, p: Process, s: Stack, r: Regs)
    requires Coherent(m, b) && Spawns(m, m1, b, p, s, r)
    ensures Coherent(m1, Enrolled(m, b, s, r))
  {
    StepIsSafe(m.sched, Create(p));
    SpawnParks(m, m1, b, p, s, r);
    forall i | 0 <= i < m.sched.count && i != m.sched.current && m.sched.procs[i].state == Ready
      ensures Parked(m1, Enrolled(m, b, s, r), i)
    {
      SpawnKeepsParked(m, m1, b, p, s, r, i);
    }
  }

  /** A creation that ran out of stacks: the entry behind the table is filled
      in, nothing else happens. */
  ghost predicate FailsToSpawn(m: Machine, m1: Machine, p: Process)
  {
    RunStep(m.sched, m1.sched, CreateFails(p)) && m1 == m.(sched := m1.sched)
  }

  lemma FailingIsCoherent(m: Machine, m1: Machine, b: Book, p: Process)
    requires Coherent(m, b) && FailsToSpawn(m, m1, p)
    ensures Coherent(m1, b)
  {
    StepIsSafe(m.sched, CreateFails(p));
    forall i | 0 <= i < m.sched.count && i != m.sched.current && m.sched.procs[i].state == Ready
      ensures Parked(m1, b, i)
    {
      assert Parked(m, b, i);
    }
  }

  // ---------------------------------------------------------------------
  // Runs
  // ---------------------------------------------------------------------

  datatype Event =
    | Compute
    | Switch(step: Step, top: nat, intNo: nat, err: nat)
    | Spawn(p: Process, s: Stack, r: Regs)
    | FailedSpawn(p: Process)

  ghost predicate Happens(m: Machine, m1: Machine, b: Book, b1: Book, e: Event)
    requires |b.stacks| == |b.saved| == MAX_PROCESSES && m.sched.current < m.sched.count <= MAX_PROCESSES
  {
    match e
    case Compute => Computes(m, m1, b) && b1 == b
    case Switch(step, top, intNo, err) => Switches(m, m1, b, step, top, intNo, err) && b1 == Noted(m, b, intNo, err)
    case Spawn(p, s, r) => m.sched.count < MAX_PROCESSES && Spawns(m, m1, b, p, s, r) && b1 == Enrolled(m, b, s, r)
    case FailedSpawn(p) => FailsToSpawn(m, m1, p) && b1 == b
  }

  ghost predicate Execution(ms: seq<Machine>, bs: seq<Book>, es: seq<Event>)
  {
    && |ms| == |bs| == |es| + 1 && Coherent(ms[0], bs[0])
    && forall k :: 0 <= k < |es| ==> HappensAt(ms, bs, es, k)
  }

  ghost predicate HappensAt(ms: seq<Machine>, bs: seq<Book>, es: seq<Event>, k: nat)
    requires |ms| == |bs| == |es| + 1 && k < |es|
  {
    && |bs[k].stacks| == |bs[k].saved| == MAX_PROCESSES && ms[k].sched.current < ms[k].sched.count <= MAX_PROCESSES
    && Happens(ms[k], ms[k + 1], bs[k], bs[k + 1], es[k])
  }

  lemma {:induction false} ExecutionIsCoherent(ms: seq<Machine>, bs: seq<Book>, es: seq<Event>, k: nat)
    requires Execution(ms, bs, es) && k < |ms|
    ensures Coherent(ms[k], bs[k])
  {
    if k > 0 {
      ExecutionIsCoherent(ms, bs, es, k - 1);
      assert HappensAt(ms, bs, es, k - 1);
      match es[k - 1]
      case Compute => ComputingIsCoherent(ms[k - 1], ms[k], bs[k - 1]);
      case Switch(step, top, intNo, err) => SwitchIsCoherent(ms[k - 1], ms[k], bs[k - 1], step, top, intNo, err);
      case Spawn(p, s, r) => SpawnIsCoherent(ms[k - 1], ms[k], bs[k - 1], p, s, r);
      case FailedSpawn(p) => FailingIsCoherent(ms[k - 1], ms[k], bs[k - 1], p);
    }
  }

  /** In every execution, whatever process a switch brings back continues with
      the registers recorded when it last left the CPU: those of the machine
      at that moment, or its first ones. */
  lemma ResumedWhereItLeft(ms: seq<Machine>, bs: seq<Book>, es: seq<Event>, k: nat)
    requires Execution(ms, bs, es) && k < |es| && es[k].Switch?
    ensures Coherent(ms[k], bs[k]) && Coherent(ms[k + 1], bs[k + 1])
    ensures |bs[k + 1].saved[ms[k + 1].sched.current]| == FRAME_WORDS
    ensures ms[k + 1].cpu == Popped(bs[k + 1].saved[ms[k + 1].sched.current])
    ensures |bs[k + 1].saved[ms[k].sched.current]| == FRAME_WORDS
            && Popped(bs[k + 1].saved[ms[k].sched.current]) == ms[k].cpu
    ensures forall i :: 0 <= i < MAX_PROCESSES && i != ms[k].sched.current ==> bs[k + 1].saved[i] == bs[k].saved[i]
  {
    ExecutionIsCoherent(ms, bs, es, k);
    ExecutionIsCoherent(ms, bs, es, k + 1);
    assert HappensAt(ms, bs, es, k);
    SwitchRestores(ms[k], ms[k + 1], bs[k], es[k].step, es[k].top, es[k].intNo, es[k].err);
    FrameRestores(ms[k].cpu, es[k].intNo, es[k].err);
  }

  /** While process i is not running, its recorded frame stays. */
  lemma {:induction false} RecordStays(ms: seq<Machine>, bs: seq<Book>, es: seq<Event>, j: nat, k: nat, i: nat)
    requires Execution(ms, bs, es) && 0 < j <= k < |ms| && i < ms[j].sched.count
    requires forall n :: j <= n < k ==> ms[n].sched.current != i
    ensures i < ms[k].sched.count && i < |bs[j].saved| && i < |bs[k].saved| && bs[k].saved[i] == bs[j].saved[i]
    decreases k
  {
    ExecutionIsCoherent(ms, bs, es, k);
    if j < k {
      RecordStays(ms, bs, es, j, k - 1, i);
      ExecutionIsCoherent(ms, bs, es, k - 1);
      assert HappensAt(ms, bs, es, k - 1);
    }
  }

  /** A switch enrols nobody and rewrites one record only. */
  lemma SwitchKeepsCount(ms: seq<Machine>, bs: seq<Book>, es: seq<Event>, k: nat)
    requires Execution(ms, bs, es) && k < |es| && es[k].Switch?
    ensures ms[k].sched.current < ms[k].sched.count == ms[k + 1].sched.count
    ensures |bs[k].saved| == |bs[k + 1].saved| == MAX_PROCESSES
    ensures forall i :: 0 <= i < MAX_PROCESSES && i != ms[k].sched.current ==> bs[k + 1].saved[i] == bs[k].saved[i]
  {
    ExecutionIsCoherent(ms, bs, es, k);
    assert HappensAt(ms, bs, es, k);
    SwitchTouches(ms[k].sched, es[k].step, ms[k].sched.current);
  }

  /** The frame recorded when process i was switched out at step j is the one
      it is resumed with at step k. */
  lemma SameRecord(ms: seq<Machine>, bs: seq<Book>, es: seq<Event>, j: nat, k: nat, i: nat)
    requires Execution(ms, bs, es) && j <= k < |es| && es[j].Switch? && es[k].Switch?
    requires ms[j].sched.current == i < MAX_PROCESSES && forall n :: j < n <= k ==> ms[n].sched.current != i
    ensures i < |bs[j + 1].saved| && i < |bs[k + 1].saved| && bs[k + 1].saved[i] == bs[j + 1].saved[i]
  {
    SwitchKeepsCount(ms, bs, es, j);
    if j < k {
      RecordStays(ms, bs, es, j + 1, k, i);
      SwitchKeepsCount(ms, bs, es, k);
    }
  }

  /** A process switched out at step j and next resumed at step k continues
      with exactly the registers it left with, whatever ran in between. */
  lemma SwitchedOutAndBack(ms: seq<Machine>, bs: seq<Book>, es: seq<Event>, j: nat, k: nat, i: nat)
    requires Execution(ms, bs, es) && j <= k < |es| && es[j].Switch? && es[k].Switch?
    requires ms[j].sched.current == i && ms[k + 1].sched.current == i
    requires forall n :: j < n <= k ==> ms[n].sched.current != i
    ensures ms[k + 1].cpu == ms[j].cpu
  {
    ResumedWhereItLeft(ms, bs, es, j);
    ResumedWhereItLeft(ms, bs, es, k);
    SameRecord(ms, bs, es, j, k, i);
  }
}
