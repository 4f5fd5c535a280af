/** Round-robin scheduling (src/kernel/process/process.c) as a state machine
    over its steps: timer ticks, exits and process creation.  The methods that
    change the process table in place are in process.dfy. */
module Scheduler {

  const MAX_PROCESSES: nat := 16

  datatype State = Ready | Running | Waiting | Dead

  /** process_t */
  datatype Process = Process(rsp: nat, pid: nat, state: State, stackBase: nat,
                             kernelStackBase: nat, kernelStackTop: nat, pml4: nat)

  /** The process table, current_pid and process_count. */
  datatype Sched = Sched(procs: seq<Process>, current: nat, count: nat)

  // ---------------------------------------------------------------------
  // schedule()
  // ---------------------------------------------------------------------

  /** The slot d steps after the current one, going round the table. */
  function Slot(current: nat, d: nat, count: nat): nat
    requires current < count && d <= count
  {
    if current + d >= count then current + d - count else current + d
  }

  /** How many steps the scan takes from current to slot i. */
  function Gap(current: nat, i: nat, count: nat): nat
    requires current < count && i < count
  {
    if i > current then i - current else i + count - current
  }

  /** The first READY process met going round from the d-th after the current
      one, or the current one when the round finds none. */
  function Pick(procs: seq<Process>, current: nat, count: nat, d: nat): (r: nat)
    requires current < count <= |procs| && 1 <= d <= count
    ensures r < count
    decreases count - d
  {
    var at := Slot(current, d, count);
    if d == count || procs[at].state == Ready then at else Pick(procs, current, count, d + 1)
  }

  /** The table after the outgoing process was saved. */
  function Save(s: Sched, rsp: nat): (r: seq<Process>)
    requires s.current < |s.procs|
    ensures |r| == |s.procs|
  {
    var p := s.procs[s.current];
    if p.state == Dead then s.procs
    else s.procs[s.current := p.(rsp := rsp, state := if p.state == Running then Ready else p.state)]
  }

  /** The process that runs next, with the fallback to PID 0. */
  function Next(procs: seq<Process>, current: nat, count: nat): (r: nat)
    requires current < count <= |procs|
    ensures r < count
  {
    var n := Pick(procs, current, count, 1);
    if n == current && procs[n].state != Ready && (procs[0].state == Ready || procs[0].state == Running) then 0 else n
  }

  function Schedule(s: Sched, rsp: nat): (r: Sched)
    requires s.current < s.count <= |s.procs|
    ensures |r.procs| == |s.procs| && r.current < r.count == s.count
  {
    var saved := Save(s, rsp);
    var n := Next(saved, s.current, s.count);
    Sched(saved[n := saved[n].(state := Running)], n, s.count)
  }

  function Kill(s: Sched): Sched
    requires s.current < |s.procs|
  {
    s.(procs := s.procs[s.current := s.procs[s.current].(state := Dead)])
  }

  /** What the scan finds: of the READY processes the one the fewest steps
      ahead; when it comes back to the current process, there is none. */
  lemma {:induction false} PickIsFirstReady(procs: seq<Process>, current: nat, count: nat, d: nat)
    requires current < count <= |procs| && 1 <= d <= count
    ensures var r := Pick(procs, current, count, d);
            && Gap(current, r, count) >= d
            && (procs[r].state == Ready || r == current)
            && forall i :: 0 <= i < count && procs[i].state == Ready && Gap(current, i, count) >= d ==>
                 Gap(current, r, count) <= Gap(current, i, count)
    decreases count - d
  {
    var at := Slot(current, d, count);
    if d < count && procs[at].state != Ready {
      PickIsFirstReady(procs, current, count, d + 1);
    }
  }

  // ---------------------------------------------------------------------
  // Steps
  // ---------------------------------------------------------------------

  /** A timer interrupt, the exit system call, and the creation of a process;
      rsp is where the interrupted context was pushed, p the table entry that
      creation fills in. */
  datatype Step =
    | Tick(rsp: nat)
    | Exit(rsp: nat)
    | Create(p: Process)
    | CreateFails(p: Process)

  /** PID 0 never exits; creation leaves its entry READY even when a stack
      allocation fails. */
  predicate Legal(s: Sched, step: Step)
  {
    match step
    case Tick(_) => true
    case Exit(_) => s.current != 0
    case Create(p) => s.count < MAX_PROCESSES && p.state == Ready
    case CreateFails(p) => s.count < MAX_PROCESSES && p.state == Ready
  }

  function Do(s: Sched, step: Step): (r: Sched)
    requires s.current < s.count <= |s.procs| == MAX_PROCESSES && Legal(s, step)
    ensures |r.procs| == MAX_PROCESSES && r.current < r.count <= MAX_PROCESSES && s.count <= r.count
  {
    match step
    case Tick(rsp) => Schedule(s, rsp)
    case Exit(rsp) => Schedule(Kill(s), rsp)
    case Create(p) => Sched(s.procs[s.count := p], s.current, s.count + 1)
    case CreateFails(p) => s.(procs := s.procs[s.count := p])
  }

  /** Between interrupts: the current process is the one that is RUNNING, the
      others of the table are READY or DEAD, and PID 0 is alive. */
  ghost predicate Safe(s: Sched)
  {
    && |s.procs| == MAX_PROCESSES && s.current < s.count <= MAX_PROCESSES
    && s.procs[s.current].state == Running && s.procs[0].state != Dead
    && forall i :: 0 <= i < s.count && i != s.current ==> s.procs[i].state == Ready || s.procs[i].state == Dead
  }

  /** The scan of schedule() from a safe state, or one whose current process
      was just killed, ends at a READY process. */
  lemma ScanFindsReady(s: Sched, rsp: nat)
    requires Safe(s) || (s.current < |s.procs| && s.procs[s.current].state == Dead && s.current != 0 && Safe(Revive(s)))
    ensures s.current < s.count <= |s.procs|
    ensures var saved := Save(s, rsp); var n := Pick(saved, s.current, s.count, 1);
            saved[n].state == Ready && Next(saved, s.current, s.count) == n
  {
    var saved := Save(s, rsp);
    PickIsFirstReady(saved, s.current, s.count, 1);
    if s.procs[s.current].state == Dead {
      assert Revive(s).procs[0].state == Ready;
    }
  }

  function Revive(s: Sched): Sched
    requires s.current < |s.procs|
  {
    s.(procs := s.procs[s.current := s.procs[s.current].(state := Running)])
  }

  lemma TickIsSafe(s: Sched, rsp: nat)
    requires Safe(s)
    ensures Safe(Schedule(s, rsp))
  {
    ScanFindsReady(s, rsp);
  }

  lemma ExitIsSafe(s: Sched, rsp: nat)
    requires Safe(s) && s.current != 0
    ensures Safe(Schedule(Kill(s), rsp))
  {
    assert Revive(Kill(s)) == s;
    ScanFindsReady(Kill(s), rsp);
  }

  lemma StepIsSafe(s: Sched, step: Step)
    requires Safe(s) && Legal(s, step)
    ensures Safe(Do(s, step))
  {
    match step
    case Tick(rsp) => TickIsSafe(s, rsp);
    case Exit(rsp) => ExitIsSafe(s, rsp);
    case Create(_) =>
    case CreateFails(_) =>
  }

  // ---------------------------------------------------------------------
  // Runs
  // ---------------------------------------------------------------------

  /** The states that a sequence of legal steps passes through. */
  ghost predicate Run(trace: seq<Sched>, steps: seq<Step>)
  {
    && |trace| == |steps| + 1 && Safe(trace[0])
    && forall k :: 0 <= k < |steps| ==> RunStep(trace[k], trace[k + 1], steps[k])
  }

  ghost predicate RunStep(s: Sched, s1: Sched, step: Step)
  {
    s.current < s.count <= |s.procs| == MAX_PROCESSES && Legal(s, step) && s1 == Do(s, step)
  }

  /** In every run exactly one scanned slot is RUNNING and it is current_pid,
      which stays inside the table. */
  lemma {:induction false} RunIsSafe(trace: seq<Sched>, steps: seq<Step>, k: nat)
    requires Run(trace, steps) && k < |trace|
    ensures Safe(trace[k])
    ensures forall i :: 0 <= i < trace[k].count ==> (trace[k].procs[i].state == Running <==> i == trace[k].current)
  {
    if k > 0 {
      RunIsSafe(trace, steps, k - 1);
      assert RunStep(trace[k - 1], trace[k], steps[k - 1]);
      StepIsSafe(trace[k - 1], steps[k - 1]);
    }
  }

  /** A DEAD process stays DEAD, and so never runs again. */
  lemma {:induction false} DeadStaysDead(trace: seq<Sched>, steps: seq<Step>, j: nat, k: nat, i: nat)
    requires Run(trace, steps) && j <= k < |trace|
    requires |trace[j].procs| == MAX_PROCESSES && i < trace[j].count <= MAX_PROCESSES && trace[j].procs[i].state == Dead
    ensures |trace[k].procs| == MAX_PROCESSES && i < trace[k].count <= MAX_PROCESSES
    ensures trace[k].procs[i].state == Dead && trace[k].current != i
    decreases k
  {
    RunIsSafe(trace, steps, k);
    if j < k {
      DeadStaysDead(trace, steps, j, k - 1, i);
      RunIsSafe(trace, steps, k - 1);
      assert RunStep(trace[k - 1], trace[k], steps[k - 1]);
      DeadThroughStep(trace[k - 1], steps[k - 1], i);
    }
  }

  lemma DeadThroughStep(s: Sched, step: Step, i: nat)
    requires Safe(s) && Legal(s, step) && i < s.count && s.procs[i].state == Dead
    ensures Do(s, step).procs[i].state == Dead
  {
    match step
    case Tick(rsp) => ScanFindsReady(s, rsp);
    case Exit(rsp) =>
      assert Revive(Kill(s)) == s;
      ScanFindsReady(Kill(s), rsp);
    case Create(_) =>
    case CreateFails(_) =>
  }

  /** Without the assumption on PID 0: schedule() puts a DEAD process back
      into RUNNING exactly when it is called for one and nothing is READY, nor
      PID 0 RUNNING. */
  lemma DeadRunsAgainExactly(s: Sched, rsp: nat)
    requires s.current < s.count <= |s.procs|
    ensures s.procs[Schedule(s, rsp).current].state == Dead <==>
              && s.procs[s.current].state == Dead
              && (forall i :: 0 <= i < s.count ==> s.procs[i].state != Ready)
              && s.procs[0].state != Running
  {
    var saved := Save(s, rsp);
    PickIsFirstReady(saved, s.current, s.count, 1);
  }

  // ---------------------------------------------------------------------
  // Bounded waiting
  // ---------------------------------------------------------------------

  /** Forward distance from the current process, modulo the table size. */
  function Distance(current: nat, q: nat): nat
    requires current < MAX_PROCESSES && q < MAX_PROCESSES
  {
    if q >= current then q - current else q + MAX_PROCESSES - current
  }

  predicate Schedules(step: Step) { step.Tick? || step.Exit? }

  function ScheduleCalls(steps: seq<Step>): nat
  {
    if steps == [] then 0 else (if Schedules(steps[0]) then 1 else 0) + ScheduleCalls(steps[1..])
  }

  /** A waiting process stays READY or is chosen, and every schedule() brings
      the current process strictly closer to it. */
  lemma StepComesCloser(s: Sched, step: Step, q: nat)
    requires Safe(s) && Legal(s, step) && q < s.count && q != s.current && s.procs[q].state == Ready
    ensures var s1 := Do(s, step);
            && (s1.current == q || s1.procs[q].state == Ready)
            && (if Schedules(step) then Distance(s1.current, q) < Distance(s.current, q) else s1.current == s.current)
  {
    match step
    case Tick(rsp) =>
      ScanFindsReady(s, rsp);
      PickIsFirstReady(Save(s, rsp), s.current, s.count, 1);
    case Exit(rsp) =>
      assert Revive(Kill(s)) == s;
      ScanFindsReady(Kill(s), rsp);
      PickIsFirstReady(Save(Kill(s), rsp), s.current, s.count, 1);
    case Create(_) =>
    case CreateFails(_) =>
  }

  lemma {:induction false} WaitIsBounded(trace: seq<Sched>, steps: seq<Step>, q: nat)
    requires Run(trace, steps) && q < trace[0].count && trace[0].procs[q].state == Ready
    requires forall k :: 0 <= k < |trace| ==> trace[k].current != q
    ensures ScheduleCalls(steps) < Distance(trace[0].current, q)
    decreases |steps|
  {
    if steps != [] {
      assert RunStep(trace[0], trace[1], steps[0]);
      StepIsSafe(trace[0], steps[0]);
      StepComesCloser(trace[0], steps[0], q);
      RunTail(trace, steps);
      WaitIsBounded(trace[1..], steps[1..], q);
    }
  }

  lemma RunTail(trace: seq<Sched>, steps: seq<Step>)
    requires Run(trace, steps) && steps != []
    ensures Run(trace[1..], steps[1..])
  {
    RunIsSafe(trace, steps, 1);
    forall k | 0 <= k < |steps[1..]| ensures RunStep(trace[1..][k], trace[1..][k + 1], steps[1..][k]) {
      var n := k + 1;
      assert RunStep(trace[n], trace[n + 1], steps[n]);
    }
  }

  /** A READY process runs within 15 schedule() calls, whatever is created,
      killed or preempted meanwhile. */
  lemma ChosenWithin15(trace: seq<Sched>, steps: seq<Step>, q: nat)
    requires Run(trace, steps) && q < trace[0].count && trace[0].procs[q].state == Ready
    requires ScheduleCalls(steps) >= 15
    ensures exists k :: 0 <= k < |trace| && trace[k].current == q
  {
    if forall k :: 0 <= k < |trace| ==> trace[k].current != q {
      WaitIsBounded(trace, steps, q);
    }
  }
}
