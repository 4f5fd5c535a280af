/** exec to its end (src/kernel/kernel.c:263-363): the program is loaded and a
    process is created that will start at its entry point in its address
    space. */
module Launching {
  import opened Options
  import opened Pmm
  import opened Paging
  import opened TakenFrames
  import opened VirtualMemory
  import opened ProcessTable
  import opened Exec
  import Context
  import Scheduler
  import AddressSpaces
  import Fat16
  import FileTree
  import Mount
  import Volume

  /** Stacks that are owned stay owned while frames are taken. */
  lemma StillOwned(b: Context.Book, count: nat, used: seq<bool>, used1: seq<bool>)
    requires count <= |b.stacks| && StacksOwned(b, count, used) && LowestFirst(used, used1)
    ensures StacksOwned(b, count, used1)
  {
    forall i | 0 <= i < count ensures StackOwned(b.stacks[i], used1) {
      assert StackOwned(b.stacks[i], used);
    }
  }

  /** The processes are in order, and their stacks are their own. */
  ghost predicate Ordered(table: Processes, cpu: Context.Regs, b: Context.Book)
    reads table, table.procs, table.pmm, table.pmm.bitmap
  {
    && table.Valid() && table.pmm.Valid() && Context.Coherent(table.Now(cpu), b)
    && StacksOwned(b, table.processCount, table.pmm.Used())
  }

  /** The shell's part of the machine before a command: the volume and the
      address spaces, with the name that was typed. */
  ghost predicate Before(fat: Fat16.Driver, vmm: Vmm, g: seq<nat>, v: Volume.Vol, fs: FileTree.Fs,
                         s: AddressSpaces.System, places: map<nat, Place>)
    reads fat, vmm, vmm.pmm, vmm.pmm.bitmap, vmm.frames
  {
    && AtPrompt(fat, fs, g) && v == fat.Abs() && InOrder(vmm, places, s.roots) && s == Spaces(vmm, s.roots)
    && CanRead(fat, fs, g, vmm.frames.Length, places)
  }

  /** The number of processes that an exec adds. */
  function Added(l: Launch, count: nat, used: seq<bool>): (n: nat)
  {
    if l.entry.Some? && CanSpawn(count, used) then 1 else 0
  }

  /** The whole command. What exec comes to is said by Commanded, for the state
      s1 in which the image is complete; the frames are not written again. If a
      program was loaded and the table and memory allow it, there is one process
      more, which waits to start at the program's entry point in the program's
      address space. */
  method Run(fat: Fat16.Driver, vmm: Vmm, table: Processes, g: seq<nat>,
             ghost v: Volume.Vol, ghost fs: FileTree.Fs, ghost s: AddressSpaces.System, ghost places: map<nat, Place>,
             ghost cpu: Context.Regs, ghost b: Context.Book)
    returns (found: bool, l: Launch, ghost s1: AddressSpaces.System, ghost b1: Context.Book)
    requires Before(fat, vmm, g, v, fs, s, places) && table.pmm == vmm.pmm && Ordered(table, cpu, b)
    modifies vmm.pmm.bitmap, vmm.frames, table`processCount, table`words, table.procs
    ensures Commanded(v, fs, g, s, places, s1, found, l) && vmm.frames[..] == s1.ph.frames && Ordered(table, cpu, b1)
    ensures l.entry.None? ==> table.View() == old(table.View()) && b1 == b
    ensures table.processCount == old(table.processCount) + Added(l, old(table.processCount), s1.ph.used)
    ensures table.processCount > old(table.processCount) ==>
              && l.entry.Some? && l.pml4.Some?
              && StartsAt(table.Now(cpu), b1, old(table.processCount), l.entry.value, l.pml4.value * BLOCK_SIZE)
              && UserStackIsOwn(table.Now(cpu), b1, old(table.processCount), table.pmm.Used())
  {
    found, l, s1 := LoadFor(fat, vmm, table, g, v, fs, s, places, cpu, b);
    b1 := Start(table, l, cpu, b);
  }

  /** Loading the program does not disturb the processes there are. */
  method LoadFor(fat: Fat16.Driver, vmm: Vmm, table: Processes, g: seq<nat>,
                 ghost v: Volume.Vol, ghost fs: FileTree.Fs, ghost s: AddressSpaces.System,
                 ghost places: map<nat, Place>, ghost cpu: Context.Regs, ghost b: Context.Book)
    returns (found: bool, l: Launch, ghost s1: AddressSpaces.System)
    requires Before(fat, vmm, g, v, fs, s, places) && table.pmm == vmm.pmm && Ordered(table, cpu, b)
    modifies vmm.pmm.bitmap, vmm.frames
    ensures Commanded(v, fs, g, s, places, s1, found, l) && vmm.frames[..] == s1.ph.frames && Ordered(table, cpu, b)
    ensures table.pmm.Used() == s1.ph.used
    ensures l.entry.Some? ==> l.pml4.Some?
  {
    ghost var places1, roots1;
    found, l, places1, roots1 := ExecCommand(fat, vmm, g, fs, places, s.roots);
    s1 := Spaces(vmm, roots1);
    CommandTakesLowest(v, fs, g, s, places, s1, found, l);
    StillOwned(b, table.processCount, s.ph.used, table.pmm.Used());
  }

  lemma CommandTakesLowest(v: Volume.Vol, fs: FileTree.Fs, g: seq<nat>,
                           s: AddressSpaces.System, places: map<nat, Place>, s1: AddressSpaces.System,
                           found: bool, l: Launch)
    requires Mount.Good(v, fs) && Volume.OnVolume(v, Mount.SectorsOf(v, fs, fs.cwd)) && |s.ph.used| == |s.ph.frames|
    requires Commanded(v, fs, g, s, places, s1, found, l)
    ensures LowestFirst(s.ph.used, s1.ph.used) && (l.entry.Some? ==> l.pml4.Some?)
  {
  }

  /** The process for what exec has loaded, if it has. */
  method Start(table: Processes, l: Launch, ghost cpu: Context.Regs, ghost b: Context.Book)
    returns (ghost b1: Context.Book)
    requires Ordered(table, cpu, b) && (l.entry.Some? ==> l.pml4.Some?)
    modifies table`processCount, table`words, table.procs, table.pmm.bitmap
    ensures Ordered(table, cpu, b1)
    ensures l.entry.None? ==> table.View() == old(table.View()) && b1 == b && table.pmm.Used() == old(table.pmm.Used())
    ensures table.processCount == old(table.processCount) + Added(l, old(table.processCount), old(table.pmm.Used()))
    ensures table.processCount > old(table.processCount) ==>
              && l.entry.Some?
              && StartsAt(table.Now(cpu), b1, old(table.processCount), l.entry.value, l.pml4.value * BLOCK_SIZE)
              && UserStackIsOwn(table.Now(cpu), b1, old(table.processCount), table.pmm.Used())
  {
    b1 := b;
    if l.entry.Some? {
      b1 := table.SpawnUser(l.entry.value, l.pml4.value * BLOCK_SIZE, cpu, b);
    }
  }
}
