/** exec from the disk to the new process's memory (src/kernel/kernel.c:274-361):
    the file's sectors are read to the load area, an address space is made,
    and the image is placed in it. */
module Exec {
  import opened Options
  import opened Pmm
  import opened Paging
  import opened Mapping
  import opened AddressSpaces
  import opened Loading
  import opened LoadArea
  import opened Elf
  import opened VirtualMemory
  import opened LoadProgress
  import opened TakenFrames
  import opened DirectView
  import opened Loader
  import opened FlatBinary
  import Volume
  import Files
  import Fat16
  import Mount
  import FileTree
  import FatTable
  import Directory
  import Names

  // ---------------------------------------------------------------------
  // Programs
  // ---------------------------------------------------------------------

  /** A file that can be looked at as a program: its own bytes tell whether it
      is an ELF file, and if it is one, headers and segments are inside. */
  predicate Program(file: seq<nat>)
  {
    Decided(file) && FlatFile(file) && (IsElf(file) ==> HeadersInside(file) && AllSane(file, Loadable(file)))
  }

  /** The segments that a program file asks for. */
  function Segments(file: seq<nat>): (segs: seq<Segment>)
    requires Program(file)
    ensures AllSane(file, segs)
  {
    FlatIsSane(file);
    if IsElf(file) then Loadable(file) else [FlatSegment(file)]
  }

  function PlanOf(file: seq<nat>): (plan: seq<PageLoad>)
    requires Program(file)
    ensures FullPaths(plan)
  {
    Plan(file, Segments(file))
  }

  /** What the loaders do not check, but the image depends on. */
  ghost predicate Proper(file: seq<nat>)
    requires Program(file)
  {
    IsElf(file) ==> Supported(file) && EntryPoint(file) != 0 && DistinctPages(PlanOf(file))
  }

  /** Loading a proper file under root, from ph to ph1, succeeded and left the
      file's image in place exactly if the free frames covered the demand. */
  ghost predicate ShowsExactly(file: seq<nat>, ph: Phys, root: nat, ph1: Phys, ok: bool)
    requires Program(file)
  {
    ok && ImageLoaded(ph1, root, file, Segments(file)) <==> Demand(ph, root, PlanOf(file)) <= FreeCount(ph.used)
  }

  // ---------------------------------------------------------------------
  // The image
  // ---------------------------------------------------------------------

  /** The file is in the load area, and loading it will leave it there and in
      the kernel's sight. */
  ghost predicate InPlace(ph: Phys, places: map<nat, Place>, root: nat, kernel: nat, file: seq<nat>)
  {
    && Program(file) && Proper(file) && Buffered(ph, file) && AreaClear(places, |file|)
    && Shielded(ph, root, PlanOf(file), |file|)
    && Direct(ph, places, kernel, PlanOf(file), Demand(ph, root, PlanOf(file)), |file|)
  }

  lemma InPlaceIsReady(ph: Phys, places: map<nat, Place>, root: nat, kernel: nat, file: seq<nat>)
    requires InPlace(ph, places, root, kernel, file)
    ensures IsElf(AreaBytes(ph.frames, 0, 4)) <==> IsElf(file)
    ensures IsElf(file) ==> Ready(ph, places, root, kernel, file) && JobOf(file).plan == PlanOf(file)
    ensures !IsElf(file) ==> FlatReady(ph, places, root, kernel, file) && FlatJob(file).plan == PlanOf(file)
  {
    DecidedByFile(ph.frames, file);
    if !IsElf(file) {
      OnePlan(file);
    }
  }

  /** Where a program starts. */
  function StartOf(file: seq<nat>): nat
    requires Program(file)
  {
    if IsElf(file) then EntryPoint(file) else FLAT_BASE
  }

  /** A flat program starts with its first byte. */
  lemma FlatStartsAtFirstByte(ph: Phys, root: nat, file: seq<nat>)
    requires Program(file) && !IsElf(file) && file != [] && ImageLoaded(ph, root, file, Segments(file))
    ensures VirtualByte(ph, root, StartOf(file)) == Some(file[0])
  {
    FlatIsSane(file);
    FlatImage(ph, root, file, 0);
  }

  /** The choice between the two loaders. */
  method LoadImage(vmm: Vmm, root: nat, size: nat,
                   ghost places: map<nat, Place>, ghost kernel: nat, ghost file: seq<nat>)
    returns (entry: Option<nat>, ghost pr: Progress)
    requires vmm.Valid() && Separated(vmm.View(), places) && IsRoot(places, root)
    modifies vmm.pmm.bitmap, vmm.frames
    ensures Follows(vmm, root, pr) && pr.trace[0] == old(vmm.View()) && pr.maps[0] == places
    ensures InPlace(old(vmm.View()), places, root, kernel, file) && size == |file| ==>
              && ShowsExactly(file, old(vmm.View()), root, vmm.View(), entry.Some?)
              && (entry.Some? ==> entry.value == StartOf(file))
              && SeesItsWork(pr, kernel, |file|) && AreaClear(Places(pr), |file|)
  {
    if InPlace(vmm.View(), places, root, kernel, file) {
      InPlaceIsReady(vmm.View(), places, root, kernel, file);
    }
    if IsElf(Peek(vmm.frames, 0, 4)) {
      var e, ok;
      e, ok, pr := LoadFile(vmm, root, places, kernel, file);
      entry := if e == 0 then None else Some(e);
    } else {
      var ok;
      ok, pr := LoadFlat(vmm, root, size, places, kernel, file);
      entry := if ok then Some(FLAT_BASE) else None;
    }
  }

  // ---------------------------------------------------------------------
  // Memory that differs in the load area only
  // ---------------------------------------------------------------------

  ghost predicate SameOutside(ph: Phys, ph1: Phys, n: nat)
  {
    && ph1.used == ph.used && |ph1.frames| == |ph.frames|
    && forall f :: 0 <= f < |ph.frames| && !InArea(f, n) ==> ph1.frames[f] == ph.frames[f]
  }

  lemma SharingKeptOutside(s: System, ph1: Phys, places: map<nat, Place>, n: nat)
    requires Sharing(s, places) && SameOutside(s.ph, ph1, n) && AreaClear(places, n)
    ensures Sharing(s.(ph := ph1), places) && SameTables(s.ph, ph1, places)
  {
    forall t, i | t in places && 0 <= i < ENTRIES && |places[t].path| < 3 && Present(EntryAt(ph1, t, i))
      ensures Linked(ph1, places, t, i)
    {
      assert EntryAt(ph1, t, i) == EntryAt(s.ph, t, i) && Linked(s.ph, places, t, i);
    }
    forall r | r in s.roots ensures EntryAt(ph1, r, 0) == EntryAt(s.ph, r, 0) {
      assert IsRoot(places, r);
    }
  }

  // ---------------------------------------------------------------------
  // A new address space
  // ---------------------------------------------------------------------

  /** The frames that exec takes: one for the PML4, and what the image asks for
      in the new address space. */
  function ExecDemand(ph: Phys, kernel: nat, file: seq<nat>): nat
    requires |ph.used| == |ph.frames| && Program(file)
  {
    var (ph1, pml4) := CreateUser(ph, kernel);
    if pml4.None? then 1 else 1 + Demand(ph1, pml4.value, PlanOf(file))
  }

  /** What a caller can check before exec: there is a frame for the PML4; the
      area is reserved, or the frames below it cover all that is taken. */
  ghost predicate Spacious(ph: Phys, kernel: nat, file: seq<nat>)
    requires |ph.used| == |ph.frames| && Program(file)
  {
    && CreateUser(ph, kernel).1.Some?
    && (AreaReserved(ph.used, |file|) || ExecDemand(ph, kernel, file) <= Room(ph.used))
  }

  /** And the kernel sees the memory that is worked on, with no page of the
      program coming to lie there. */
  ghost predicate Roomy(ph: Phys, places: map<nat, Place>, kernel: nat, file: seq<nat>)
    requires |ph.used| == |ph.frames| && Program(file)
  {
    Spacious(ph, kernel, file) && Direct(ph, places, kernel, PlanOf(file), ExecDemand(ph, kernel, file), |file|)
  }

  ghost function PlacesWith(places: map<nat, Place>, root: nat): map<nat, Place>
  {
    places[root := Place(Own(root), [])]
  }

  /** The new PML4 is taken from outside the area then, and leaves room for
      the image. */
  lemma SpaciousIsShielded(ph: Phys, places: map<nat, Place>, kernel: nat, file: seq<nat>)
    requires Separated(ph, places) && Program(file) && AreaClear(places, |file|) && Spacious(ph, kernel, file)
    ensures var (ph1, pml4) := CreateUser(ph, kernel);
            && !InArea(pml4.value, |file|) && Shielded(ph1, pml4.value, PlanOf(file), |file|)
            && (Buffered(ph, file) ==> Buffered(ph1, file))
  {
    var (ph1, pml4) := CreateUser(ph, kernel);
    AllocCounts(ph.used);
    if !AreaReserved(ph.used, |file|) {
      TakenFromRoom(ph.used);
    }
    if Buffered(ph, file) {
      NewUserKeepsFile(ph, kernel, file);
    }
  }

  lemma NewUserKeepsFile(ph: Phys, kernel: nat, file: seq<nat>)
    requires |ph.used| == |ph.frames| && CreateUser(ph, kernel).1.Some? && Buffered(ph, file)
    requires !InArea(CreateUser(ph, kernel).1.value, |file|)
    ensures Buffered(CreateUser(ph, kernel).0, file)
  {
    KeptIsBuffered(ph, CreateUser(ph, kernel).0, file);
  }

  /** What is taken after the lowest free frame was taken already before. */
  lemma TakenLater(used: seq<bool>, d: nat, f: nat)
    requires Alloc(used).1 != 0 && WouldTake(Alloc(used).0, d, f)
    ensures WouldTake(used, 1 + d, f)
  {
    var b := FirstFree(used);
    if b < f {
      FreeCountTake(used[..f], b);
      assert used[b := true][..f] == used[..f][b := true];
    } else {
      assert used[b := true][..f] == used[..f];
    }
  }

  lemma LowestIsTaken(used: seq<bool>, d: nat)
    requires Alloc(used).1 != 0 && d > 0
    ensures WouldTake(used, d, FirstFree(used))
  {
    NoFreeBelow(used, FirstFree(used));
  }

  /** What the load works on, exec as a whole works on. */
  lemma TouchedBefore(s: System, places: map<nat, Place>, d: nat, n: nat, f: nat)
    requires Sharing(s, places) && CreateUser(s.ph, s.kernel).1.Some?
    requires Touched(CreateUser(s.ph, s.kernel).0, PlacesWith(places, CreateUser(s.ph, s.kernel).1.value), d, n, f)
    ensures Touched(s.ph, places, 1 + d, n, f)
  {
    var (ph1, pml4) := CreateUser(s.ph, s.kernel);
    if f == pml4.value {
      LowestIsTaken(s.ph.used, 1 + d);
    } else if WouldTake(ph1.used, d, f) {
      TakenLater(s.ph.used, d, f);
    }
  }

  /** And the kernel goes on seeing it. */
  lemma RoomyIsDirect(s: System, places: map<nat, Place>, file: seq<nat>)
    requires Sharing(s, places) && Program(file) && Roomy(s.ph, places, s.kernel, file)
    ensures var (ph1, pml4) := CreateUser(s.ph, s.kernel);
            Direct(ph1, PlacesWith(places, pml4.value), s.kernel, PlanOf(file),
                   Demand(ph1, pml4.value, PlanOf(file)), |file|)
  {
    var (ph1, pml4) := CreateUser(s.ph, s.kernel);
    var d, n, plan := Demand(ph1, pml4.value, PlanOf(file)), |file|, PlanOf(file);
    CreateUserEffect(s.ph, places, s.kernel);
    assert SameTables(s.ph, ph1, places);
    forall f | Touched(ph1, PlacesWith(places, pml4.value), d, n, f)
      ensures Reaches(ph1, s.kernel, f) && Spared(plan, f)
    {
      TouchedBefore(s, places, d, n, f);
      SameReach(s.ph, ph1, places, s.kernel, f);
    }
  }

  lemma NewUserOutside(ph: Phys, ph1: Phys, kernel: nat, n: nat)
    requires |ph.used| == |ph.frames| && SameOutside(ph, ph1, n) && !InArea(kernel, n)
    ensures SameOutside(CreateUser(ph, kernel).0, CreateUser(ph1, kernel).0, n)
    ensures CreateUser(ph, kernel).1 == CreateUser(ph1, kernel).1
  {
    assert EntryAt(ph1, kernel, 0) == EntryAt(ph, kernel, 0);
  }

  /** The demand is the same before and after the file is read. */
  lemma DemandKeptOutside(s: System, ph1: Phys, places: map<nat, Place>, file: seq<nat>)
    requires Sharing(s, places) && Program(file) && Roomy(s.ph, places, s.kernel, file)
    requires SameOutside(s.ph, ph1, |file|) && AreaClear(places, |file|)
    ensures CreateUser(ph1, s.kernel).1 == CreateUser(s.ph, s.kernel).1
    ensures var pml4 := CreateUser(s.ph, s.kernel).1;
            Demand(CreateUser(ph1, s.kernel).0, pml4.value, PlanOf(file))
            == Demand(CreateUser(s.ph, s.kernel).0, pml4.value, PlanOf(file))
    ensures CreateUser(ph1, s.kernel).0.used == CreateUser(s.ph, s.kernel).0.used
  {
    var (a, pml4) := CreateUser(s.ph, s.kernel);
    SpaciousIsShielded(s.ph, places, s.kernel, file);
    NewUserKeepsSharing(s, places);
    NewUserOutside(s.ph, ph1, s.kernel, |file|);
    SameDemand(a, CreateUser(ph1, s.kernel).0, PlacesWith(places, pml4.value), pml4.value, PlanOf(file));
  }

  /** So is the whole condition. */
  lemma RoomyKeptOutside(s: System, ph1: Phys, places: map<nat, Place>, file: seq<nat>)
    requires Sharing(s, places) && Program(file) && Roomy(s.ph, places, s.kernel, file)
    requires SameOutside(s.ph, ph1, |file|) && AreaClear(places, |file|)
    ensures Roomy(ph1, places, s.kernel, file)
  {
    DemandKeptOutside(s, ph1, places, file);
    SharingKeptOutside(s, ph1, places, |file|);
    var d, n := ExecDemand(s.ph, s.kernel, file), |file|;
    forall f | Touched(ph1, places, d, n, f) ensures Reaches(ph1, s.kernel, f) && Spared(PlanOf(file), f) {
      assert Touched(s.ph, places, d, n, f);
      SameReach(s.ph, ph1, places, s.kernel, f);
    }
  }

  /** The file is a proper program of the given size, and there is room. */
  ghost predicate Fits(s: System, places: map<nat, Place>, file: seq<nat>, size: nat)
    requires |s.ph.used| == |s.ph.frames|
  {
    |file| == size && Program(file) && Proper(file) && Roomy(s.ph, places, s.kernel, file)
  }

  /** What exec hands on to the creation of a process. */
  datatype Launch = Launch(entry: Option<nat>, pml4: Option<nat>)

  /** What exec comes to, from s to s1: an address space more, if there was a
      frame for it, and in it the image of a file that fits, with its starting
      point handed on, exactly if the frames sufficed. The frames it took are
      the lowest that were free. */
  ghost predicate Spawned(s: System, places: map<nat, Place>, s1: System, file: seq<nat>, size: nat, l: Launch)
    requires |s.ph.used| == |s.ph.frames|
  {
    var (made, pml4) := CreateUser(s.ph, s.kernel);
    && l.pml4 == pml4 && s1.kernel == s.kernel && LowestFirst(s.ph.used, s1.ph.used)
    && if pml4.None? then l.entry == None && s1.roots == s.roots
       else
         && s1.roots == s.roots + {pml4.value}
         && (Fits(s, places, file, size) ==>
               && ShowsExactly(file, made, pml4.value, s1.ph, l.entry.Some?)
               && (l.entry.Some? ==> l.entry.value == StartOf(file)))
  }

  /** The address spaces as the machine has them. */
  ghost function Spaces(vmm: Vmm, roots: set<nat>): System
    requires vmm.Valid()
    reads vmm, vmm.pmm, vmm.pmm.bitmap, vmm.frames
  {
    System(vmm.View(), vmm.kernelPml4, roots)
  }

  /** The address spaces are in order. */
  ghost predicate InOrder(vmm: Vmm, places: map<nat, Place>, roots: set<nat>)
    reads vmm, vmm.pmm, vmm.pmm.bitmap, vmm.frames
  {
    vmm.Valid() && Sharing(Spaces(vmm, roots), places)
  }

  /** All along the load the kernel saw what it worked on. */
  ghost predicate Seen(pr: Progress, kernel: nat, n: nat)
  {
    |pr.trace| == |pr.maps| && SeesItsWork(pr, kernel, n)
  }

  lemma FitsIsInPlace(s: System, places: map<nat, Place>, file: seq<nat>, size: nat)
    requires Sharing(s, places) && AreaClear(places, size) && Fits(s, places, file, size) && Buffered(s.ph, file)
    ensures var (made, pml4) := CreateUser(s.ph, s.kernel);
            InPlace(made, PlacesWith(places, pml4.value), pml4.value, s.kernel, file)
  {
    SpaciousIsShielded(s.ph, places, s.kernel, file);
    RoomyIsDirect(s, places, file);
  }

  lemma TakesLowest(used: seq<bool>, pr: Progress, root: nat, ph: Phys)
    requires Tracks(pr, root, ph) && pr.trace[0].used == Alloc(used).0
    ensures LowestFirst(used, ph.used)
  {
    LoadTakesLowest(pr.trace, root, pr.done, 0, |pr.done|);
    assert LowestFirst(used, Alloc(used).0);
    LowestFirstTwice(used, Alloc(used).0, ph.used);
  }

  /** An address space for the program, and the image in it. */
  method Spawn(vmm: Vmm, size: nat, ghost places: map<nat, Place>, ghost roots: set<nat>, ghost file: seq<nat>)
    returns (l: Launch, ghost places1: map<nat, Place>, ghost roots1: set<nat>, ghost pr: Progress)
    requires InOrder(vmm, places, roots)
    requires AreaClear(places, size) && (|file| == size ==> Buffered(vmm.View(), file))
    modifies vmm.pmm.bitmap, vmm.frames
    ensures InOrder(vmm, places1, roots1)
    ensures Spawned(old(Spaces(vmm, roots)), places, Spaces(vmm, roots1), file, size, l)
    ensures Fits(old(Spaces(vmm, roots)), places, file, size) ==>
              AreaClear(places1, size) && Seen(pr, vmm.kernelPml4, size)
  {
    ghost var s := Spaces(vmm, roots);
    NewUserKeepsSharing(s, places);
    if Fits(s, places, file, size) {
      FitsIsInPlace(s, places, file, size);
    }
    var pml4 := vmm.CreateUserPml4();
    if pml4.None? {
      return Launch(None, None), places, roots, Begin(s.ph, places);
    }
    assert AddressSpaces.Step(s, NewUser).ph == vmm.View();
    var entry;
    entry, pr := LoadImage(vmm, pml4.value, size, PlacesWith(places, pml4.value), s.kernel, file);
    LoadKeepsSharing(pr, pml4.value, vmm.View(), s.kernel, roots + {pml4.value}, |pr.done|);
    TakesLowest(s.ph.used, pr, pml4.value, vmm.View());
    return Launch(entry, pml4), Places(pr), roots + {pml4.value}, pr;
  }

  // ---------------------------------------------------------------------
  // From the disk
  // ---------------------------------------------------------------------

  /** What the reading loop delivers. */
  ghost function FileRead(v: Volume.Vol, cs: seq<nat>, size: nat): (file: seq<nat>)
    requires size > 0 ==> Files.Readable(v, cs)
    ensures |file| <= size
  {
    if size == 0 then [] else Files.Cut(Files.Bytes(v, Files.FirstSectors(v, cs)), size)
  }

  /** The frames of the area are in memory and hold no page table. */
  ghost predicate AreaUsable(n: nat, places: map<nat, Place>, size: nat)
  {
    AREA * BLOCK_SIZE + size <= n * BLOCK_SIZE && AreaClear(places, size)
  }

  lemma ReadOutside(ph: Phys, ph1: Phys, file: seq<nat>, size: nat)
    requires ph1.used == ph.used && |file| <= size
    requires if size == 0 then ph1.frames == ph.frames && file == [] else Files.Filled(ph.frames, ph1.frames, file)
    ensures SameOutside(ph, ph1, size) && Buffered(ph1, file)
  {
  }

  /** The file is read over the load area; the address spaces do not notice. */
  method ReadProgram(fat: Fat16.Driver, vmm: Vmm, c: nat, size: nat,
                     ghost cs: seq<nat>, ghost places: map<nat, Place>, ghost roots: set<nat>)
    requires fat.Valid() && (size > 0 ==> Files.Readable(fat.Abs(), cs) && cs[0] == c)
    requires InOrder(vmm, places, roots) && AreaUsable(vmm.frames.Length, places, size)
    modifies vmm.frames
    ensures InOrder(vmm, places, roots)
    ensures SameOutside(old(vmm.View()), vmm.View(), size) && Buffered(vmm.View(), FileRead(fat.Abs(), cs, size))
  {
    ghost var s := Spaces(vmm, roots);
    Files.ReadToArea(fat, c, size, vmm.frames, cs);
    ReadOutside(s.ph, vmm.View(), FileRead(fat.Abs(), cs, size), size);
    SharingKeptOutside(s, vmm.View(), places, size);
  }

  /** Reading the file first does not change what exec comes to. */
  lemma SpawnedOutside(s: System, places: map<nat, Place>, ph: Phys, s1: System, file: seq<nat>, size: nat, l: Launch)
    requires Sharing(s, places) && AreaClear(places, size) && SameOutside(s.ph, ph, size)
    requires |ph.used| == |ph.frames| && Spawned(s.(ph := ph), places, s1, file, size, l)
    ensures Spawned(s, places, s1, file, size, l)
    ensures Fits(s, places, file, size) ==> Fits(s.(ph := ph), places, file, size)
  {
    NewUserOutside(s.ph, ph, s.kernel, size);
    if Fits(s, places, file, size) {
      RoomyKeptOutside(s, ph, places, file);
      DemandKeptOutside(s, ph, places, file);
    }
  }

  /** exec. The address spaces stay in order, so that the next one can follow;
      and what is read is what the new process sees, exactly when the frames
      sufficed, provided that no frame of the load area is taken meanwhile and
      no page of the program hides the memory that is worked on. */
  method Exec(fat: Fat16.Driver, vmm: Vmm, c: nat, size: nat,
              ghost cs: seq<nat>, ghost places: map<nat, Place>, ghost roots: set<nat>)
    returns (l: Launch, ghost places1: map<nat, Place>, ghost roots1: set<nat>, ghost pr: Progress)
    requires fat.Valid() && (size > 0 ==> Files.Readable(fat.Abs(), cs) && cs[0] == c)
    requires InOrder(vmm, places, roots) && AreaUsable(vmm.frames.Length, places, size)
    modifies vmm.pmm.bitmap, vmm.frames
    ensures InOrder(vmm, places1, roots1)
    ensures var file := FileRead(fat.Abs(), cs, size);
            && Spawned(old(Spaces(vmm, roots)), places, Spaces(vmm, roots1), file, size, l)
            && (Fits(old(Spaces(vmm, roots)), places, file, size) ==>
                  AreaClear(places1, size) && Seen(pr, vmm.kernelPml4, size))
  {
    ghost var s := Spaces(vmm, roots);
    ghost var file := FileRead(fat.Abs(), cs, size);
    ReadProgram(fat, vmm, c, size, cs, places, roots);
    ghost var ph := vmm.View();
    l, places1, roots1, pr := Spawn(vmm, size, places, roots, file);
    SpawnedOutside(s, places, ph, Spaces(vmm, roots1), file, size, l);
  }

  // ---------------------------------------------------------------------
  // The exec command
  // ---------------------------------------------------------------------

  /** The clusters of a live chain are on the volume. */
  lemma ChainOnVolume(v: Volume.Vol, fs: FileTree.Fs, c: nat)
    requires Mount.Good(v, fs) && c in fs.chains
    ensures Volume.OnVolume(v, Volume.ChainSectors(v, fs.chains[c])) && Files.Readable(v, fs.chains[c])
    ensures fs.chains[c][0] == c
  {
    assert FileTree.ChainOk(fs, c);
    var cs := fs.chains[c];
    var ss := Volume.ChainSectors(v, cs);
    forall j | 0 <= j < |ss| ensures ss[j] < |v.sec| && |v.sec[ss[j]]| == 512 {
      var q, r := Volume.SectorOrigin(v, cs, j);
      assert Volume.ClusterStart(v, cs[q]) + v.spc <= |v.sec|;
    }
    forall j | 0 <= j < |cs| ensures Volume.ClusterStart(v, cs[j]) < |v.sec| {
      assert Volume.ClusterStart(v, cs[j]) + v.spc <= |v.sec|;
    }
  }

  /** What find returns for g in the current directory. */
  ghost function Named(v: Volume.Vol, fs: FileTree.Fs, g: seq<nat>): Option<Directory.Entry>
    requires Volume.OnVolume(v, Mount.SectorsOf(v, fs, fs.cwd))
  {
    var r := Directory.Find(Mount.Here(v, fs), g);
    if r.None? then None else Some(Mount.Here(v, fs)[r.value])
  }

  /** The first cluster of a live file or directory, or none for an empty one. */
  ghost predicate HasChain(fs: FileTree.Fs, e: Directory.Entry)
  {
    Directory.FileSize(e) > 0 ==> Directory.Cluster(e) in fs.chains
  }

  ghost function FileOf(v: Volume.Vol, fs: FileTree.Fs, e: Directory.Entry): seq<nat>
    requires Mount.Good(v, fs) && HasChain(fs, e)
  {
    var c := Directory.Cluster(e);
    if c in fs.chains then ChainOnVolume(v, fs, c); FileRead(v, fs.chains[c], Directory.FileSize(e)) else []
  }

  /** With one sector per cluster and a chain that is long enough for the size,
      that is the file. */
  lemma FileOfIsContents(v: Volume.Vol, fs: FileTree.Fs, e: Directory.Entry)
    requires Mount.Good(v, fs) && v.spc == 1 && Directory.Cluster(e) in fs.chains
    requires Directory.FileSize(e) <= 512 * |fs.chains[Directory.Cluster(e)]|
    ensures Volume.OnVolume(v, Volume.ChainSectors(v, fs.chains[Directory.Cluster(e)]))
    ensures FileOf(v, fs, e) == Files.Contents(v, fs.chains[Directory.Cluster(e)], Directory.FileSize(e))
    ensures |FileOf(v, fs, e)| == Directory.FileSize(e)
  {
    ChainOnVolume(v, fs, Directory.Cluster(e));
    Files.ReadsTheFile(v, fs.chains[Directory.Cluster(e)], Directory.FileSize(e));
  }

  /** The driver has the volume mounted, and g is a name that was typed. */
  ghost predicate AtPrompt(fat: Fat16.Driver, fs: FileTree.Fs, g: seq<nat>)
    reads fat
  {
    && fat.Valid() && Mount.Good(fat.Abs(), fs) && fat.cwd == fs.cwd && Names.CString(g)
    && Volume.OnVolume(fat.Abs(), Mount.SectorsOf(fat.Abs(), fs, fs.cwd))
  }

  /** If there is a file of that name, its chain can be read to the load area. */
  ghost predicate CanRead(fat: Fat16.Driver, fs: FileTree.Fs, g: seq<nat>, n: nat, places: map<nat, Place>)
    requires AtPrompt(fat, fs, g)
    reads fat
  {
    var e := Named(fat.Abs(), fs, g);
    e.Some? ==> HasChain(fs, e.value) && AreaUsable(n, places, Directory.FileSize(e.value))
  }

  /** The lookup at the beginning of exec. */
  method FindProgram(fat: Fat16.Driver, g: seq<nat>, ghost fs: FileTree.Fs) returns (found: bool, e: Directory.Entry)
    requires AtPrompt(fat, fs, g)
    ensures found <==> Named(fat.Abs(), fs, g).Some?
    ensures found ==> e == Named(fat.Abs(), fs, g).value
  {
    Fat16.GoodDirAt(fat.Abs(), fs, fat.cwd);
    found, e := fat.FindFile(fat.cwd, g, fat.Abs(), Fat16.ChainOf(fs, fat.cwd));
  }

  /** What exec by name comes to. */
  ghost predicate Commanded(v: Volume.Vol, fs: FileTree.Fs, g: seq<nat>,
                            s: System, places: map<nat, Place>, s1: System, found: bool, l: Launch)
    requires Mount.Good(v, fs) && Volume.OnVolume(v, Mount.SectorsOf(v, fs, fs.cwd)) && |s.ph.used| == |s.ph.frames|
  {
    var e := Named(v, fs, g);
    && (found <==> e.Some?)
    && if e.None? then l == Launch(None, None) && s1 == s
       else
         HasChain(fs, e.value) && Spawned(s, places, s1, FileOf(v, fs, e.value), Directory.FileSize(e.value), l)
  }

  /** exec by name: a name that is not found changes nothing; otherwise the
      named file is what the new process sees, exactly when the frames
      sufficed, and the next command finds everything in order. */
  method ExecCommand(fat: Fat16.Driver, vmm: Vmm, g: seq<nat>,
                     ghost fs: FileTree.Fs, ghost places: map<nat, Place>, ghost roots: set<nat>)
    returns (found: bool, l: Launch, ghost places1: map<nat, Place>, ghost roots1: set<nat>)
    requires AtPrompt(fat, fs, g) && InOrder(vmm, places, roots) && CanRead(fat, fs, g, vmm.frames.Length, places)
    modifies vmm.pmm.bitmap, vmm.frames
    ensures InOrder(vmm, places1, roots1)
    ensures Commanded(fat.Abs(), fs, g, old(Spaces(vmm, roots)), places, Spaces(vmm, roots1), found, l)
    ensures !found ==> places1 == places
  {
    var e;
    found, e := FindProgram(fat, g, fs);
    if !found {
      return false, Launch(None, None), places, roots;
    }
    ghost var cs := Fat16.ChainOf(fs, Directory.Cluster(e));
    if Directory.Cluster(e) in fs.chains {
      ChainOnVolume(fat.Abs(), fs, Directory.Cluster(e));
    }
    ghost var pr;
    l, places1, roots1, pr := Exec(fat, vmm, Directory.Cluster(e), Directory.FileSize(e), cs, places, roots);
  }

  // ---------------------------------------------------------------------
  // Several processes
  // ---------------------------------------------------------------------

  /** Below 512 GB a byte is the same for every process. */
  lemma ByteIsShared(s: System, places: map<nat, Place>, r1: nat, r2: nat, x: nat)
    requires Sharing(s, places) && r1 in s.roots && r2 in s.roots && x < 0x80_0000_0000
    ensures VirtualByte(s.ph, r1, x) == VirtualByte(s.ph, r2, x)
  {
    TopIsZero(x);
    assert EntryAt(s.ph, r1, 0) == EntryAt(s.ph, r2, 0);
  }

  /** After a flat file was loaded for one process, every process sees it at
      256 MB: an earlier one has lost what it had there. */
  lemma LastLoadIsSeenByAll(s: System, places: map<nat, Place>, r1: nat, r2: nat, file: seq<nat>)
    requires Sharing(s, places) && r1 in s.roots && r2 in s.roots && FlatFile(file)
    requires Sane(file, FlatSegment(file)) && ImageLoaded(s.ph, r2, file, [FlatSegment(file)])
    ensures forall x: nat :: x < |file| ==> VirtualByte(s.ph, r1, FLAT_BASE + x) == Some(file[x])
  {
    forall x: nat | x < |file| ensures VirtualByte(s.ph, r1, FLAT_BASE + x) == Some(file[x]) {
      FlatImage(s.ph, r2, file, x);
      ByteIsShared(s, places, r1, r2, FLAT_BASE + x);
    }
  }

  /** Two execs: once the second one has loaded its flat file, the process of
      the first reads the second file's bytes at 256 MB. */
  lemma SecondExecOverwritesFirst(s: System, places: map<nat, Place>, s1: System, places1: map<nat, Place>,
                                  file: seq<nat>, size: nat, l: Launch, first: nat)
    requires |s.ph.used| == |s.ph.frames| && Spawned(s, places, s1, file, size, l)
    requires Sharing(s1, places1) && first in s.roots && Fits(s, places, file, size) && !IsElf(file)
    requires var (made, pml4) := CreateUser(s.ph, s.kernel);
             Demand(made, pml4.value, PlanOf(file)) <= FreeCount(made.used)
    ensures forall x: nat :: x < size ==> VirtualByte(s1.ph, first, FLAT_BASE + x) == Some(file[x])
  {
    FlatIsSane(file);
    LastLoadIsSeenByAll(s1, places1, first, l.pml4.value, file);
  }
}
