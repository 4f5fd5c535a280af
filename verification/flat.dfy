/** Flat binaries (src/kernel/kernel.c:336-361): the bytes of the load area page
    by page at 256 MB. Unlike the ELF loader this one fills a frame before it
    maps it; the two orders have the same effect. */
module FlatBinary {
  import opened Options
  import opened Pmm
  import opened Paging
  import opened Mapping
  import opened Loading
  import opened LoadArea
  import opened Elf
  import opened VirtualMemory
  import opened LoadProgress
  import opened DirectView
  import opened Loader

  const FLAT_BASE: nat := 0x1000_0000

  // ---------------------------------------------------------------------
  // Filling and mapping commute
  // ---------------------------------------------------------------------

  lemma WriteThenEnsure(ph: Phys, places: map<nat, Place>, f: nat, bytes: seq<nat>, t: nat, i: nat)
    requires Separated(ph, places) && t in places && |places[t].path| < 3 && i < ENTRIES
    requires f < |ph.frames| && f !in places && ph.used[f]
    ensures var (ph1, n) := Ensure(ph, t, i);
            Ensure(WritePage(ph, f, bytes), t, i) == (WritePage(ph1, f, bytes), n)
    ensures Ensure(ph, t, i).0.used[f]
  {
    EnsureCases(ph, places, t, i);
    var (ph1, n) := Ensure(ph, t, i);
    if n.Some? && !Present(EntryAt(ph, t, i)) {
      var (ph2, m) := Ensure(WritePage(ph, f, bytes), t, i);
      assert n.value != f && t != f;
      assert ph2.frames == ph1.frames[f := Page(bytes)];
    }
  }

  lemma {:induction false} WriteThenPopulate(ph: Phys, places: map<nat, Place>, f: nat, bytes: seq<nat>,
                                             t: nat, path: seq<nat>)
    requires Separated(ph, places) && t in places && IsPath(path) && |places[t].path| + |path| < 4
    requires f < |ph.frames| && f !in places && ph.used[f]
    ensures var (ph1, r) := Populate(ph, t, path);
            Populate(WritePage(ph, f, bytes), t, path) == (WritePage(ph1, f, bytes), r)
    decreases |path|
  {
    if path != [] {
      EnsureCases(ph, places, t, path[0]);
      StepDown(ph, places, t, path);
      WriteThenEnsure(ph, places, f, bytes, t, path[0]);
      var (ph1, n) := Ensure(ph, t, path[0]);
      if n.Some? {
        WriteThenPopulate(ph1, places[n.value := Child(places[t], path[0])], f, bytes, n.value, path[1..]);
      }
    }
  }

  /** Writing a live data frame before mapping a page is writing it after. */
  lemma WriteThenMap(ph: Phys, places: map<nat, Place>, f: nat, bytes: seq<nat>,
                     root: nat, path: seq<nat>, paddr: nat, flags: nat)
    requires Separated(ph, places) && IsRoot(places, root) && FullPath(path) && FlagBits(flags)
    requires f < |ph.frames| && f !in places && ph.used[f]
    ensures MapAt(WritePage(ph, f, bytes), root, path, paddr, flags)
            == WritePage(MapAt(ph, root, path, paddr, flags), f, bytes)
  {
    WriteThenPopulate(ph, places, f, bytes, root, path[..3]);
    MapReachesLeaf(ph, places, root, path);
    MapKeepsData(ph, places, root, path, paddr, flags, f);
    PopulateKeepsData(ph, places, root, path[..3], f);
    var (ph1, t) := Populate(ph, root, path[..3]);
    if t.Some? {
      assert t.value != f;
      var e := MakeEntry(paddr, flags);
      assert SetEntry(WritePage(ph1, f, bytes), t.value, path[3], e).frames
          == WritePage(SetEntry(ph1, t.value, path[3], e), f, bytes).frames;
    }
  }

  /** Taking a frame, filling it and then mapping it is a step of a load. */
  lemma FillFirstIsLoadStep(ph: Phys, places: map<nat, Place>, root: nat, page: PageLoad)
    requires Separated(ph, places) && IsRoot(places, root) && FullPath(page.path) && Take(ph).1 != 0
    ensures var (taken, p) := Take(ph);
            && p / BLOCK_SIZE < |taken.frames|
            && var filled := WritePage(taken, p / BLOCK_SIZE, page.bytes);
               Separated(filled, places) && LoadStep(ph, MapAt(filled, root, page.path, p, TABLE_FLAGS), root, page)
  {
    TakeEffect(ph, places);
    var (taken, p) := Take(ph);
    WriteKeepsSeparation(taken, places, p / BLOCK_SIZE, page.bytes);
    WriteThenMap(taken, places, p / BLOCK_SIZE, page.bytes, root, page.path, p, TABLE_FLAGS);
  }

  // ---------------------------------------------------------------------
  // The file as one segment
  // ---------------------------------------------------------------------

  function FlatSegment(file: seq<nat>): Segment
  {
    Segment(FLAT_BASE, |file|, |file|, 0)
  }

  /** File sizes are 32-bit numbers. */
  predicate FlatFile(file: seq<nat>)
  {
    |file| < 0x1_0000_0000
  }

  lemma FlatIsSane(file: seq<nat>)
    requires FlatFile(file)
    ensures Sane(file, FlatSegment(file)) && PageStart(FlatSegment(file)) == FLAT_BASE
    ensures PageCount(FlatSegment(file)) == (|file| + 4095) / 4096 <= 0x10_0000
    ensures forall j: nat :: j < PageCount(FlatSegment(file)) <==> j * 4096 < |file|
  {
  }

  lemma FlatPagesDiffer(file: seq<nat>)
    requires FlatFile(file)
    ensures Sane(file, FlatSegment(file)) && DistinctPages(Pages(file, FlatSegment(file)))
  {
    FlatIsSane(file);
    var s := FlatSegment(file);
    var ps := Pages(file, s);
    forall i, j | 0 <= i < j < |ps| ensures ps[i].path != ps[j].path {
      PathsDiffer(i, j);
      assert ps[i] == LoadOf(file, s, PageStart(s) + i * 4096) && ps[j] == LoadOf(file, s, PageStart(s) + j * 4096);
    }
  }

  lemma PathsDiffer(i: nat, j: nat)
    requires i < j < 0x10_0000
    ensures PathOf(FLAT_BASE + i * 4096) != PathOf(FLAT_BASE + j * 4096)
  {
    FlatPageNumber(i);
    FlatPageNumber(j);
    PathNamesPage(FLAT_BASE + i * 4096, FLAT_BASE + j * 4096);
  }

  lemma FlatPageNumber(i: nat)
    requires i < 0x10_0000
    ensures PageOf(FLAT_BASE + i * 4096) == 0x1_0000 + i
  {
    assert FLAT_BASE + i * 4096 == (0x1_0000 + i) * 4096;
  }

  lemma FlatPageAt(file: seq<nat>, j: nat, offset: nat)
    requires FlatFile(file) && offset == j * 4096 < |file|
    ensures var s := FlatSegment(file);
            Sane(file, s) && j < PageCount(s) && Pages(file, s)[j] == LoadOf(file, s, FLAT_BASE + offset)
  {
    FlatIsSane(file);
  }

  // ---------------------------------------------------------------------
  // One page
  // ---------------------------------------------------------------------

  /** Of size bytes in the load area, those of the page at offset, and zeros. */
  function FlatBytes(frames: seq<Frame>, offset: nat, size: nat): (r: seq<nat>)
    requires offset < size
    ensures |r| == 4096
  {
    var len := if offset + 4096 > size then size - offset else 4096;
    AreaBytes(frames, offset, len) + Zeros(4096 - len)
  }

  lemma FlatBytesOfFile(frames: seq<Frame>, file: seq<nat>, offset: nat, va: nat)
    requires FlatFile(file) && offset < |file| && va == FLAT_BASE + offset && AreaBytes(frames, 0, |file|) == file
    ensures Sane(file, FlatSegment(file)) && FlatBytes(frames, offset, |file|) == PageImage(file, FlatSegment(file), va)
  {
    FlatIsSane(file);
    var len := if offset + 4096 > |file| then |file| - offset else 4096;
    BufferedSlice(frames, file, offset, len);
    var bytes, image := FlatBytes(frames, offset, |file|), PageImage(file, FlatSegment(file), va);
    forall k | 0 <= k < 4096 ensures bytes[k] == image[k] {
      assert bytes[k] == if k < len then file[offset..offset + len][k] else 0;
      assert image[k] == ImageByte(file, FlatSegment(file), va + k);
    }
  }

  /** Memory with the lowest free frame taken and cleared. */
  function Zeroed(ph: Phys): (r: Phys)
    requires Take(ph).1 / BLOCK_SIZE < |ph.frames|
  {
    WritePage(Take(ph).0, Take(ph).1 / BLOCK_SIZE, Zeros(4096))
  }

  /** The page that an iteration places: what the load area holds at offset when
      the frame has been cleared. */
  function FlatPageOf(ph: Phys, offset: nat, size: nat): (page: PageLoad)
    requires offset < size && Take(ph).1 / BLOCK_SIZE < |ph.frames|
  {
    PageLoad(PathOf(FLAT_BASE + offset), FlatBytes(Zeroed(ph).frames, offset, size))
  }

  /** What an iteration does to memory, wherever the frame it takes lies: the
      frame is cleared, filled from the load area as that is then, and mapped. */
  function FlatStep(ph: Phys, root: nat, offset: nat, size: nat): (r: Phys)
    requires |ph.used| == |ph.frames| && offset < size && Take(ph).1 / BLOCK_SIZE < |ph.frames|
    ensures |r.used| == |r.frames|
  {
    var (taken, p) := Take(ph);
    var page := FlatPageOf(ph, offset, size);
    MapAt(WritePage(taken, p / BLOCK_SIZE, page.bytes), root, page.path, p, TABLE_FLAGS)
  }

  /** In an undisturbed load the frame is not one of the area. */
  lemma ClearingKeepsFile(pr: Progress, root: nat, ph: Phys, job: Job)
    requires Tracks(pr, root, ph) && Calm(pr, root, ph, job) && |pr.done| < |job.plan| && Take(ph).1 != 0
    ensures Take(ph).1 / BLOCK_SIZE < |ph.frames|
    ensures Buffered(WritePage(Take(ph).0, Take(ph).1 / BLOCK_SIZE, Zeros(4096)), job.file)
  {
    var page := PageLoad(job.plan[|pr.done|].path, Zeros(4096));
    FillFirstIsLoadStep(ph, Places(pr), root, page);
    NextFits(pr, root, ph, job);
    var (taken, p) := Take(ph);
    var zeroed := WritePage(taken, p / BLOCK_SIZE, Zeros(4096));
    StepKeepsArea(ph, Places(pr), MapAt(zeroed, root, page.path, p, TABLE_FLAGS), root, page, |job.file|);
    KeptIsBuffered(ph, zeroed, job.file);
  }

  /** The job of loading a flat file. */
  ghost function FlatJob(file: seq<nat>): Job
    requires FlatFile(file)
  {
    FlatIsSane(file);
    Job(file, Pages(file, FlatSegment(file)))
  }

  /** The job is to load a flat file of the given size. */
  ghost predicate FlatSize(job: Job, size: nat)
  {
    FlatFile(job.file) && job == FlatJob(job.file) && size == |job.file|
  }

  /** A frame, cleared and filled from the load area. */
  method TakeFilled(vmm: Vmm, offset: nat, size: nat, ghost places: map<nat, Place>) returns (p: nat)
    requires vmm.Valid() && Separated(vmm.View(), places) && offset < size
    modifies vmm.pmm.bitmap, vmm.frames
    ensures vmm.Valid() && p == Take(old(vmm.View())).1
    ensures p == 0 ==> vmm.View() == old(vmm.View())
    ensures p != 0 ==>
              && p / BLOCK_SIZE < vmm.frames.Length
              && var taken, f := Take(old(vmm.View())).0, p / BLOCK_SIZE;
                 var zeroed := WritePage(taken, f, Zeros(4096));
                 vmm.View() == WritePage(taken, f, FlatBytes(zeroed.frames, offset, size))
  {
    ghost var ph := vmm.View();
    p := vmm.pmm.AllocBlock();
    if p == 0 {
      AllocCounts(ph.used);
      assert vmm.View() == ph;
      return;
    }
    TakeEffect(ph, places);
    var len := 4096;
    if offset + 4096 > size {
      len := size - offset;
    }
    vmm.frames[p / BLOCK_SIZE] := Page(Zeros(4096));
    assert vmm.View() == WritePage(Take(ph).0, p / BLOCK_SIZE, Zeros(4096));
    var bytes := Peek(vmm.frames, offset, len) + Zeros(4096)[len..];
    assert Zeros(4096)[len..] == Zeros(4096 - len);
    assert bytes == FlatBytes(vmm.View().frames, offset, size);
    vmm.frames[p / BLOCK_SIZE] := Page(bytes);
  }

  /** The body of the page loop. */
  method FlatPage(vmm: Vmm, root: nat, offset: nat, size: nat, va: nat, ghost pr: Progress, ghost job: Job)
    returns (ok: bool, ghost pr1: Progress)
    requires Follows(vmm, root, pr) && offset < size && va == FLAT_BASE + offset
    modifies vmm.pmm.bitmap, vmm.frames
    ensures Follows(vmm, root, pr1)
    ensures if ok then Continues(pr, pr1, 1) else pr1 == pr && Exhausted(vmm)
    ensures FlatRun(pr, root, size) && offset == |pr.done| * 4096 ==> FlatRun(pr1, root, size)
    ensures Calm(pr, root, old(vmm.View()), job) && FlatSize(job, size) && offset == |pr.done| * 4096 ==>
              Calm(pr1, root, vmm.View(), job)
  {
    ghost var ph := vmm.View();
    var p := TakeFilled(vmm, offset, size, Places(pr));
    if p == 0 {
      return false, pr;
    }
    ghost var page := FlatPageOf(ph, offset, size);
    FillFirstIsLoadStep(ph, Places(pr), root, page);
    ghost var filled := WritePage(Take(ph).0, p / BLOCK_SIZE, page.bytes);
    assert vmm.View() == filled;
    ghost var places := vmm.MapPage(root, va, p, TABLE_FLAGS, Places(pr));
    ok, pr1 := true, Extended(pr, root, page, ph, vmm.View());
    FlatPageDone(pr, root, page, ph, vmm.View(), job, offset, size);
    if FlatRun(pr, root, size) && offset == |pr.done| * 4096 {
      FlatRunGrows(pr, pr1, root, offset, size, vmm.View());
    }
  }

  lemma FlatPageDone(pr: Progress, root: nat, page: PageLoad, ph: Phys, ph1: Phys, job: Job, offset: nat, size: nat)
    requires Tracks(pr, root, ph) && LoadStep(ph, ph1, root, page) && offset < size
    requires Take(ph).1 / BLOCK_SIZE < |ph.frames| && page == FlatPageOf(ph, offset, size)
    ensures var pr1 := Extended(pr, root, page, ph, ph1);
            && Tracks(pr1, root, ph1) && Continues(pr, pr1, 1)
            && (Calm(pr, root, ph, job) && FlatSize(job, size) && offset == |pr.done| * 4096 ==>
                Calm(pr1, root, ph1, job))
  {
    ExtendTracks(pr, root, page, ph, ph1);
    if Calm(pr, root, ph, job) && FlatSize(job, size) && offset == |pr.done| * 4096 {
      FlatIsSane(job.file);
      FlatPageAt(job.file, |pr.done|, offset);
      ClearingKeepsFile(pr, root, ph, job);
      FlatBytesOfFile(Zeroed(ph).frames, job.file, offset, FLAT_BASE + offset);
      ExtendCalm(pr, root, ph, ph1, job);
    }
  }

  // ---------------------------------------------------------------------
  // The whole file
  // ---------------------------------------------------------------------

  ghost predicate FlatStepTo(ph: Phys, ph1: Phys, root: nat, offset: nat, size: nat)
  {
    && |ph.used| == |ph.frames| && offset < size && Take(ph).1 != 0 && Take(ph).1 / BLOCK_SIZE < |ph.frames|
    && ph1 == FlatStep(ph, root, offset, size)
  }

  ghost predicate FlatRunStep(pr: Progress, root: nat, size: nat, k: nat)
    requires k < |pr.done| && |pr.trace| == |pr.done| + 1
  {
    FlatStepTo(pr.trace[k], pr.trace[k + 1], root, k * 4096, size)
    && pr.done[k] == FlatPageOf(pr.trace[k], k * 4096, size)
  }

  /** The states that the loop passes through, and the pages it places. */
  ghost predicate FlatRun(pr: Progress, root: nat, size: nat)
  {
    |pr.trace| == |pr.done| + 1
    && forall k {:trigger FlatRunStep(pr, root, size, k)} :: 0 <= k < |pr.done| ==> FlatRunStep(pr, root, size, k)
  }

  lemma FlatRunGrows(pr: Progress, pr1: Progress, root: nat, offset: nat, size: nat, ph1: Phys)
    requires FlatRun(pr, root, size) && offset == |pr.done| * 4096
    requires FlatStepTo(pr.trace[|pr.done|], ph1, root, offset, size) && pr1.trace == pr.trace + [ph1]
    requires pr1.done == pr.done + [FlatPageOf(pr.trace[|pr.done|], offset, size)]
    ensures FlatRun(pr1, root, size)
  {
    forall k | 0 <= k < |pr1.done| ensures FlatRunStep(pr1, root, size, k) {
      if k < |pr.done| {
        assert FlatRunStep(pr, root, size, k);
      }
    }
  }

  /** The page loop. */
  method FlatPages(vmm: Vmm, root: nat, size: nat, ghost pr: Progress, ghost job: Job)
    returns (ok: bool, ghost pr1: Progress)
    requires Follows(vmm, root, pr) && pr.done == []
    modifies vmm.pmm.bitmap, vmm.frames
    ensures Follows(vmm, root, pr1) && Continues(pr, pr1, |pr1.done|) && FlatRun(pr1, root, size)
    ensures if ok then size <= |pr1.done| * 4096 < size + 4096 else |pr1.done| * 4096 < size && Exhausted(vmm)
    ensures Calm(pr, root, old(vmm.View()), job) && FlatSize(job, size) ==> Calm(pr1, root, vmm.View(), job)
  {
    ghost var calm := Calm(pr, root, vmm.View(), job) && FlatSize(job, size);
    ok, pr1 := true, pr;
    var offset := 0;
    while offset < size
      invariant Follows(vmm, root, pr1) && Continues(pr, pr1, |pr1.done|) && FlatRun(pr1, root, size)
      invariant offset == |pr1.done| * 4096 < size + 4096
      invariant calm ==> Calm(pr1, root, vmm.View(), job)
    {
      ok, pr1 := FlatPage(vmm, root, offset, size, FLAT_BASE + offset, pr1, job);
      if !ok {
        return;
      }
      offset := offset + 4096;
    }
    ok := true;
  }

  /** What a caller can check before loading a flat file: it is in the load
      area, the area is shielded, and no page of it comes to lie where the
      kernel looks at the memory it works on. */
  ghost predicate FlatReady(ph: Phys, places: map<nat, Place>, root: nat, kernel: nat, file: seq<nat>)
  {
    && FlatFile(file) && Buffered(ph, file) && AreaClear(places, |file|)
    && FullPaths(FlatJob(file).plan) && Shielded(ph, root, FlatJob(file).plan, |file|)
    && Direct(ph, places, kernel, FlatJob(file).plan, Demand(ph, root, FlatJob(file).plan), |file|)
  }

  /** A flat file lies at 256 MB, so it is in the way of frames there only. */
  lemma FlatSpares(file: seq<nat>, f: nat)
    requires FlatFile(file) && f < 0x10_0000
    ensures Spared(FlatJob(file).plan, f) <==> f < 0x1_0000 || (f - 0x1_0000) * 4096 >= |file|
  {
    FlatIsSane(file);
    var s := FlatSegment(file);
    var plan := FlatJob(file).plan;
    forall k | 0 <= k < |plan| ensures plan[k].path == PathOf(f * BLOCK_SIZE) <==> f == 0x1_0000 + k {
      FlatPathIs(k, f);
      assert plan[k] == LoadOf(file, s, PageStart(s) + k * 4096);
    }
    if f >= 0x1_0000 && (f - 0x1_0000) * 4096 < |file| {
      var k := f - 0x1_0000;
      assert k < |plan|;
      assert plan[k].path == PathOf(f * BLOCK_SIZE);
    }
  }

  lemma FlatPathIs(k: nat, f: nat)
    requires k < 0x10_0000 && f < 0x10_0000
    ensures PathOf(FLAT_BASE + k * 4096) == PathOf(f * BLOCK_SIZE) <==> f == 0x1_0000 + k
  {
    assert (FLAT_BASE + k * 4096) / 4096 == 0x1_0000 + k && f * BLOCK_SIZE / 4096 == f;
    PathNamesPage(FLAT_BASE + k * 4096, f * BLOCK_SIZE);
  }

  /** The flat branch of exec. It goes on to create a process whenever no page
      allocation failed. A file that is ready in the load area is really at
      256 MB then, with a zeroed tail, exactly when the free frames covered the
      pages and the missing tables; and all along the kernel sees the memory
      that it works on. */
  method LoadFlat(vmm: Vmm, root: nat, size: nat,
                  ghost places: map<nat, Place>, ghost kernel: nat, ghost file: seq<nat>)
    returns (ok: bool, ghost pr: Progress)
    requires vmm.Valid() && Separated(vmm.View(), places) && IsRoot(places, root)
    modifies vmm.pmm.bitmap, vmm.frames
    ensures Follows(vmm, root, pr) && pr.trace[0] == old(vmm.View()) && pr.maps[0] == places
    ensures FlatRun(pr, root, size) && (ok ==> size <= |pr.done| * 4096 < size + 4096)
    ensures FlatReady(old(vmm.View()), places, root, kernel, file) && size == |file| ==>
              && Sane(file, FlatSegment(file)) && AreaClear(Places(pr), |file|) && SeesItsWork(pr, kernel, |file|)
              && (ok && ImageLoaded(vmm.View(), root, file, [FlatSegment(file)])
                  <==> Demand(old(vmm.View()), root, FlatJob(file).plan) <= FreeCount(old(vmm.View()).used))
  {
    ghost var ph := vmm.View();
    ghost var ready := FlatReady(ph, places, root, kernel, file) && size == |file|;
    ghost var job := if ready then FlatJob(file) else Job([], []);
    pr := Begin(ph, places);
    if ready {
      assert job.plan[0..] == job.plan;
    }
    ok, pr := FlatPages(vmm, root, size, pr, job);
    if ready {
      FlatOutcome(pr, places, root, file, ok, vmm.View());
      LoadIsDirect(pr, root, vmm.View(), kernel, job.plan, |file|);
    }
  }

  lemma FlatOutcome(pr: Progress, places: map<nat, Place>, root: nat, file: seq<nat>, ok: bool, last: Phys)
    requires FlatFile(file) && Tracks(pr, root, last) && pr.done <= FlatJob(file).plan
    requires Separated(pr.trace[0], places) && IsRoot(places, root)
    requires if ok then |file| <= |pr.done| * 4096 else |pr.done| * 4096 < |file| && Take(last).1 == 0
    ensures Sane(file, FlatSegment(file))
    ensures ok && ImageLoaded(last, root, file, [FlatSegment(file)])
            <==> Demand(pr.trace[0], root, FlatJob(file).plan) <= FreeCount(pr.trace[0].used)
  {
    FlatIsSane(file);
    FlatPagesDiffer(file);
    OnePlan(file);
    Outcome(pr, places, root, FlatJob(file), [FlatSegment(file)], ok, last);
  }

  lemma OnePlan(file: seq<nat>)
    requires Sane(file, FlatSegment(file))
    ensures Plan(file, [FlatSegment(file)]) == Pages(file, FlatSegment(file))
  {
    var segs := [FlatSegment(file)];
    assert segs[1..] == [];
    assert Plan(file, segs) == Pages(file, segs[0]) + Plan(file, segs[1..]);
  }

  lemma FlatMeets(size: nat, x: nat)
    requires x < (size + 4095) / 4096 * 4096
    ensures Meets(Segment(FLAT_BASE, size, size, 0), FLAT_BASE + x)
  {
    var p := x / 4096;
    assert (FLAT_BASE + x) / 4096 * 4096 == FLAT_BASE + p * 4096;
    assert p * 4096 < size;
  }

  /** What a loaded flat binary looks like to its process. */
  lemma FlatImage(ph: Phys, root: nat, file: seq<nat>, x: nat)
    requires FlatFile(file) && Sane(file, FlatSegment(file)) && ImageLoaded(ph, root, file, [FlatSegment(file)])
    requires x < (|file| + 4095) / 4096 * 4096
    ensures VirtualByte(ph, root, FLAT_BASE + x) == Some(if x < |file| then file[x] else 0)
  {
    FlatIsSane(file);
    var s := [FlatSegment(file)][0];
    FlatMeets(|file|, x);
    assert VirtualByte(ph, root, FLAT_BASE + x) == Some(ImageByte(file, s, FLAT_BASE + x));
  }

  // ---------------------------------------------------------------------
  // A load that takes a frame of the area
  // ---------------------------------------------------------------------

  /** When the lowest free frame is the first of the load area, the first page
      is cleared before it is copied: it comes out as zeros whatever the file. */
  lemma FirstPageIsLost(ph: Phys, places: map<nat, Place>, root: nat, size: nat, x: nat)
    requires Separated(ph, places) && IsRoot(places, root) && 0 < size && x < 4096
    requires Take(ph).1 == AREA * BLOCK_SIZE && CanMap(Take(ph).0, root, PathOf(FLAT_BASE))
    ensures Take(ph).1 / BLOCK_SIZE < |ph.frames|
            && VirtualByte(FlatStep(ph, root, 0, size), root, FLAT_BASE + x) == Some(0)
  {
    TakeEffect(ph, places);
    var page := PageLoad(PathOf(FLAT_BASE), Zeros(4096));
    ClearedAreaIsZero(WritePage(Take(ph).0, AREA, Zeros(4096)).frames, size);
    FillFirstIsLoadStep(ph, places, root, page);
    StepPlacesPage(ph, places, FlatStep(ph, root, 0, size), root, page);
    HeldZeroPage(FlatStep(ph, root, 0, size), root, x);
  }

  lemma HeldZeroPage(ph: Phys, root: nat, x: nat)
    requires x < 4096 && Holds(ph, root, PageLoad(PathOf(FLAT_BASE), Zeros(4096)))
    ensures VirtualByte(ph, root, FLAT_BASE + x) == Some(0)
  {
    SamePage(FLAT_BASE, x);
  }

  lemma ClearedAreaIsZero(frames: seq<Frame>, size: nat)
    requires AREA < |frames| && frames[AREA] == Page(Zeros(4096)) && 0 < size
    ensures FlatBytes(frames, 0, size) == Zeros(4096)
  {
    var len := if 4096 > size then size else 4096;
    forall k | 0 <= k < len ensures AreaBytes(frames, 0, len)[k] == 0 {
      assert k / BLOCK_SIZE == 0 && k % BLOCK_SIZE == k;
    }
  }

  lemma {:induction false} FreeAtTheTop(used: seq<bool>, n: nat)
    requires n <= |used| && forall i :: 0 <= i < |used| ==> (used[i] <==> i < n)
    ensures FreeCount(used) == |used| - n
    decreases |used|
  {
    if used != [] {
      var m := |used| - 1;
      if n <= m {
        FreeAtTheTop(used[..m], n);
      } else {
        FreeAtTheTop(used[..m], m);
      }
    }
  }

  /** Memory whose frames below the load area are all taken, with a one-byte
      file in the area and an empty PML4 in frame 1. */
  function CrowdedMemory(): (ph: Phys)
  {
    Phys(seq<bool>(AREA + 5, i requires 0 <= i < AREA + 5 => i < AREA),
         seq<Frame>(AREA + 5, i requires 0 <= i < AREA + 5 =>
           if i == 1 then ZeroTable() else if i == AREA then Page([1] + Zeros(4095)) else Page([])))
  }

  lemma LowestIsAtTheTop(used: seq<bool>, n: nat)
    requires n < |used| && forall i :: 0 <= i < |used| ==> (used[i] <==> i < n)
    ensures FirstFree(used) == n && FreeCount(used) == |used| - n && Alloc(used).1 == n * BLOCK_SIZE
  {
    FreeAtTheTop(used, n);
    var b := FirstFree(used);
    assert !used[n];
    assert b < |used| && !used[b];
  }

  /** One empty PML4 and no other table is separated. */
  lemma LonelyTable(ph: Phys, places: map<nat, Place>)
    requires WellFormed(ph) && |ph.frames| > 1 && ph.used[1] && ph.frames[1] == ZeroTable()
    requires places == map[1 := Place(Own(1), [])]
    ensures Separated(ph, places) && IsRoot(places, 1)
  {
    forall i | 0 <= i < ENTRIES ensures EntryAt(ph, 1, i) == 0 {
    }
  }

  lemma CrowdedIsSeparated(places: map<nat, Place>)
    requires places == map[1 := Place(Own(1), [])]
    ensures Separated(CrowdedMemory(), places) && IsRoot(places, 1) && FreeCount(CrowdedMemory().used) == 5
    ensures Take(CrowdedMemory()).1 == AREA * BLOCK_SIZE && Buffered(CrowdedMemory(), [1])
  {
    var ph := CrowdedMemory();
    LowestIsAtTheTop(ph.used, AREA);
    LonelyTable(ph, places);
    OneByteInArea(ph.frames);
  }

  lemma OneByteInArea(frames: seq<Frame>)
    requires AREA < |frames| && frames[AREA] == Page([1] + Zeros(4095))
    ensures AreaBytes(frames, 0, 1) == [1]
  {
    assert AreaByte(frames, 0) == FrameBytes(frames[AREA])[0] == 1;
  }

  /** Enough frames are not enough: here five are free and four are asked for,
      the loop reports no failure, and the process does not see the file. */
  lemma FlatLoadLosesFile(places: map<nat, Place>)
    requires places == map[1 := Place(Own(1), [])]
    ensures var ph, file := CrowdedMemory(), [1];
            && Separated(ph, places) && IsRoot(places, 1) && Buffered(ph, file) && AreaClear(places, 1)
            && FlatFile(file) && Sane(file, FlatSegment(file))
            && Demand(ph, 1, FlatJob(file).plan) <= FreeCount(ph.used)
            && Take(ph).1 / BLOCK_SIZE < |ph.frames|
            && !ImageLoaded(FlatStep(ph, 1, 0, 1), 1, file, [FlatSegment(file)])
  {
    CrowdedIsSeparated(places);
    FlatIsSane([1]);
    CrowdedLosesFile(CrowdedMemory(), places);
    OnePageDemand(CrowdedMemory(), [1]);
  }

  lemma CrowdedLosesFile(ph: Phys, places: map<nat, Place>)
    requires Separated(ph, places) && IsRoot(places, 1) && FreeCount(ph.used) == 5 && Take(ph).1 == AREA * BLOCK_SIZE
    ensures Take(ph).1 / BLOCK_SIZE < |ph.frames|
    ensures Sane([1], FlatSegment([1])) && !ImageLoaded(FlatStep(ph, 1, 0, 1), 1, [1], [FlatSegment([1])])
  {
    TakeEffect(ph, places);
    TakeKeepsDescend(ph, 1, PathOf(FLAT_BASE)[..3]);
    FirstPageIsLost(ph, places, 1, 1, 0);
    FirstByteTells(FlatStep(ph, 1, 0, 1), 1);
  }

  lemma FirstByteTells(ph: Phys, root: nat)
    requires VirtualByte(ph, root, FLAT_BASE) == Some(0)
    ensures Sane([1], FlatSegment([1])) && !ImageLoaded(ph, root, [1], [FlatSegment([1])])
  {
    FlatIsSane([1]);
    if ImageLoaded(ph, root, [1], [FlatSegment([1])]) {
      FlatImage(ph, root, [1], 0);
    }
  }

  lemma OnePageDemand(ph: Phys, file: seq<nat>)
    requires FlatFile(file) && |file| == 1
    ensures FullPaths(FlatJob(file).plan) && Demand(ph, 1, FlatJob(file).plan) <= 4
  {
    FlatIsSane(file);
    var plan := FlatJob(file).plan;
    assert |plan| == 1;
    assert TablesOf(plan) == TablesAbove(plan[0].path);
    MissingAbove(ph, 1, plan[0].path);
  }
}
