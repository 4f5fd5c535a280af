/** Loading programs into an address space: elf_load_file
    (src/kernel/elf.c:60-129) as the kernel runs it, reading the file from the
    load area while it takes frames and maps them. */
module Loader {
  import opened Options
  import opened Pmm
  import opened Paging
  import opened Mapping
  import opened Loading
  import opened LoadArea
  import opened Elf
  import opened VirtualMemory
  import opened LoadProgress
  import opened DirectView

  // ---------------------------------------------------------------------
  // One page
  // ---------------------------------------------------------------------

  /** A frame for the page, mapped and cleared. */
  method PlaceFrame(vmm: Vmm, root: nat, va: nat, ghost pr: Progress) returns (p: nat)
    requires Follows(vmm, root, pr)
    modifies vmm.pmm.bitmap, vmm.frames
    ensures vmm.Valid()
    ensures p == 0 ==> vmm.View() == old(vmm.View()) && Exhausted(vmm)
    ensures p != 0 ==> p == Take(old(vmm.View())).1 && p / BLOCK_SIZE < vmm.frames.Length
    ensures p != 0 ==> LoadStep(old(vmm.View()), vmm.View(), root, PageLoad(PathOf(va), Zeros(4096)))
  {
    ghost var ph := vmm.View();
    p := vmm.pmm.AllocBlock();
    if p == 0 {
      AllocCounts(ph.used);
      assert vmm.View() == ph;
      return;
    }
    TakeEffect(ph, Places(pr));
    assert vmm.View() == Take(ph).0;
    ghost var places := vmm.MapPage(root, va, p, TABLE_FLAGS, Places(pr));
    vmm.frames[p / BLOCK_SIZE] := Page(Zeros(4096));
  }

  /** Writing the frame again is placing the page with other bytes. */
  lemma Rewritten(ph: Phys, ph1: Phys, root: nat, page: PageLoad, bytes: seq<nat>)
    requires LoadStep(ph, ph1, root, page) && Take(ph).1 / BLOCK_SIZE < |ph1.frames|
    ensures LoadStep(ph, WritePage(ph1, Take(ph).1 / BLOCK_SIZE, bytes), root, PageLoad(page.path, bytes))
  {
  }

  /** The next page of the job is the page of s at va. */
  ghost predicate IsNext(pr: Progress, job: Job, s: Segment, va: nat)
  {
    Sane(job.file, s) && |pr.done| < |job.plan| && job.plan[|pr.done|] == LoadOf(job.file, s, va)
  }

  /** The body of the page loop: a frame, a mapping, the bytes. */
  method LoadPage(vmm: Vmm, root: nat, s: Segment, va: nat, ghost pr: Progress, ghost job: Job)
    returns (ok: bool, ghost pr1: Progress)
    requires Follows(vmm, root, pr)
    modifies vmm.pmm.bitmap, vmm.frames
    ensures Follows(vmm, root, pr1)
    ensures if ok then Continues(pr, pr1, 1) else pr1 == pr && vmm.View() == old(vmm.View()) && Exhausted(vmm)
    ensures ok && Calm(pr, root, old(vmm.View()), job) && IsNext(pr, job, s, va) ==> Calm(pr1, root, vmm.View(), job)
  {
    ghost var ph, clear := vmm.View(), PageLoad(PathOf(va), Zeros(4096));
    var p := PlaceFrame(vmm, root, va, pr);
    if p == 0 {
      return false, pr;
    }
    ghost var zeroed := vmm.View();
    ghost var calm := Calm(pr, root, ph, job) && IsNext(pr, job, s, va);
    if calm {
      StaysBuffered(pr, root, ph, zeroed, clear, job);
    }
    var bytes := FillPage(vmm.frames, s, va, job.file);
    vmm.frames[p / BLOCK_SIZE] := Page(bytes);
    ghost var page := PageLoad(PathOf(va), bytes);
    Rewritten(ph, zeroed, root, clear, bytes);
    assert vmm.View() == WritePage(zeroed, p / BLOCK_SIZE, bytes);
    ok := true;
    pr1 := PageDone(pr, root, page, ph, vmm.View(), job, calm);
  }

  /** The books after a page. */
  lemma PageDone(pr: Progress, root: nat, page: PageLoad, ph: Phys, ph1: Phys, job: Job, calm: bool)
    returns (pr1: Progress)
    requires Tracks(pr, root, ph) && LoadStep(ph, ph1, root, page)
    requires calm ==> Calm(pr, root, ph, job) && |pr.done| < |job.plan| && page == job.plan[|pr.done|]
    ensures Tracks(pr1, root, ph1) && Continues(pr, pr1, 1)
    ensures calm ==> Calm(pr1, root, ph1, job)
  {
    pr1 := Extended(pr, root, page, ph, ph1);
    ExtendTracks(pr, root, page, ph, ph1);
    if calm {
      ExtendCalm(pr, root, ph, ph1, job);
    }
  }

  // ---------------------------------------------------------------------
  // Segments and headers
  // ---------------------------------------------------------------------

  /** The next pages of the job are those of s. */
  ghost predicate UpNext(pr: Progress, job: Job, s: Segment)
  {
    && Sane(job.file, s) && |pr.done| + PageCount(s) <= |job.plan|
    && forall j :: 0 <= j < PageCount(s) ==> job.plan[|pr.done| + j] == Pages(job.file, s)[j]
  }

  lemma PageIsNext(pr: Progress, pr1: Progress, job: Job, s: Segment, j: nat, va: nat)
    requires UpNext(pr, job, s) && Continues(pr, pr1, j) && j < PageCount(s) && va == PageStart(s) + j * 4096
    ensures IsNext(pr1, job, s, va)
  {
    assert Pages(job.file, s)[j] == LoadOf(job.file, s, va);
  }

  /** The page loop of one segment. */
  method LoadSegment(vmm: Vmm, root: nat, s: Segment, ghost pr: Progress, ghost job: Job)
    returns (ok: bool, ghost pr1: Progress)
    requires Follows(vmm, root, pr)
    modifies vmm.pmm.bitmap, vmm.frames
    ensures Follows(vmm, root, pr1)
    ensures if ok then Continues(pr, pr1, PageCount(s)) else Exhausted(vmm) && StopsWithin(pr, pr1, PageCount(s))
    ensures Calm(pr, root, old(vmm.View()), job) && UpNext(pr, job, s) ==> Calm(pr1, root, vmm.View(), job)
  {
    var va, end := PageStart(s), PageEnd(s);
    ghost var j, calm := 0, Calm(pr, root, vmm.View(), job) && UpNext(pr, job, s);
    ok, pr1 := true, pr;
    while va < end
      invariant Follows(vmm, root, pr1) && Continues(pr, pr1, j)
      invariant j <= PageCount(s) && va == PageStart(s) + j * 4096
      invariant calm ==> Calm(pr1, root, vmm.View(), job)
      decreases PageCount(s) - j
    {
      MorePages(s, j);
      if calm {
        PageIsNext(pr, pr1, job, s, j, va);
      }
      ok, pr1 := LoadPage(vmm, root, s, va, pr1, job);
      if !ok {
        return;
      }
      va, j := va + 4096, j + 1;
    }
    MorePages(s, j);
    ok := true;
  }

  /** pr1 continues pr by fewer than n pages. */
  ghost predicate StopsWithin(pr: Progress, pr1: Progress, n: nat)
  {
    |pr.done| <= |pr1.done| < |pr.done| + n && Continues(pr, pr1, |pr1.done| - |pr.done|)
  }

  /** What is left of the job are the segments from header i on. */
  ghost predicate Left(pr: Progress, job: Job, i: nat)
  {
    && HeadersInside(job.file) && i <= HeaderCount(job.file) && AllSane(job.file, Loadable(job.file, i))
    && |pr.done| <= |job.plan| && job.plan[|pr.done|..] == Plan(job.file, Loadable(job.file, i))
  }

  lemma LeftIsUpNext(pr: Progress, job: Job, i: nat)
    requires Left(pr, job, i) && i < HeaderCount(job.file) && IsLoad(job.file, i)
    ensures UpNext(pr, job, SegmentAt(job.file, i))
  {
    PlanOfHeader(job.file, i);
    var s := SegmentAt(job.file, i);
    var rest := job.plan[|pr.done|..];
    assert rest == Pages(job.file, s) + Plan(job.file, Loadable(job.file, i + 1));
    forall j | 0 <= j < PageCount(s) ensures job.plan[|pr.done| + j] == Pages(job.file, s)[j] {
      assert rest[j] == Pages(job.file, s)[j];
    }
  }

  lemma LeftAfter(pr: Progress, pr1: Progress, job: Job, i: nat)
    requires Left(pr, job, i) && i < HeaderCount(job.file)
    requires IsLoad(job.file, i) ==> Continues(pr, pr1, PageCount(SegmentAt(job.file, i)))
    requires !IsLoad(job.file, i) ==> pr1 == pr
    ensures Left(pr1, job, i + 1)
  {
    PlanOfHeader(job.file, i);
    if IsLoad(job.file, i) {
      var n, rest := PageCount(SegmentAt(job.file, i)), Plan(job.file, Loadable(job.file, i + 1));
      DropFirst(job.plan, |pr.done|, Pages(job.file, SegmentAt(job.file, i)), rest);
    }
  }

  lemma DropFirst(plan: seq<PageLoad>, k: nat, a: seq<PageLoad>, b: seq<PageLoad>)
    requires k <= |plan| && plan[k..] == a + b
    ensures k + |a| <= |plan| && plan[k + |a|..] == b
  {
    var rest := plan[k..];
    assert rest[|a|..] == b;
  }

  /** The header of the file, as long as it is undisturbed. */
  lemma HeaderInArea(frames: seq<Frame>, file: seq<nat>, i: nat)
    requires AreaBytes(frames, 0, |file|) == file && EHDR_SIZE <= |file|
    ensures var h := AreaBytes(frames, 0, EHDR_SIZE);
            && (Supported(h) <==> Supported(file)) && (IsElf(h) <==> IsElf(file)) && EntryPoint(h) == EntryPoint(file)
            && HeaderCount(h) == HeaderCount(file) && HeaderOffset(h, i) == HeaderOffset(file, i)
  {
    BufferedSlice(frames, file, 0, EHDR_SIZE);
    HeaderTells(file, i);
  }

  /** Program header i as the code reads it, the table of headers being where
      the file says. */
  lemma PhdrInArea(frames: seq<Frame>, file: seq<nat>, i: nat)
    requires AreaBytes(frames, 0, |file|) == file && HeadersInside(file) && i < HeaderCount(file)
    ensures AreaBytes(frames, HeaderOffset(file, i), PHDR_SIZE) == Phdr(file, i)
  {
    assert HeaderOffset(file, i) + PHDR_SIZE <= HeaderOffset(file, HeaderCount(file));
    BufferedSlice(frames, file, HeaderOffset(file, i), PHDR_SIZE);
  }

  /** What is left of an undisturbed load when header i, at address at, is about
      to be read. */
  ghost predicate AtHeader(pr: Progress, job: Job, at: nat, i: nat)
  {
    Left(pr, job, i) && at == HeaderOffset(job.file, i)
  }

  /** One program header: its segment if it is a PT_LOAD one. */
  method LoadHeader(vmm: Vmm, root: nat, at: nat, ghost i: nat, ghost pr: Progress, ghost job: Job)
    returns (ok: bool, ghost pr1: Progress)
    requires Follows(vmm, root, pr)
    modifies vmm.pmm.bitmap, vmm.frames
    ensures Follows(vmm, root, pr1) && |pr1.done| >= |pr.done| && Continues(pr, pr1, |pr1.done| - |pr.done|)
    ensures !ok ==> Exhausted(vmm)
    ensures Calm(pr, root, old(vmm.View()), job) && AtHeader(pr, job, at, i) && i < HeaderCount(job.file) ==>
              && Calm(pr1, root, vmm.View(), job)
              && if ok then Left(pr1, job, i + 1) else |pr1.done| < |job.plan|
  {
    ghost var ph := vmm.View();
    ghost var calm := Calm(pr, root, ph, job) && AtHeader(pr, job, at, i) && i < HeaderCount(job.file);
    if calm {
      PhdrInArea(vmm.frames[..], job.file, i);
      if IsLoad(job.file, i) {
        LeftIsUpNext(pr, job, i);
      }
    }
    var h := Peek(vmm.frames, at, PHDR_SIZE);
    ok, pr1 := true, pr;
    if AsksForLoad(h) {
      ok, pr1 := LoadSegment(vmm, root, SegmentOf(h), pr, job);
    }
    if calm && ok {
      LeftAfter(pr, pr1, job, i);
    }
  }

  lemma NextHeader(pr: Progress, job: Job, at: nat, i: nat)
    requires Left(pr, job, i + 1) && at == HeaderOffset(job.file, i)
    ensures AtHeader(pr, job, at + PHDR_SIZE, i + 1)
  {
  }

  lemma NothingLeft(pr: Progress, job: Job)
    requires EHDR_SIZE <= |job.file| && Left(pr, job, HeaderCount(job.file))
    ensures |pr.done| == |job.plan|
  {
    assert job.plan[|pr.done|..] == [];
  }

  /** The loop over the program headers. The address of their table is read
      once, their number again and again. */
  method LoadSegments(vmm: Vmm, root: nat, ghost pr: Progress, ghost job: Job) returns (ok: bool, ghost pr1: Progress)
    requires Follows(vmm, root, pr)
    modifies vmm.pmm.bitmap, vmm.frames
    ensures Follows(vmm, root, pr1) && |pr1.done| >= |pr.done| && Continues(pr, pr1, |pr1.done| - |pr.done|)
    ensures !ok ==> Exhausted(vmm)
    ensures Calm(pr, root, old(vmm.View()), job) && Left(pr, job, 0) ==>
              Calm(pr1, root, vmm.View(), job) && if ok then |pr1.done| == |job.plan| else |pr1.done| < |job.plan|
  {
    ghost var calm := Calm(pr, root, vmm.View(), job) && Left(pr, job, 0);
    ok, pr1 := true, pr;
    var i := 0;
    var at: nat := HeaderOffset(Peek(vmm.frames, 0, EHDR_SIZE), 0);
    var more := 0 < HeaderCount(Peek(vmm.frames, 0, EHDR_SIZE));
    if calm {
      HeaderInArea(vmm.frames[..], job.file, 0);
    }
    while more
      invariant 0 <= i <= 0x1_0000 && (more ==> i < 0x1_0000)
      invariant Follows(vmm, root, pr1) && |pr1.done| >= |pr.done| && Continues(pr, pr1, |pr1.done| - |pr.done|)
      invariant calm ==> Calm(pr1, root, vmm.View(), job) && AtHeader(pr1, job, at, i)
      invariant calm ==> (more <==> i < HeaderCount(job.file))
      decreases 0x1_0000 - i, more
    {
      ok, pr1 := LoadHeader(vmm, root, at, i, pr1, job);
      if !ok {
        return;
      }
      if calm {
        NextHeader(pr1, job, at, i);
        HeaderInArea(vmm.frames[..], job.file, i);
      }
      i, at := i + 1, at + PHDR_SIZE;
      more := i < HeaderCount(Peek(vmm.frames, 0, EHDR_SIZE));
    }
    if calm {
      NothingLeft(pr1, job);
    }
    ok := true;
  }

  // ---------------------------------------------------------------------
  // The whole file
  // ---------------------------------------------------------------------

  /** What a load that has ended has to show. */
  lemma Outcome(pr: Progress, places: map<nat, Place>, root: nat, job: Job, segs: seq<Segment>, ok: bool, last: Phys)
    requires AllSane(job.file, segs) && job.plan == Plan(job.file, segs) && DistinctPages(job.plan)
    requires Tracks(pr, root, last) && pr.done <= job.plan && Separated(pr.trace[0], places) && IsRoot(places, root)
    requires if ok then |pr.done| == |job.plan| else |pr.done| < |job.plan| && Take(last).1 == 0
    ensures ok && ImageLoaded(last, root, job.file, segs)
            <==> Demand(pr.trace[0], root, job.plan) <= FreeCount(pr.trace[0].used)
  {
    LoadsPrefix(pr.trace, root, pr.done, job.plan);
    if ok {
      ElfImageExactly(pr.trace, places, root, job.file, segs);
    } else if Demand(pr.trace[0], root, job.plan) <= FreeCount(pr.trace[0].used) {
      NeverOutOfFrames(pr.trace, places, root, job.plan);
      assert false;
    }
  }

  /** What a caller can check before loading a file: it is in the load area,
      its headers and segments are inside it, the area is shielded, and no page
      of it comes to lie where the kernel looks at the memory it works on. */
  ghost predicate Ready(ph: Phys, places: map<nat, Place>, root: nat, kernel: nat, file: seq<nat>)
  {
    && HeadersInside(file) && AllSane(file, Loadable(file)) && Buffered(ph, file) && AreaClear(places, |file|)
    && Shielded(ph, root, JobOf(file).plan, |file|)
    && Direct(ph, places, kernel, JobOf(file).plan, Demand(ph, root, JobOf(file).plan), |file|)
  }

  ghost function JobOf(file: seq<nat>): (job: Job)
    requires HeadersInside(file) && AllSane(file, Loadable(file))
    ensures FullPaths(job.plan)
  {
    Job(file, Plan(file, Loadable(file)))
  }

  lemma ReadyIsCalm(ph: Phys, places: map<nat, Place>, root: nat, kernel: nat, file: seq<nat>)
    requires Ready(ph, places, root, kernel, file)
    ensures Calm(Begin(ph, places), root, ph, JobOf(file)) && Left(Begin(ph, places), JobOf(file), 0)
    ensures Supported(AreaBytes(ph.frames, 0, EHDR_SIZE)) <==> Supported(file)
  {
    HeaderInArea(ph.frames, file, 0);
    var job := JobOf(file);
    assert job.plan[0..] == job.plan;
  }

  lemma LoadEnded(pr: Progress, ph: Phys, last: Phys, root: nat, kernel: nat, file: seq<nat>, ok: bool)
    requires Tracks(pr, root, last) && pr.trace[0] == ph && Ready(ph, pr.maps[0], root, kernel, file)
    requires Separated(ph, pr.maps[0]) && IsRoot(pr.maps[0], root) && Calm(pr, root, last, JobOf(file))
    requires var n := |JobOf(file).plan|; if ok then |pr.done| == n else |pr.done| < n && Take(last).1 == 0
    ensures AreaClear(Places(pr), |file|) && SeesItsWork(pr, kernel, |file|)
    ensures EntryPoint(AreaBytes(last.frames, 0, EHDR_SIZE)) == EntryPoint(file)
    ensures DistinctPages(JobOf(file).plan) ==>
              (ok && ImageLoaded(last, root, file, Loadable(file))
               <==> Demand(ph, root, JobOf(file).plan) <= FreeCount(ph.used))
  {
    var job := JobOf(file);
    HeaderInArea(last.frames, file, 0);
    LoadIsDirect(pr, root, last, kernel, job.plan, |file|);
    if DistinctPages(job.plan) {
      Outcome(pr, pr.maps[0], root, job, Loadable(file), ok, last);
    }
  }

  /** elf_load_file. Whatever is in the load area, the tables stay separated
      and only frames taken are written. A supported file that is ready there
      is loaded with its entry point as the result exactly when the free frames
      cover its pages and missing tables; and all along the kernel sees the
      memory that it works on. */
  method LoadFile(vmm: Vmm, root: nat, ghost places: map<nat, Place>, ghost kernel: nat, ghost file: seq<nat>)
    returns (entry: nat, ok: bool, ghost pr: Progress)
    requires vmm.Valid() && Separated(vmm.View(), places) && IsRoot(places, root)
    modifies vmm.pmm.bitmap, vmm.frames
    ensures Follows(vmm, root, pr) && pr.trace[0] == old(vmm.View()) && pr.maps[0] == places
    ensures !ok ==> entry == 0
    ensures !Supported(AreaBytes(old(vmm.View()).frames, 0, EHDR_SIZE)) ==> !ok && vmm.View() == old(vmm.View())
    ensures Ready(old(vmm.View()), places, root, kernel, file) && Supported(file) ==>
              && (ok ==> entry == EntryPoint(file)) && AreaClear(Places(pr), |file|)
              && SeesItsWork(pr, kernel, |file|)
              && (DistinctPages(JobOf(file).plan) ==>
                    (ok && ImageLoaded(vmm.View(), root, file, Loadable(file))
                     <==> Demand(old(vmm.View()), root, JobOf(file).plan) <= FreeCount(old(vmm.View()).used)))
  {
    ghost var ph := vmm.View();
    ghost var ready := Ready(ph, places, root, kernel, file);
    pr := Begin(ph, places);
    ghost var job := if ready then JobOf(file) else Job([], []);
    if ready {
      ReadyIsCalm(ph, places, root, kernel, file);
    }
    if !Supported(Peek(vmm.frames, 0, EHDR_SIZE)) {
      return 0, false, pr;
    }
    ok, pr := LoadSegments(vmm, root, pr, job);
    if ready {
      LoadEnded(pr, ph, vmm.View(), root, kernel, file, ok);
    }
    entry := if ok then EntryPoint(Peek(vmm.frames, 0, EHDR_SIZE)) else 0;
  }
}
