/** The kernel works on physical memory through its own identity mapping
    (src/kernel/elf.c:100), and it maps user pages in the address spaces that
    share it (src/kernel/vmm.c:121-124).  When a load leaves the kernel's view
    of the memory it works on alone, and when it does not. */
module DirectView {
  import opened Options
  import opened Pmm
  import opened Paging
  import opened Mapping
  import opened AddressSpaces
  import opened Loading
  import opened LoadArea
  import opened TakenFrames
  import opened LoadProgress

  /** The kernel finds frame f at its own address. */
  predicate Reaches(ph: Phys, kernel: nat, f: nat)
  {
    Translate(ph, kernel, f * BLOCK_SIZE) == Some(f * BLOCK_SIZE)
  }

  lemma SamePath(f: nat, o: nat)
    requires o < BLOCK_SIZE
    ensures PathOf(f * BLOCK_SIZE + o) == PathOf(f * BLOCK_SIZE) && (f * BLOCK_SIZE + o) % BLOCK_SIZE == o
  {
    assert (f * BLOCK_SIZE + o) / 0x1000 == f;
    PathNamesPage(f * BLOCK_SIZE + o, f * BLOCK_SIZE);
  }

  /** With the frame every byte of it. */
  lemma ReachesBytes(ph: Phys, kernel: nat, f: nat, o: nat)
    requires Reaches(ph, kernel, f) && o < BLOCK_SIZE
    ensures Translate(ph, kernel, f * BLOCK_SIZE + o) == Some(f * BLOCK_SIZE + o)
  {
    WithOffset(ph, kernel, f, f, o);
  }

  /** No page of the plan is mapped where the kernel looks for frame f. */
  predicate Spared(plan: seq<PageLoad>, f: nat)
  {
    forall k :: 0 <= k < |plan| ==> plan[k].path != PathOf(f * BLOCK_SIZE)
  }

  // ---------------------------------------------------------------------
  // Memory with the same tables
  // ---------------------------------------------------------------------

  /** The tables are the same in both memories. */
  ghost predicate SameTables(ph: Phys, ph1: Phys, places: map<nat, Place>)
  {
    |ph1.frames| == |ph.frames| && forall t :: t in places && t < |ph.frames| ==> ph1.frames[t] == ph.frames[t]
  }

  lemma {:induction false} SameDescend(ph: Phys, ph1: Phys, places: map<nat, Place>, u: nat, path: seq<nat>)
    requires Separated(ph, places) && SameTables(ph, ph1, places)
    requires u in places && IsPath(path) && |places[u].path| + |path| < 4
    ensures Descend(ph1, u, path) == Descend(ph, u, path)
    decreases |path|
  {
    if path != [] {
      assert EntryAt(ph1, u, path[0]) == EntryAt(ph, u, path[0]);
      if Present(EntryAt(ph, u, path[0])) {
        assert Linked(ph, places, u, path[0]);
        SameDescend(ph, ph1, places, EntryFrame(EntryAt(ph, u, path[0])), path[1..]);
      }
    }
  }

  lemma {:induction false} SameLookup(ph: Phys, ph1: Phys, places: map<nat, Place>, u: nat, path: seq<nat>)
    requires Separated(ph, places) && SameTables(ph, ph1, places)
    requires u in places && path != [] && IsPath(path) && |places[u].path| + |path| <= 4
    ensures Lookup(ph1, u, path) == Lookup(ph, u, path)
    decreases |path|
  {
    assert EntryAt(ph1, u, path[0]) == EntryAt(ph, u, path[0]);
    if |path| > 1 && Present(EntryAt(ph, u, path[0])) {
      assert Linked(ph, places, u, path[0]);
      SameLookup(ph, ph1, places, EntryFrame(EntryAt(ph, u, path[0])), path[1..]);
    }
  }

  lemma SameDemand(ph: Phys, ph1: Phys, places: map<nat, Place>, root: nat, plan: seq<PageLoad>)
    requires Separated(ph, places) && SameTables(ph, ph1, places) && IsRoot(places, root) && FullPaths(plan)
    ensures Demand(ph1, root, plan) == Demand(ph, root, plan)
  {
    forall q | q in TablesOf(plan) ensures Descend(ph1, root, q) == Descend(ph, root, q) {
      SameDescend(ph, ph1, places, root, q);
    }
    assert Missing(ph1, root, TablesOf(plan)) == Missing(ph, root, TablesOf(plan));
  }

  lemma SameReach(ph: Phys, ph1: Phys, places: map<nat, Place>, kernel: nat, f: nat)
    requires Separated(ph, places) && SameTables(ph, ph1, places) && IsRoot(places, kernel)
    ensures Reaches(ph1, kernel, f) <==> Reaches(ph, kernel, f)
  {
    SameLookup(ph, ph1, places, kernel, PathOf(f * BLOCK_SIZE));
  }

  // ---------------------------------------------------------------------
  // Views that survive
  // ---------------------------------------------------------------------

  /** In every address space only the page placed is seen to change. */
  lemma StepKeepsView(ph: Phys, places: map<nat, Place>, ph1: Phys, root: nat, page: PageLoad, r: nat, q: seq<nat>)
    requires Separated(ph, places) && IsRoot(places, root) && IsRoot(places, r) && LoadStep(ph, ph1, root, page)
    requires FullPath(q) && q != page.path
    ensures Lookup(ph1, r, q) == Lookup(ph, r, q) && IsRoot(LoadPlaces(ph, places, root, page), r)
  {
    TakeEffect(ph, places);
    StepSetting(ph, places, ph1, root, page);
    var (taken, p) := Take(ph);
    MapKeepsSeparation(taken, places, root, page.path, p, TABLE_FLAGS);
    MapElsewhere(taken, places, root, page.path, p, TABLE_FLAGS, r, q);
    TakeKeepsLookup(ph, r, q);
    WriteKeepsLookup(MappedFor(ph, root, page), LoadPlaces(ph, places, root, page), p / BLOCK_SIZE, page.bytes, r, q);
  }

  /** Through a whole load an address whose page is not in the plan stays where
      it was, in every address space. */
  lemma {:induction false} LoadKeepsView(trace: seq<Phys>, places: map<nat, Place>, root: nat, plan: seq<PageLoad>,
                                         r: nat, q: seq<nat>)
    requires Loads(trace, root, plan) && Separated(trace[0], places) && IsRoot(places, root) && IsRoot(places, r)
    requires FullPath(q) && forall k :: 0 <= k < |plan| ==> plan[k].path != q
    ensures Lookup(trace[|trace| - 1], r, q) == Lookup(trace[0], r, q)
    decreases |trace|
  {
    if |trace| > 1 {
      var states, pages := trace[1..], plan[1..];
      assert states[|states| - 1] == trace[|trace| - 1];
      StepKeepsView(trace[0], places, trace[1], root, plan[0], r, q);
      StepKeepsSeparation(trace[0], places, trace[1], root, plan[0]);
      RestOfLoad(trace, root, plan);
      LoadKeepsView(states, LoadPlaces(trace[0], places, root, plan[0]), root, pages, r, q);
    }
  }

  lemma LoadKeepsReach(trace: seq<Phys>, places: map<nat, Place>, root: nat, plan: seq<PageLoad>, kernel: nat, f: nat)
    requires Loads(trace, root, plan) && Separated(trace[0], places) && IsRoot(places, root) && IsRoot(places, kernel)
    requires Spared(plan, f)
    ensures Translate(trace[|trace| - 1], kernel, f * BLOCK_SIZE) == Translate(trace[0], kernel, f * BLOCK_SIZE)
  {
    LoadKeepsView(trace, places, root, plan, kernel, PathOf(f * BLOCK_SIZE));
  }

  // ---------------------------------------------------------------------
  // Views that are lost
  // ---------------------------------------------------------------------

  /** The page that the kernel looks at frame f through is mapped in a space
      that shares slot 0: from then on the kernel sees the frame just taken. */
  lemma StepTakesView(s: System, places: map<nat, Place>, root: nat, ph1: Phys, page: PageLoad, f: nat)
    requires Sharing(s, places) && root in s.roots && LoadStep(s.ph, ph1, root, page)
    requires f * BLOCK_SIZE < 0x80_0000_0000 && page.path == PathOf(f * BLOCK_SIZE)
    requires CanMap(Take(s.ph).0, root, page.path)
    ensures Translate(ph1, s.kernel, f * BLOCK_SIZE) == Some(Take(s.ph).1)
  {
    TakeEffect(s.ph, places);
    FrameOfEntry(Take(s.ph).1 / BLOCK_SIZE);
    StepMapsPage(s.ph, places, ph1, root, page);
    LoadStepKeepsSharing(s, places, root, ph1, page);
    TopIsZero(f * BLOCK_SIZE);
    assert EntryAt(ph1, root, 0) == EntryAt(ph1, s.kernel, 0);
    LeafTranslates(ph1, s.kernel, f, Take(s.ph).1 / BLOCK_SIZE);
  }

  lemma LeafTranslates(ph: Phys, r: nat, f: nat, g: nat)
    requires g < MAX_FRAMES
    requires Lookup(ph, r, PathOf(f * BLOCK_SIZE)) == Some(MakeEntry(g * BLOCK_SIZE, TABLE_FLAGS))
    ensures Translate(ph, r, f * BLOCK_SIZE) == Some(g * BLOCK_SIZE)
  {
    FrameOfEntry(g);
    SamePath(f, 0);
  }

  /** For an ELF file with a segment at 64 MB: when the frame for that page has
      been mapped and cleared, the kernel reads zeros where the file was. */
  lemma FileIsHidden(s: System, places: map<nat, Place>, root: nat, ph1: Phys, page: PageLoad, x: nat)
    requires Sharing(s, places) && root in s.roots && LoadStep(s.ph, ph1, root, page) && x < BLOCK_SIZE
    requires page.path == PathOf(AREA * BLOCK_SIZE) && CanMap(Take(s.ph).0, root, page.path)
    requires |page.bytes| == BLOCK_SIZE && forall k :: 0 <= k < BLOCK_SIZE ==> page.bytes[k] == 0
    ensures var a := Translate(ph1, s.kernel, AREA * BLOCK_SIZE + x);
            && a == Some(Take(s.ph).1 + x) && Take(s.ph).1 / BLOCK_SIZE < |ph1.frames|
            && FrameBytes(ph1.frames[Take(s.ph).1 / BLOCK_SIZE])[x] == 0
  {
    TakeEffect(s.ph, places);
    StepTakesView(s, places, root, ph1, page, AREA);
    WithOffset(ph1, s.kernel, AREA, Take(s.ph).1 / BLOCK_SIZE, x);
    StepSetting(s.ph, places, ph1, root, page);
  }

  lemma WithOffset(ph: Phys, r: nat, f: nat, g: nat, o: nat)
    requires Translate(ph, r, f * BLOCK_SIZE) == Some(g * BLOCK_SIZE) && o < BLOCK_SIZE
    ensures Translate(ph, r, f * BLOCK_SIZE + o) == Some(g * BLOCK_SIZE + o)
  {
    SamePath(f, o);
    SamePath(f, 0);
  }

  /** The exact rule for one page. */
  lemma StepReachesExactly(s: System, places: map<nat, Place>, root: nat, ph1: Phys, page: PageLoad, f: nat)
    requires Sharing(s, places) && root in s.roots && LoadStep(s.ph, ph1, root, page)
    requires f * BLOCK_SIZE < 0x80_0000_0000 && Reaches(s.ph, s.kernel, f)
    ensures Reaches(ph1, s.kernel, f) <==> page.path != PathOf(f * BLOCK_SIZE) || Take(s.ph).1 == f * BLOCK_SIZE
  {
    if page.path == PathOf(f * BLOCK_SIZE) {
      TopIsZero(f * BLOCK_SIZE);
      TakeEffect(s.ph, places);
      TakeKeepsSharing(s, places);
      TakeKeepsLookup(s.ph, s.kernel, page.path);
      SharedPageCanBeMapped(s.(ph := Take(s.ph).0), places, root, page.path);
      StepTakesView(s, places, root, ph1, page, f);
    } else {
      StepKeepsView(s.ph, places, ph1, root, page, s.kernel, PathOf(f * BLOCK_SIZE));
    }
  }

  lemma TakeKeepsSharing(s: System, places: map<nat, Place>)
    requires Sharing(s, places) && Take(s.ph).1 != 0
    ensures Sharing(s.(ph := Take(s.ph).0), places)
  {
    TakeEffect(s.ph, places);
    forall r | r in s.roots ensures EntryAt(Take(s.ph).0, r, 0) == EntryAt(s.ph, r, 0) {
    }
  }

  lemma ReachNext(pr: Progress, root: nat, ph: Phys, kernel: nat, roots: set<nat>, f: nat, k: nat)
    requires Tracks(pr, root, ph) && root in roots && k < |pr.done|
    requires Sharing(System(pr.trace[0], kernel, roots), pr.maps[0]) && f * BLOCK_SIZE < 0x80_0000_0000
    ensures pr.done[k].path != PathOf(f * BLOCK_SIZE) ==>
              (Reaches(pr.trace[k + 1], kernel, f) <==> Reaches(pr.trace[k], kernel, f))
    ensures pr.done[k].path == PathOf(f * BLOCK_SIZE) && Reaches(pr.trace[k], kernel, f) ==>
              (Reaches(pr.trace[k + 1], kernel, f) <==> Take(pr.trace[k]).1 == f * BLOCK_SIZE)
  {
    var s, places := System(pr.trace[k], kernel, roots), pr.maps[k];
    LoadKeepsSharing(pr, root, ph, kernel, roots, k);
    assert LoadStep(pr.trace[k], pr.trace[k + 1], root, pr.done[k]);
    if pr.done[k].path != PathOf(f * BLOCK_SIZE) {
      StepKeepsView(s.ph, places, pr.trace[k + 1], root, pr.done[k], kernel, PathOf(f * BLOCK_SIZE));
    } else if Reaches(pr.trace[k], kernel, f) {
      StepReachesExactly(s, places, root, pr.trace[k + 1], pr.done[k], f);
    }
  }

  /** The page at frame f's address, if one of the first k pages is, was put
      into frame f itself. */
  ghost predicate Unmoved(pr: Progress, f: nat, k: nat)
    requires k <= |pr.done| <= |pr.trace|
  {
    forall j :: 0 <= j < k && pr.done[j].path == PathOf(f * BLOCK_SIZE) ==> Take(pr.trace[j]).1 == f * BLOCK_SIZE
  }

  /** The exact rule for a load: that is when the kernel still finds frame f at
      its address. */
  lemma {:induction false} LoadReachesExactly(pr: Progress, root: nat, ph: Phys, kernel: nat, roots: set<nat>,
                                              f: nat, k: nat)
    requires Tracks(pr, root, ph) && DistinctPages(pr.done) && root in roots && k <= |pr.done|
    requires Sharing(System(pr.trace[0], kernel, roots), pr.maps[0])
    requires f * BLOCK_SIZE < 0x80_0000_0000 && Reaches(pr.trace[0], kernel, f)
    ensures Reaches(pr.trace[k], kernel, f) <==> Unmoved(pr, f, k)
  {
    if k > 0 {
      LoadReachesExactly(pr, root, ph, kernel, roots, f, k - 1);
      ReachNext(pr, root, ph, kernel, roots, f, k - 1);
      assert Unmoved(pr, f, k) ==> Unmoved(pr, f, k - 1);
      if pr.done[k - 1].path == PathOf(f * BLOCK_SIZE) {
        assert forall j :: 0 <= j < k - 1 ==> pr.done[j].path != pr.done[k - 1].path;
        assert Unmoved(pr, f, k - 1);
      }
    }
  }

  // ---------------------------------------------------------------------
  // Loads that work on what the kernel sees
  // ---------------------------------------------------------------------

  /** The memory that a load for d frames works on: the page tables, the load
      area, and the frames it is going to take. */
  ghost predicate Touched(ph: Phys, places: map<nat, Place>, d: nat, n: nat, f: nat)
  {
    f < |ph.frames| && (f in places || InArea(f, n) || WouldTake(ph.used, d, f))
  }

  /** What a caller can check before a load: the kernel sees all of that memory
      at its own address, and no page of the plan comes to lie there. */
  ghost predicate Direct(ph: Phys, places: map<nat, Place>, kernel: nat, plan: seq<PageLoad>, d: nat, n: nat)
  {
    && IsRoot(places, kernel)
    && forall f {:trigger Touched(ph, places, d, n, f)} ::
         Touched(ph, places, d, n, f) ==> Reaches(ph, kernel, f) && Spared(plan, f)
  }

  /** The memory that is worked on around state k of a load. */
  ghost predicate Accessed(pr: Progress, n: nat, k: nat, f: nat)
    requires k < |pr.trace| == |pr.maps|
  {
    && f < |pr.trace[k].frames|
    && (f in pr.maps[k] || InArea(f, n) || (k + 1 < |pr.trace| && f == Take(pr.trace[k]).1 / BLOCK_SIZE)
        || (k > 0 && f == Take(pr.trace[k - 1]).1 / BLOCK_SIZE))
  }

  /** In every state of the load the kernel sees the memory worked on. */
  ghost predicate SeesItsWork(pr: Progress, kernel: nat, n: nat)
    requires |pr.trace| == |pr.maps|
  {
    forall k, f {:trigger Accessed(pr, n, k, f)} ::
      0 <= k < |pr.trace| && 0 <= f && Accessed(pr, n, k, f) ==> Reaches(pr.trace[k], kernel, f)
  }

  /** Where the tables along a load come from. */
  lemma {:induction false} TablesAreOldOrTaken(pr: Progress, root: nat, ph: Phys, places: map<nat, Place>,
                                               k: nat, f: nat)
    requires Tracks(pr, root, ph) && k < |pr.trace| && f in pr.maps[k] && places == pr.maps[0]
    requires Separated(pr.trace[0], places) && IsRoot(places, root)
    ensures Separated(pr.trace[k], pr.maps[k]) && IsRoot(pr.maps[k], root)
    ensures f < |pr.trace[k].used| == |pr.trace[0].used|
    ensures f in places || (!pr.trace[0].used[f] && pr.trace[k].used[f])
    decreases k
  {
    PlacesAlong(pr, root, ph, k);
    LoadTakesLowest(pr.trace, root, pr.done, 0, k);
    if k > 0 {
      assert MapsStep(pr, root, k - 1) && LoadStep(pr.trace[k - 1], pr.trace[k], root, pr.done[k - 1]);
      PlacesAlong(pr, root, ph, k - 1);
      LoadTakesLowest(pr.trace, root, pr.done, 0, k - 1);
      if f in pr.maps[k - 1] {
        TablesAreOldOrTaken(pr, root, ph, places, k - 1, f);
        LoadTakesLowest(pr.trace, root, pr.done, k - 1, k);
      } else if pr.trace[k - 1].used[f] {
        StepKeepsData(pr.trace[k - 1], pr.maps[k - 1], pr.trace[k], root, pr.done[k - 1], f);
      }
    }
  }

  lemma {:induction false} PlacesAlong(pr: Progress, root: nat, ph: Phys, k: nat)
    requires Tracks(pr, root, ph) && k < |pr.trace| && Separated(pr.trace[0], pr.maps[0]) && IsRoot(pr.maps[0], root)
    ensures Separated(pr.trace[k], pr.maps[k]) && IsRoot(pr.maps[k], root)
  {
    if k > 0 {
      PlacesAlong(pr, root, ph, k - 1);
      assert MapsStep(pr, root, k - 1) && LoadStep(pr.trace[k - 1], pr.trace[k], root, pr.done[k - 1]);
      StepKeepsSeparation(pr.trace[k - 1], pr.maps[k - 1], pr.trace[k], root, pr.done[k - 1]);
    }
  }

  /** A load as its progress has it, along a plan. */
  ghost predicate AlongPlan(pr: Progress, root: nat, ph: Phys, plan: seq<PageLoad>)
  {
    && Tracks(pr, root, ph) && pr.done <= plan && FullPaths(plan)
    && Separated(pr.trace[0], pr.maps[0]) && IsRoot(pr.maps[0], root)
  }

  lemma NewlyUsedIsTouched(pr: Progress, root: nat, ph: Phys, plan: seq<PageLoad>, n: nat, k: nat, f: nat)
    requires AlongPlan(pr, root, ph, plan) && k < |pr.trace| && f < |pr.trace[0].used| == |pr.trace[k].used|
    requires !pr.trace[0].used[f] && pr.trace[k].used[f]
    ensures Touched(pr.trace[0], pr.maps[0], Demand(pr.trace[0], root, plan), n, f)
  {
    LoadsPrefix(pr.trace, root, pr.done, plan);
    TakenIsNamed(pr.trace, pr.maps[0], root, plan, k, f);
  }

  /** The frame for page j was free when the load began. */
  lemma FrameIsTouched(pr: Progress, root: nat, ph: Phys, plan: seq<PageLoad>, n: nat, j: nat)
    requires AlongPlan(pr, root, ph, plan) && j < |pr.done|
    ensures Touched(pr.trace[0], pr.maps[0], Demand(pr.trace[0], root, plan), n, Take(pr.trace[j]).1 / BLOCK_SIZE)
  {
    var f := Take(pr.trace[j]).1 / BLOCK_SIZE;
    PlacesAlong(pr, root, ph, j);
    assert LoadStep(pr.trace[j], pr.trace[j + 1], root, pr.done[j]);
    TakeEffect(pr.trace[j], pr.maps[j]);
    StepSetting(pr.trace[j], pr.maps[j], pr.trace[j + 1], root, pr.done[j]);
    LoadTakesLowest(pr.trace, root, pr.done, 0, j);
    LoadTakesLowest(pr.trace, root, pr.done, 0, j + 1);
    NewlyUsedIsTouched(pr, root, ph, plan, n, j + 1, f);
  }

  /** All memory that a load works on could be named before it began. */
  lemma AccessedIsTouched(pr: Progress, root: nat, ph: Phys, plan: seq<PageLoad>, n: nat, k: nat, f: nat)
    requires AlongPlan(pr, root, ph, plan) && k < |pr.trace| && Accessed(pr, n, k, f)
    ensures Touched(pr.trace[0], pr.maps[0], Demand(pr.trace[0], root, plan), n, f)
  {
    PlacesAlong(pr, root, ph, k);
    LoadTakesLowest(pr.trace, root, pr.done, 0, k);
    if f in pr.maps[k] {
      TablesAreOldOrTaken(pr, root, ph, pr.maps[0], k, f);
      if f !in pr.maps[0] {
        NewlyUsedIsTouched(pr, root, ph, plan, n, k, f);
      }
    } else if k + 1 < |pr.trace| && f == Take(pr.trace[k]).1 / BLOCK_SIZE {
      FrameIsTouched(pr, root, ph, plan, n, k);
    } else if k > 0 && f == Take(pr.trace[k - 1]).1 / BLOCK_SIZE {
      FrameIsTouched(pr, root, ph, plan, n, k - 1);
    }
  }

  /** Under the caller's condition the kernel sees, in every state of the load,
      all the memory that is worked on there. */
  lemma LoadIsDirect(pr: Progress, root: nat, ph: Phys, kernel: nat, plan: seq<PageLoad>, n: nat)
    requires AlongPlan(pr, root, ph, plan)
    requires Direct(pr.trace[0], pr.maps[0], kernel, plan, Demand(pr.trace[0], root, plan), n)
    ensures SeesItsWork(pr, kernel, n)
  {
    forall k, f | 0 <= k < |pr.trace| && 0 <= f && Accessed(pr, n, k, f) ensures Reaches(pr.trace[k], kernel, f) {
      AccessedIsTouched(pr, root, ph, plan, n, k, f);
      ReachSoFar(pr, root, ph, kernel, plan, k, f);
    }
  }

  lemma ReachSoFar(pr: Progress, root: nat, ph: Phys, kernel: nat, plan: seq<PageLoad>, k: nat, f: nat)
    requires AlongPlan(pr, root, ph, plan) && k < |pr.trace| && IsRoot(pr.maps[0], kernel)
    requires Reaches(pr.trace[0], kernel, f) && Spared(plan, f)
    ensures Reaches(pr.trace[k], kernel, f)
  {
    var states, pages := pr.trace[..k + 1], pr.done[..k];
    assert Loads(states, root, pages);
    LoadKeepsReach(states, pr.maps[0], root, pages, kernel, f);
  }
}
