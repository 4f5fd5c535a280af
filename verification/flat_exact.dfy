/** The exact rule for flat binaries (src/kernel/kernel.c:336-361): which free
    frames of the load area may be taken during a load without harm. */
module FlatExactly {
  import opened Options
  import opened Pmm
  import opened Paging
  import opened Mapping
  import opened Loading
  import opened LoadArea
  import opened TakenFrames
  import opened LoadProgress
  import opened DirectView
  import opened Elf
  import opened FlatBinary

  // ---------------------------------------------------------------------
  // Frames that are not taken
  // ---------------------------------------------------------------------

  lemma {:induction false} PopulateKeepsUnused(ph: Phys, places: map<nat, Place>, t: nat, path: seq<nat>, g: nat)
    requires Separated(ph, places) && t in places && IsPath(path) && |places[t].path| + |path| < 4
    requires g < |ph.frames| && g !in places && !Populate(ph, t, path).0.used[g]
    ensures Populate(ph, t, path).0.frames[g] == ph.frames[g] && g !in PopulatePlaces(ph, places, t, path)
    decreases |path|
  {
    if path != [] {
      EnsureCases(ph, places, t, path[0]);
      StepDown(ph, places, t, path);
      var (ph1, n) := Ensure(ph, t, path[0]);
      if n.Some? {
        if !Present(EntryAt(ph, t, path[0])) {
          PopulateUses(ph1, n.value, path[1..], n.value);
        }
        PopulateKeepsUnused(ph1, places[n.value := Child(places[t], path[0])], n.value, path[1..], g);
      }
    }
  }

  /** A step writes to no frame that stays free. */
  lemma StepKeepsUnused(ph: Phys, places: map<nat, Place>, ph1: Phys, root: nat, page: PageLoad, g: nat)
    requires Separated(ph, places) && IsRoot(places, root) && LoadStep(ph, ph1, root, page)
    requires g < |ph.frames| && g !in places && g < |ph1.used| && !ph1.used[g]
    ensures |ph1.frames| == |ph.frames| && ph1.frames[g] == ph.frames[g] && g !in LoadPlaces(ph, places, root, page)
  {
    TakeEffect(ph, places);
    var (taken, p) := Take(ph);
    PopulateKeepsUnused(taken, places, root, page.path[..3], g);
    MapReachesLeaf(taken, places, root, page.path);
    MapIsLeafWrite(taken, places, root, page.path, p, TABLE_FLAGS);
    PopulateUses(taken, root, page.path[..3], p / BLOCK_SIZE);
  }

  lemma StepKeepsUntaken(ph: Phys, places: map<nat, Place>, ph1: Phys, root: nat, page: PageLoad, g: nat)
    requires Separated(ph, places) && IsRoot(places, root) && LoadStep(ph, ph1, root, page)
    requires g < |ph.used| == |ph1.used| && g !in places && ph1.used[g] == ph.used[g]
    ensures |ph1.frames| == |ph.frames| && ph1.frames[g] == ph.frames[g] && g !in LoadPlaces(ph, places, root, page)
  {
    if ph.used[g] {
      StepKeepsData(ph, places, ph1, root, page, g);
    } else {
      StepKeepsUnused(ph, places, ph1, root, page, g);
    }
  }

  lemma StillUntaken(trace: seq<Phys>, root: nat, plan: seq<PageLoad>, k: nat, g: nat)
    requires Loads(trace, root, plan) && 0 < k < |trace| && g < |trace[0].used| == |trace[k].used|
    requires trace[k].used[g] == trace[0].used[g]
    ensures g < |trace[k - 1].used| == |trace[0].used| && trace[k - 1].used[g] == trace[0].used[g]
  {
    LoadTakesLowest(trace, root, plan, 0, k - 1);
    LoadTakesLowest(trace, root, plan, k - 1, k);
  }

  /** A load writes to no frame that it has not taken and that is no table. */
  lemma {:induction false} LoadKeepsUntaken(pr: Progress, root: nat, ph: Phys, k: nat, g: nat)
    requires Tracks(pr, root, ph) && k < |pr.trace| && Separated(pr.trace[0], pr.maps[0]) && IsRoot(pr.maps[0], root)
    requires g < |pr.trace[0].used| == |pr.trace[k].used| && g !in pr.maps[0]
    requires pr.trace[k].used[g] == pr.trace[0].used[g]
    ensures g < |pr.trace[k].frames| && pr.trace[k].frames[g] == pr.trace[0].frames[g] && g !in pr.maps[k]
    decreases k
  {
    if k > 0 {
      StillUntaken(pr.trace, root, pr.done, k, g);
      PlacesAlong(pr, root, ph, k - 1);
      LoadKeepsUntaken(pr, root, ph, k - 1, g);
      assert MapsStep(pr, root, k - 1) && LoadStep(pr.trace[k - 1], pr.trace[k], root, pr.done[k - 1]);
      StepKeepsUntaken(pr.trace[k - 1], pr.maps[k - 1], pr.trace[k], root, pr.done[k - 1], g);
    }
  }

  // ---------------------------------------------------------------------
  // Frames taken up to the copy of a page
  // ---------------------------------------------------------------------

  /** The first k pages of a flat file, as far as frames are concerned. */
  function FlatPaths(k: nat): (plan: seq<PageLoad>)
    ensures |plan| == k && FullPaths(plan)
  {
    seq<PageLoad>(k, j requires 0 <= j < k => PageLoad(PathOf(FLAT_BASE + j * 4096), []))
  }

  lemma {:induction false} SamePathsSameTables(a: seq<PageLoad>, b: seq<PageLoad>)
    requires FullPaths(a) && FullPaths(b) && |a| == |b| && forall k :: 0 <= k < |a| ==> a[k].path == b[k].path
    ensures TablesOf(a) == TablesOf(b)
    decreases |a|
  {
    if a != [] {
      forall k | 0 <= k < |a[1..]| ensures a[1..][k].path == b[1..][k].path {
        assert a[1..][k] == a[k + 1] && b[1..][k] == b[k + 1];
      }
      SamePathsSameTables(a[1..], b[1..]);
    }
  }

  lemma {:induction false} PrefixTables(plan: seq<PageLoad>, k: nat)
    requires FullPaths(plan) && k <= |plan|
    ensures TablesOf(plan[..k]) <= TablesOf(plan)
    decreases k
  {
    if k > 0 {
      PrefixTables(plan[1..], k - 1);
      assert plan[..k][1..] == plan[1..][..k - 1];
    }
  }

  lemma PrefixDemand(ph: Phys, root: nat, plan: seq<PageLoad>, k: nat)
    requires FullPaths(plan) && k <= |plan|
    ensures Demand(ph, root, plan[..k]) + |plan| - k <= Demand(ph, root, plan)
  {
    PrefixTables(plan, k);
    SubsetSize(Missing(ph, root, TablesOf(plan[..k])), Missing(ph, root, TablesOf(plan)));
  }

  /** The load was complete, in the places of a flat file, and had the frames. */
  ghost predicate FlatDone(pr: Progress, root: nat, ph: Phys, size: nat)
  {
    && Tracks(pr, root, ph) && FlatRun(pr, root, size) && size <= |pr.done| * 4096 < size + 4096
    && Separated(pr.trace[0], pr.maps[0]) && IsRoot(pr.maps[0], root) && AreaClear(pr.maps[0], size)
    && Demand(pr.trace[0], root, FlatPaths(|pr.done|)) <= FreeCount(pr.trace[0].used)
  }

  ghost predicate FlatPlaced(plan: seq<PageLoad>)
  {
    forall j :: 0 <= j < |plan| ==> plan[j].path == PathOf(FLAT_BASE + j * 4096)
  }

  lemma DoneIsPlaced(pr: Progress, root: nat, size: nat)
    requires FlatRun(pr, root, size)
    ensures FlatPlaced(pr.done)
  {
    forall j | 0 <= j < |pr.done| ensures pr.done[j].path == PathOf(FLAT_BASE + j * 4096) {
      assert FlatRunStep(pr, root, size, j);
    }
  }

  lemma PlacedDemand(ph: Phys, root: nat, plan: seq<PageLoad>, k: nat)
    requires FlatPlaced(plan) && k <= |plan|
    ensures FullPaths(plan) && FullPaths(plan[..k]) && Demand(ph, root, plan[..k]) == Demand(ph, root, FlatPaths(k))
  {
    var a, b := plan[..k], FlatPaths(k);
    forall j | 0 <= j < k ensures a[j].path == b[j].path {
    }
    SamePathsSameTables(a, b);
  }

  /** How many frames have been taken when page k is about to be placed. */
  lemma CountedSoFar(pr: Progress, root: nat, ph: Phys, size: nat, k: nat)
    requires FlatDone(pr, root, ph, size) && k <= |pr.done|
    ensures FreeCount(pr.trace[0].used)
            == FreeCount(pr.trace[k].used) + Demand(pr.trace[0], root, FlatPaths(k))
  {
    var n := |pr.done|;
    DoneIsPlaced(pr, root, size);
    PlacedDemand(pr.trace[0], root, pr.done, k);
    PlacedDemand(pr.trace[0], root, pr.done, n);
    assert pr.done[..n] == pr.done;
    PrefixDemand(pr.trace[0], root, pr.done, k);
    CountsOfPrefix(pr, root, ph, k);
  }

  lemma CountsOfPrefix(pr: Progress, root: nat, ph: Phys, k: nat)
    requires Tracks(pr, root, ph) && Separated(pr.trace[0], pr.maps[0]) && IsRoot(pr.maps[0], root)
    requires k <= |pr.done| && FullPaths(pr.done[..k])
    requires Demand(pr.trace[0], root, pr.done[..k]) <= FreeCount(pr.trace[0].used)
    ensures FreeCount(pr.trace[0].used) == FreeCount(pr.trace[k].used) + Demand(pr.trace[0], root, pr.done[..k])
  {
    var states, pages := pr.trace[..k + 1], pr.done[..k];
    assert Loads(states, root, pages) && states[0] == pr.trace[0] && states[|states| - 1] == pr.trace[k];
    LoadCounts(states, pr.maps[0], root, pages);
  }

  /** Frame f of the area has been taken when page k is copied, and was free
      before. */
  ghost predicate TakenByCopy(ph: Phys, root: nat, k: nat)
  {
    WouldTake(ph.used, 1 + Demand(ph, root, FlatPaths(k)), AREA + k)
  }

  /** The flags at the moment of the copy. */
  lemma UsedAtCopy(pr: Progress, root: nat, ph: Phys, size: nat, k: nat)
    requires FlatDone(pr, root, ph, size) && k < |pr.done|
    ensures LowestFirst(pr.trace[0].used, Take(pr.trace[k]).0.used)
    ensures FreeCount(pr.trace[0].used)
            == FreeCount(Take(pr.trace[k]).0.used) + 1 + Demand(pr.trace[0], root, FlatPaths(k))
  {
    PlacesAlong(pr, root, ph, k);
    assert FlatRunStep(pr, root, size, k);
    CountedSoFar(pr, root, ph, size, k);
    LoadTakesLowest(pr.trace, root, pr.done, 0, k);
    TakeEffect(pr.trace[k], pr.maps[k]);
    OneTaken(pr.trace[0].used, pr.trace[k].used);
  }

  lemma OneTaken(used: seq<bool>, used1: seq<bool>)
    requires LowestFirst(used, used1)
    ensures LowestFirst(used, Alloc(used1).0)
  {
    assert LowestFirst(used1, Alloc(used1).0);
    LowestFirstTwice(used, used1, Alloc(used1).0);
  }

  /** That can be told before the load. */
  lemma TakenByCopyExactly(pr: Progress, root: nat, ph: Phys, size: nat, k: nat)
    requires FlatDone(pr, root, ph, size) && k < |pr.done| && AREA + k < |pr.trace[0].used|
    ensures |Take(pr.trace[k]).0.used| == |pr.trace[0].used|
    ensures pr.trace[0].used[AREA + k] ==> Take(pr.trace[k]).0.used[AREA + k]
    ensures TakenByCopy(pr.trace[0], root, k) <==>
            !pr.trace[0].used[AREA + k] && Take(pr.trace[k]).0.used[AREA + k]
  {
    UsedAtCopy(pr, root, ph, size, k);
    TakenExactly(pr.trace[0].used, Take(pr.trace[k]).0.used, AREA + k);
  }

  // ---------------------------------------------------------------------
  // Pages copied in time
  // ---------------------------------------------------------------------

  /** A page comes from one frame of the area. */
  lemma PageOfOneFrame(frames: seq<Frame>, frames1: seq<Frame>, k: nat, size: nat)
    requires k * 4096 < size && |frames1| == |frames|
    requires AREA + k < |frames| ==> frames1[AREA + k] == frames[AREA + k]
    ensures FlatBytes(frames1, k * 4096, size) == FlatBytes(frames, k * 4096, size)
  {
    var len := if k * 4096 + 4096 > size then size - k * 4096 else 4096;
    var a, b := AreaBytes(frames, k * 4096, len), AreaBytes(frames1, k * 4096, len);
    forall o | 0 <= o < len ensures a[o] == b[o] {
      ByteOfFrame(frames, k, o);
      ByteOfFrame(frames1, k, o);
    }
    assert a == b;
  }

  lemma ByteOfFrame(frames: seq<Frame>, k: nat, o: nat)
    requires o < 4096
    ensures AreaByte(frames, k * 4096 + o) == if AREA + k < |frames| then FrameBytes(frames[AREA + k])[o] else 0
  {
    assert (k * 4096 + o) / BLOCK_SIZE == k && (k * 4096 + o) % BLOCK_SIZE == o;
  }

  lemma ClearingSpares(ph: Phys, places: map<nat, Place>, used: bool, g: nat)
    requires Separated(ph, places) && Take(ph).1 != 0 && g < |ph.used|
    requires Take(ph).0.used[g] == used && (used ==> ph.used[g])
    ensures Take(ph).1 / BLOCK_SIZE < |ph.frames| && ph.used[g] == used && Zeroed(ph).frames[g] == ph.frames[g]
  {
    TakeEffect(ph, places);
  }

  /** Untaken, the frame holds at the copy what it held at the beginning. */
  lemma FrameAtCopy(pr: Progress, root: nat, ph: Phys, size: nat, k: nat)
    requires FlatDone(pr, root, ph, size) && k < |pr.done| && AREA + k < |pr.trace[0].frames|
    requires |Take(pr.trace[k]).0.used| == |pr.trace[0].used|
    requires Take(pr.trace[k]).0.used[AREA + k] == pr.trace[0].used[AREA + k]
    ensures Take(pr.trace[k]).1 / BLOCK_SIZE < |pr.trace[k].frames| == |pr.trace[0].frames|
    ensures Zeroed(pr.trace[k]).frames[AREA + k] == pr.trace[0].frames[AREA + k]
  {
    var g := AREA + k;
    assert FlatRunStep(pr, root, size, k);
    assert InArea(g, size);
    LoadTakesLowest(pr.trace, root, pr.done, 0, k);
    PlacesAlong(pr, root, ph, k);
    ClearingSpares(pr.trace[k], pr.maps[k], pr.trace[0].used[g], g);
    LoadKeepsUntaken(pr, root, ph, k, g);
  }

  /** So the page placed is the one of the memory that the load began with. */
  lemma PageIsRight(pr: Progress, root: nat, ph: Phys, size: nat, k: nat)
    requires FlatDone(pr, root, ph, size) && k < |pr.done| && !TakenByCopy(pr.trace[0], root, k)
    ensures k * 4096 < size
    ensures pr.done[k] == PageLoad(PathOf(FLAT_BASE + k * 4096), FlatBytes(pr.trace[0].frames, k * 4096, size))
  {
    assert FlatRunStep(pr, root, size, k);
    PlacesAlong(pr, root, ph, k);
    LoadTakesLowest(pr.trace, root, pr.done, 0, k);
    if AREA + k < |pr.trace[0].frames| {
      TakenByCopyExactly(pr, root, ph, size, k);
      FrameAtCopy(pr, root, ph, size, k);
    }
    PageOfOneFrame(pr.trace[0].frames, Zeroed(pr.trace[k]).frames, k, size);
  }

  lemma PlannedPage(frames: seq<Frame>, file: seq<nat>, k: nat, offset: nat, page: PageLoad)
    requires FlatFile(file) && offset == k * 4096 < |file| && AreaBytes(frames, 0, |file|) == file
    requires page == PageLoad(PathOf(FLAT_BASE + offset), FlatBytes(frames, offset, |file|))
    ensures k < |FlatJob(file).plan| && FlatJob(file).plan[k] == page
  {
    FlatPageAt(file, k, offset);
    FlatBytesOfFile(frames, file, offset, FLAT_BASE + offset);
  }

  /** It is the page that the file asks for. */
  lemma PageIsPlanned(pr: Progress, root: nat, ph: Phys, file: seq<nat>, k: nat)
    requires FlatFile(file) && FlatDone(pr, root, ph, |file|) && Buffered(pr.trace[0], file)
    requires k < |pr.done| && !TakenByCopy(pr.trace[0], root, k)
    ensures k < |FlatJob(file).plan| && pr.done[k] == FlatJob(file).plan[k]
  {
    PageIsRight(pr, root, ph, |file|, k);
    PlannedPage(pr.trace[0].frames, file, k, k * 4096, pr.done[k]);
  }

  /** Every frame of the area is copied before it is taken, if ever. */
  ghost predicate CopiedInTime(ph: Phys, root: nat, size: nat)
  {
    forall k: nat {:trigger TakenByCopy(ph, root, k)} :: k * 4096 < size ==> !TakenByCopy(ph, root, k)
  }

  lemma DoneIsPlanned(pr: Progress, root: nat, ph: Phys, file: seq<nat>)
    requires FlatFile(file) && FlatDone(pr, root, ph, |file|) && Buffered(pr.trace[0], file)
    requires CopiedInTime(pr.trace[0], root, |file|)
    ensures pr.done == FlatJob(file).plan
  {
    var plan := FlatJob(file).plan;
    FlatIsSane(file);
    assert |pr.done| == |plan|;
    forall k | 0 <= k < |plan| ensures pr.done[k] == plan[k] {
      assert !TakenByCopy(pr.trace[0], root, k);
      PageIsPlanned(pr, root, ph, file, k);
    }
  }

  /** The process sees the file. */
  ghost predicate Arrives(ph: Phys, root: nat, file: seq<nat>)
  {
    FlatFile(file) && Sane(file, FlatSegment(file)) && ImageLoaded(ph, root, file, [FlatSegment(file)])
  }

  /** Frames may be taken behind the copying: the image is the file. */
  lemma RightIfCopiedInTime(pr: Progress, root: nat, ph: Phys, file: seq<nat>)
    requires FlatFile(file) && FlatDone(pr, root, ph, |file|) && Buffered(pr.trace[0], file)
    requires CopiedInTime(pr.trace[0], root, |file|)
    ensures Arrives(ph, root, file)
  {
    DoneIsPlanned(pr, root, ph, file);
    FlatIsSane(file);
    FlatPagesDiffer(file);
    OnePlan(file);
    EnoughForPlan(pr, root, ph, |file|);
    ElfImageExactly(pr.trace, pr.maps[0], root, file, [FlatSegment(file)]);
  }

  lemma EnoughForPlan(pr: Progress, root: nat, ph: Phys, size: nat)
    requires FlatDone(pr, root, ph, size)
    ensures FullPaths(pr.done) && Demand(pr.trace[0], root, pr.done) <= FreeCount(pr.trace[0].used)
  {
    DoneIsPlaced(pr, root, size);
    PlacedDemand(pr.trace[0], root, pr.done, |pr.done|);
    assert pr.done[..|pr.done|] == pr.done;
  }

  // ---------------------------------------------------------------------
  // Pages copied too late
  // ---------------------------------------------------------------------

  /** The first byte of a frame. */
  function LowByte(fr: Frame): (b: nat)
  {
    FrameBytes(fr)[0]
  }

  lemma LowByteOfTable(es: seq<nat>)
    requires es != []
    ensures LowByte(Table(es)) == es[0] % 256
  {
    assert Pow256(0) == 1;
  }

  /** Frame g, once in use, does not begin with a one. */
  ghost predicate NoOne(ph: Phys, g: nat)
  {
    g < |ph.used| == |ph.frames| && ph.used[0] && (ph.used[g] ==> LowByte(ph.frames[g]) != 1)
  }

  lemma EntryIsNoOne(ph: Phys, t: nat, i: nat, e: nat, g: nat)
    requires IsTable(ph, t) && i < ENTRIES && e % 256 != 1 && NoOne(ph, g)
    ensures NoOne(SetEntry(ph, t, i, e), g)
  {
    if t == g {
      LowByteOfTable(ph.frames[t].entries);
      LowByteOfTable(ph.frames[t].entries[i := e]);
    }
  }

  lemma MadeEntry(f: nat)
    ensures (f * BLOCK_SIZE + TABLE_FLAGS) % 256 == TABLE_FLAGS
  {
    assert f * BLOCK_SIZE == 256 * (16 * f);
  }

  lemma AllocTakes(used: seq<bool>)
    requires |used| > 0 && used[0]
    ensures var f := FirstFree(used);
            if Alloc(used).1 == 0 then Alloc(used).0 == used
            else f < |used| && Alloc(used) == (used[f := true], f * BLOCK_SIZE) && Alloc(used).1 / BLOCK_SIZE == f
  {
  }

  lemma ClearedIsNoOne(ph: Phys, f: nat, fr: Frame, g: nat)
    requires NoOne(ph, g) && f < |ph.used| && LowByte(fr) != 1
    ensures NoOne(Phys(ph.used[f := true], ph.frames[f := fr]), g)
  {
  }

  lemma ZeroTableIsNoOne()
    ensures LowByte(ZeroTable()) == 0
  {
    LowByteOfTable(ZeroTable().entries);
  }

  /** Tables begin with the flags of an entry or with zero. */
  lemma EnsureIsNoOne(ph: Phys, t: nat, i: nat, g: nat)
    requires IsTable(ph, t) && i < ENTRIES && NoOne(ph, g)
    ensures NoOne(Ensure(ph, t, i).0, g)
  {
    AllocTakes(ph.used);
    if !Present(EntryAt(ph, t, i)) && Alloc(ph.used).1 != 0 {
      var f := FirstFree(ph.used);
      HungInIsNoOne(ph, t, i, f, g);
      assert Ensure(ph, t, i).0
          == SetEntry(Phys(ph.used[f := true], ph.frames[f := ZeroTable()]), t, i, f * BLOCK_SIZE + TABLE_FLAGS);
    }
  }

  lemma HungInIsNoOne(ph: Phys, t: nat, i: nat, f: nat, g: nat)
    requires IsTable(ph, t) && i < ENTRIES && NoOne(ph, g) && f < |ph.used|
    ensures var zeroed := Phys(ph.used[f := true], ph.frames[f := ZeroTable()]);
            IsTable(zeroed, t) && NoOne(SetEntry(zeroed, t, i, f * BLOCK_SIZE + TABLE_FLAGS), g)
  {
    var zeroed := Phys(ph.used[f := true], ph.frames[f := ZeroTable()]);
    ZeroTableIsNoOne();
    ClearedIsNoOne(ph, f, ZeroTable(), g);
    MadeEntry(f);
    EntryIsNoOne(zeroed, t, i, f * BLOCK_SIZE + TABLE_FLAGS, g);
  }

  lemma {:induction false} PopulateIsNoOne(ph: Phys, t: nat, path: seq<nat>, g: nat)
    requires IsPath(path) && NoOne(ph, g)
    ensures NoOne(Populate(ph, t, path).0, g)
    decreases |path|
  {
    if path != [] && IsTable(ph, t) {
      EnsureIsNoOne(ph, t, path[0], g);
      var (ph1, n) := Ensure(ph, t, path[0]);
      if n.Some? {
        PopulateIsNoOne(ph1, n.value, path[1..], g);
      }
    }
  }

  lemma MapIsNoOne(ph: Phys, root: nat, path: seq<nat>, f: nat, g: nat)
    requires NoOne(ph, g) && FullPath(path)
    ensures NoOne(MapAt(ph, root, path, f * BLOCK_SIZE, TABLE_FLAGS), g)
  {
    PopulateIsNoOne(ph, root, path[..3], g);
    var (ph1, t) := Populate(ph, root, path[..3]);
    MadeEntry(f % MAX_FRAMES);
    if t.Some? && IsTable(ph1, t.value) {
      EntryIsNoOne(ph1, t.value, path[3], MakeEntry(f * BLOCK_SIZE, TABLE_FLAGS), g);
    }
  }

  lemma StepIsNoOne(ph: Phys, ph1: Phys, root: nat, page: PageLoad, g: nat)
    requires LoadStep(ph, ph1, root, page) && NoOne(ph, g) && |page.bytes| == 4096 && page.bytes[0] != 1
    ensures NoOne(ph1, g)
  {
    AllocTakes(ph.used);
    var (taken, p) := Take(ph);
    var f := FirstFree(ph.used);
    StepTakesLowest(ph, ph1, root, page);
    if f != g {
      MapIsNoOne(taken, root, page.path, f, g);
    } else {
      assert ph1.frames[g] == Page(page.bytes);
    }
  }

  /** No frame taken since begins with a one. */
  ghost predicate NoneTaken(used: seq<bool>, ph: Phys)
  {
    |ph.used| == |used| && forall g :: 0 <= g < |used| && !used[g] ==> NoOne(ph, g)
  }

  /** A file of zeros with a single one, at the beginning of page k. */
  function Spot(size: nat, k: nat): (file: seq<nat>)
    ensures |file| == size
  {
    seq<nat>(size, i requires 0 <= i < size => if i == k * 4096 then 1 else 0)
  }

  lemma SpotInArea(ph: Phys, size: nat, k: nat, j: nat)
    requires Buffered(ph, Spot(size, k)) && j * 4096 < size && j != k && AREA + j < |ph.frames|
    ensures LowByte(ph.frames[AREA + j]) == 0
  {
    var x := j * 4096;
    assert Spot(size, k)[x] == 0;
    assert AreaBytes(ph.frames, 0, size)[x] == AreaByte(ph.frames, x);
    ByteOfFrame(ph.frames, j, 0);
  }

  lemma FirstOfPage(frames: seq<Frame>, j: nat, size: nat)
    requires j * 4096 < size
    ensures FlatBytes(frames, j * 4096, size)[0] == if AREA + j < |frames| then LowByte(frames[AREA + j]) else 0
  {
    ByteOfFrame(frames, j, 0);
  }

  /** A page whose frame was taken too early comes out without the one. */
  lemma TakenPageIsLost(ph: Phys, used: seq<bool>, size: nat, j: nat)
    requires WellFormed(ph) && NoneTaken(used, ph) && Take(ph).1 != 0 && j * 4096 < size && AREA + j < |used|
    requires !used[AREA + j] && Take(ph).0.used[AREA + j]
    ensures Take(ph).1 / BLOCK_SIZE < |ph.frames| && FlatPageOf(ph, j * 4096, size).bytes[0] != 1
  {
    AllocCounts(ph.used);
    FirstOfPage(Zeroed(ph).frames, j, size);
    assert NoOne(ph, AREA + j);
  }

  /** So does every page but the one that holds the one. */
  lemma PageWithoutOne(pr: Progress, root: nat, ph: Phys, size: nat, k: nat, j: nat)
    requires FlatDone(pr, root, ph, size) && Buffered(pr.trace[0], Spot(size, k)) && j < |pr.done|
    requires NoneTaken(pr.trace[0].used, pr.trace[j]) && (j == k ==> TakenByCopy(pr.trace[0], root, k))
    ensures |pr.done[j].bytes| == 4096 && pr.done[j].bytes[0] != 1
  {
    assert FlatRunStep(pr, root, size, j);
    PlacesAlong(pr, root, ph, j);
    LoadTakesLowest(pr.trace, root, pr.done, 0, j);
    if AREA + j < |pr.trace[0].used| {
      TakenByCopyExactly(pr, root, ph, size, j);
      if TakenByCopy(pr.trace[0], root, j) {
        TakenPageIsLost(pr.trace[j], pr.trace[0].used, size, j);
      } else {
        FrameAtCopy(pr, root, ph, size, j);
        SpotInArea(pr.trace[0], size, k, j);
        FirstOfPage(Zeroed(pr.trace[j]).frames, j, size);
      }
    } else {
      FirstOfPage(Zeroed(pr.trace[j]).frames, j, size);
    }
  }

  lemma {:induction false} NoneTakenAlong(pr: Progress, root: nat, ph: Phys, size: nat, k: nat, j: nat)
    requires FlatDone(pr, root, ph, size) && Buffered(pr.trace[0], Spot(size, k)) && j <= k < |pr.done|
    ensures NoneTaken(pr.trace[0].used, pr.trace[j])
    decreases j
  {
    if j > 0 {
      NoneTakenAlong(pr, root, ph, size, k, j - 1);
      PageWithoutOne(pr, root, ph, size, k, j - 1);
      NoneTakenStep(pr.trace[0].used, pr.trace[j - 1], pr.trace[j], root, pr.done[j - 1]);
    } else {
      NoneTakenYet(pr.trace[0], pr.maps[0]);
    }
  }

  lemma NoneTakenYet(ph: Phys, places: map<nat, Place>)
    requires Separated(ph, places)
    ensures NoneTaken(ph.used, ph)
  {
  }

  lemma NoneTakenStep(used: seq<bool>, ph: Phys, ph1: Phys, root: nat, page: PageLoad)
    requires LoadStep(ph, ph1, root, page) && NoneTaken(used, ph) && |page.bytes| == 4096 && page.bytes[0] != 1
    ensures NoneTaken(used, ph1)
  {
    StepTakesLowest(ph, ph1, root, page);
    forall g | 0 <= g < |used| && !used[g] ensures NoOne(ph1, g) {
      StepIsNoOne(ph, ph1, root, page, g);
    }
  }

  lemma PlacedIsDistinct(plan: seq<PageLoad>)
    requires FlatPlaced(plan) && |plan| <= 0x10_0000
    ensures DistinctPages(plan)
  {
    forall i, j | 0 <= i < j < |plan| ensures plan[i].path != plan[j].path {
      PathsDiffer(i, j);
    }
  }

  lemma HeldIsSeen(ph: Phys, root: nat, page: PageLoad, k: nat)
    requires page.path == PathOf(FLAT_BASE + k * 4096) && |page.bytes| == 4096 && Holds(ph, root, page)
    ensures VirtualByte(ph, root, FLAT_BASE + k * 4096) == Some(page.bytes[0])
  {
    PageAligned(k);
    ByteOfHeld(ph, root, page, FLAT_BASE + k * 4096);
  }

  lemma PageAligned(k: nat)
    ensures (FLAT_BASE + k * 4096) % 4096 == 0
  {
    assert FLAT_BASE + k * 4096 == (0x1_0000 + k) * 4096;
  }

  lemma ByteOfHeld(ph: Phys, root: nat, page: PageLoad, va: nat)
    requires va % 4096 == 0 && page.path == PathOf(va) && |page.bytes| == 4096 && Holds(ph, root, page)
    ensures VirtualByte(ph, root, va).Some? && VirtualByte(ph, root, va).value == page.bytes[0]
  {
    var e := Lookup(ph, root, page.path).value;
    assert (EntryFrame(e) * BLOCK_SIZE + va % BLOCK_SIZE) / 4096 == EntryFrame(e);
  }

  lemma PlacedIsHeld(pr: Progress, root: nat, ph: Phys, size: nat, k: nat)
    requires FlatDone(pr, root, ph, size) && size < 0x1_0000_0000 && k < |pr.done|
    ensures FullPath(pr.done[k].path) && pr.done[k].path == PathOf(FLAT_BASE + k * 4096)
    ensures Holds(ph, root, pr.done[k])
  {
    DoneIsPlaced(pr, root, size);
    PlacedIsDistinct(pr.done);
    EnoughForPlan(pr, root, ph, size);
    EnoughFrames(pr.trace, pr.maps[0], root, pr.done, k);
  }

  lemma SpotIsSeen(ph: Phys, root: nat, size: nat, k: nat)
    requires size < 0x1_0000_0000 && k * 4096 < size && Arrives(ph, root, Spot(size, k))
    ensures VirtualByte(ph, root, FLAT_BASE + k * 4096) == Some(1)
  {
    var file := Spot(size, k);
    FlatIsSane(file);
    FlatImage(ph, root, file, k * 4096);
  }

  /** The rule is exact: when the frame of page k is taken before the copy,
      this file of the same size does not arrive. */
  lemma WrongIfTakenBefore(pr: Progress, root: nat, ph: Phys, size: nat, k: nat)
    requires FlatDone(pr, root, ph, size) && size < 0x1_0000_0000 && Buffered(pr.trace[0], Spot(size, k))
    requires k < |pr.done| && TakenByCopy(pr.trace[0], root, k)
    ensures !Arrives(ph, root, Spot(size, k))
  {
    LostPageIsSeen(pr, root, ph, size, k);
    assert FlatRunStep(pr, root, size, k);
    if Arrives(ph, root, Spot(size, k)) {
      SpotIsSeen(ph, root, size, k);
    }
  }

  lemma LostPageIsSeen(pr: Progress, root: nat, ph: Phys, size: nat, k: nat)
    requires FlatDone(pr, root, ph, size) && size < 0x1_0000_0000 && Buffered(pr.trace[0], Spot(size, k))
    requires k < |pr.done| && TakenByCopy(pr.trace[0], root, k)
    ensures VirtualByte(ph, root, FLAT_BASE + k * 4096) != Some(1)
  {
    NoneTakenAlong(pr, root, ph, size, k, k);
    PageWithoutOne(pr, root, ph, size, k, k);
    PlacedIsHeld(pr, root, ph, size, k);
    HeldIsSeen(ph, root, pr.done[k], k);
  }

  // ---------------------------------------------------------------------
  // The rule
  // ---------------------------------------------------------------------

  lemma SameIsSeparated(ph: Phys, ph1: Phys, places: map<nat, Place>)
    requires Separated(ph, places) && SameTables(ph, ph1, places) && ph1.used == ph.used
    ensures Separated(ph1, places)
  {
    forall t, i | t in places && 0 <= i < ENTRIES && |places[t].path| < 3 && Present(EntryAt(ph1, t, i))
      ensures Linked(ph1, places, t, i)
    {
      assert EntryAt(ph1, t, i) == EntryAt(ph, t, i) && Linked(ph, places, t, i);
    }
  }

  lemma PathsPrefix(n: nat, k: nat)
    requires k <= n
    ensures FlatPaths(n)[..k] == FlatPaths(k)
  {
  }

  /** With frames enough the loop goes on. */
  lemma AnotherPage(pr: Progress, root: nat, ph: Phys, size: nat)
    requires Tracks(pr, root, ph) && FlatRun(pr, root, size)
    requires Separated(pr.trace[0], pr.maps[0]) && IsRoot(pr.maps[0], root)
    requires Demand(pr.trace[0], root, FlatPaths(|pr.done| + 1)) <= FreeCount(pr.trace[0].used)
    ensures Take(ph).1 != 0
  {
    var n := |pr.done|;
    DoneIsPlaced(pr, root, size);
    PlacedDemand(pr.trace[0], root, pr.done, n);
    PathsPrefix(n + 1, n);
    PrefixDemand(pr.trace[0], root, FlatPaths(n + 1), n);
    CountsOfPrefix(pr, root, ph, n);
    AllocCounts(ph.used);
  }

  /** There is a run of the loop over n pages from every state with frames
      enough. */
  lemma {:induction false} FlatRunExists(ph: Phys, places: map<nat, Place>, root: nat, size: nat, n: nat)
    returns (pr: Progress, last: Phys)
    requires Separated(ph, places) && IsRoot(places, root) && n * 4096 < size + 4096
    requires Demand(ph, root, FlatPaths(n)) <= FreeCount(ph.used)
    ensures Tracks(pr, root, last) && FlatRun(pr, root, size)
    ensures |pr.done| == n && pr.trace[0] == ph && pr.maps[0] == places
  {
    if n == 0 {
      return Begin(ph, places), ph;
    }
    PathsPrefix(n, n - 1);
    PrefixDemand(ph, root, FlatPaths(n), n - 1);
    var pr0, ph0 := FlatRunExists(ph, places, root, size, n - 1);
    AnotherPage(pr0, root, ph0, size);
    pr, last := OneMorePage(pr0, root, ph0, size);
  }

  lemma OneMorePage(pr: Progress, root: nat, ph: Phys, size: nat) returns (pr1: Progress, last: Phys)
    requires Tracks(pr, root, ph) && FlatRun(pr, root, size) && |pr.done| * 4096 < size && Take(ph).1 != 0
    ensures Tracks(pr1, root, last) && FlatRun(pr1, root, size) && Continues(pr, pr1, 1)
  {
    var offset := |pr.done| * 4096;
    TakeEffect(ph, Places(pr));
    var page := FlatPageOf(ph, offset, size);
    last := FlatStep(ph, root, offset, size);
    FillFirstIsLoadStep(ph, Places(pr), root, page);
    pr1 := Extended(pr, root, page, ph, last);
    ExtendTracks(pr, root, page, ph, last);
    FlatRunGrows(pr, pr1, root, offset, size, last);
  }

  /** Memory with the file of WrongIfTakenBefore in the load area. */
  function Spotted(ph: Phys, size: nat, k: nat): (r: Phys)
  {
    ph.(frames := seq<Frame>(|ph.frames|, f requires 0 <= f < |ph.frames| =>
                    if !InArea(f, size) then ph.frames[f]
                    else Page(if f == AREA + k then [1] else [])))
  }

  lemma SpottedByte(ph: Phys, size: nat, k: nat, x: nat)
    requires x < size && AREA + k < |ph.frames|
    ensures AreaByte(Spotted(ph, size, k).frames, x) == Spot(size, k)[x]
  {
    var j, o := x / 4096, x % 4096;
    ByteOfFrame(Spotted(ph, size, k).frames, j, o);
    assert InArea(AREA + j, size);
    assert x == k * 4096 <==> j == k && o == 0;
  }

  lemma SpottedIsBuffered(ph: Phys, places: map<nat, Place>, size: nat, k: nat)
    requires AREA + k < |ph.frames| && AreaClear(places, size)
    ensures Buffered(Spotted(ph, size, k), Spot(size, k)) && SameTables(ph, Spotted(ph, size, k), places)
  {
    var file, frames := Spot(size, k), Spotted(ph, size, k).frames;
    forall x | 0 <= x < size ensures AreaBytes(frames, 0, size)[x] == file[x] {
      SpottedByte(ph, size, k, x);
    }
  }

  /** A complete load of the file from memory like ph, with the file in the
      load area. */
  ghost predicate LoadsFile(ph: Phys, places: map<nat, Place>, root: nat, file: seq<nat>, pr: Progress, last: Phys)
  {
    && FlatDone(pr, root, last, |file|) && Buffered(pr.trace[0], file)
    && pr.maps[0] == places && pr.trace[0].used == ph.used && SameTables(ph, pr.trace[0], places)
  }

  lemma SameTaken(ph: Phys, ph1: Phys, places: map<nat, Place>, root: nat, k: nat)
    requires Separated(ph, places) && IsRoot(places, root) && SameTables(ph, ph1, places) && ph1.used == ph.used
    ensures TakenByCopy(ph1, root, k) <==> TakenByCopy(ph, root, k)
  {
    SameDemand(ph, ph1, places, root, FlatPaths(k));
  }

  /** Every load of every file of this size is right. */
  ghost predicate EveryFileArrives(ph: Phys, places: map<nat, Place>, root: nat, size: nat)
  {
    forall file, pr, last :: |file| == size && LoadsFile(ph, places, root, file, pr, last) ==> Arrives(last, root, file)
  }

  lemma SpotIsLost(ph: Phys, places: map<nat, Place>, root: nat, size: nat, n: nat, k: nat)
    requires Separated(ph, places) && IsRoot(places, root) && AreaClear(places, size) && size < 0x1_0000_0000
    requires size <= n * 4096 < size + 4096 && Demand(ph, root, FlatPaths(n)) <= FreeCount(ph.used)
    requires k < n && TakenByCopy(ph, root, k)
    ensures !EveryFileArrives(ph, places, root, size)
  {
    var ph1, file := Spotted(ph, size, k), Spot(size, k);
    SpottedIsBuffered(ph, places, size, k);
    SameIsSeparated(ph, ph1, places);
    SameDemand(ph, ph1, places, root, FlatPaths(n));
    SameTaken(ph, ph1, places, root, k);
    var pr, last := FlatRunExists(ph1, places, root, size, n);
    assert LoadsFile(ph, places, root, file, pr, last);
    WrongIfTakenBefore(pr, root, last, size, k);
  }

  /** For memory with frames enough: every file of a size arrives whole if and
      only if each frame of the area is in use beforehand or not yet taken when
      its page is copied. */
  lemma EveryFileArrivesExactly(ph: Phys, places: map<nat, Place>, root: nat, size: nat, n: nat)
    requires Separated(ph, places) && IsRoot(places, root) && AreaClear(places, size) && size < 0x1_0000_0000
    requires size <= n * 4096 < size + 4096 && Demand(ph, root, FlatPaths(n)) <= FreeCount(ph.used)
    ensures EveryFileArrives(ph, places, root, size) <==> CopiedInTime(ph, root, size)
  {
    if CopiedInTime(ph, root, size) {
      forall file, pr, last | |file| == size && LoadsFile(ph, places, root, file, pr, last)
        ensures Arrives(last, root, file)
      {
        forall k: nat | k * 4096 < size ensures !TakenByCopy(pr.trace[0], root, k) {
          SameTaken(ph, pr.trace[0], places, root, k);
        }
        RightIfCopiedInTime(pr, root, last, file);
      }
    } else {
      var k: nat :| k * 4096 < size && TakenByCopy(ph, root, k);
      SpotIsLost(ph, places, root, size, n, k);
    }
  }

  // ---------------------------------------------------------------------
  // What the loaders report
  // ---------------------------------------------------------------------

  /** What the loaders took, by the progress that they return. */
  lemma ProgressIsUntakenExactly(pr: Progress, root: nat, ph: Phys, n: nat)
    requires Tracks(pr, root, ph) && AreaClear(pr.maps[0], n)
    requires Separated(pr.trace[0], pr.maps[0]) && IsRoot(pr.maps[0], root)
    ensures FullPaths(pr.done)
    ensures Untaken(pr.trace[0].used, ph.used, n) <==> Shielded(pr.trace[0], root, pr.done, n)
  {
    forall k | 0 <= k < |pr.done| ensures FullPath(pr.done[k].path) {
      assert LoadStep(pr.trace[k], pr.trace[k + 1], root, pr.done[k]);
    }
    AreaUntakenExactly(pr.trace, pr.maps[0], root, pr.done, n);
  }
}
