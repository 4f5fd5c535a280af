/** The load area: physical memory from 0x4000000 on, where exec puts a file
    before it is loaded (src/kernel/kernel.c:277-306) and where the loaders
    read it.  Nothing reserves it in the frame allocator, so a load disturbs
    the file it reads unless the frames it takes lie elsewhere. */
module LoadArea {
  import opened Options
  import opened Pmm
  import opened Paging
  import opened Mapping
  import opened Loading

  /** The frame at 0x4000000. */
  const AREA: nat := 0x4000

  // ---------------------------------------------------------------------
  // Memory as bytes
  // ---------------------------------------------------------------------

  function Pow256(k: nat): (r: nat)
    ensures r >= 1
  {
    if k == 0 then 1 else 256 * Pow256(k - 1)
  }

  /** What a frame looks like byte by byte; entries are little endian. */
  function FrameBytes(fr: Frame): (r: seq<nat>)
    ensures |r| == BLOCK_SIZE
    ensures fr.Page? && |fr.bytes| == BLOCK_SIZE ==> r == fr.bytes
  {
    match fr
    case Page(bytes) => seq<nat>(BLOCK_SIZE, k requires 0 <= k < BLOCK_SIZE => if k < |bytes| then bytes[k] else 0)
    case Table(es) =>
      seq<nat>(BLOCK_SIZE,
          k requires 0 <= k < BLOCK_SIZE => if k / 8 < |es| then es[k / 8] / Pow256(k % 8) % 256 else 0)
  }

  /** Byte k of the load area; there is nothing behind the end of memory. */
  function AreaByte(frames: seq<Frame>, k: nat): nat
  {
    var f := AREA + k / BLOCK_SIZE;
    if f < |frames| then FrameBytes(frames[f])[k % BLOCK_SIZE] else 0
  }

  function AreaBytes(frames: seq<Frame>, off: nat, n: nat): (r: seq<nat>)
    ensures |r| == n
  {
    seq<nat>(n, k requires 0 <= k < n => AreaByte(frames, off + k))
  }

  /** The same, as the code reads it. */
  function Peek(frames: array<Frame>, off: nat, n: nat): (r: seq<nat>)
    reads frames
    ensures |r| == n
  {
    AreaBytes(frames[..], off, n)
  }

  /** The area holds the file. */
  ghost predicate Buffered(ph: Phys, file: seq<nat>)
  {
    AreaBytes(ph.frames, 0, |file|) == file
  }

  lemma BufferedSlice(frames: seq<Frame>, file: seq<nat>, off: nat, n: nat)
    requires AreaBytes(frames, 0, |file|) == file && off + n <= |file|
    ensures AreaBytes(frames, off, n) == file[off..off + n]
  {
    forall k | 0 <= k < n ensures AreaBytes(frames, off, n)[k] == file[off..off + n][k] {
      assert AreaBytes(frames, 0, |file|)[off + k] == AreaByte(frames, off + k);
    }
  }

  // ---------------------------------------------------------------------
  // Frames of the area
  // ---------------------------------------------------------------------

  /** Frame f holds some of the first n bytes of the area. */
  predicate InArea(f: nat, n: nat) { AREA <= f && (f - AREA) * BLOCK_SIZE < n }

  ghost predicate AreaKept(ph: Phys, ph1: Phys, n: nat)
  {
    |ph1.frames| == |ph.frames| && forall f :: 0 <= f < |ph.frames| && InArea(f, n) ==> ph1.frames[f] == ph.frames[f]
  }

  /** No page table lies in the area. */
  ghost predicate AreaClear(places: map<nat, Place>, n: nat)
  {
    forall t :: t in places ==> !InArea(t, n)
  }

  /** The allocator has no frame of the area to give. */
  ghost predicate AreaReserved(used: seq<bool>, n: nat)
  {
    forall f :: 0 <= f < |used| && InArea(f, n) ==> used[f]
  }

  lemma KeptIsBuffered(ph: Phys, ph1: Phys, file: seq<nat>)
    requires Buffered(ph, file) && AreaKept(ph, ph1, |file|)
    ensures Buffered(ph1, file)
  {
    forall k | 0 <= k < |file| ensures AreaByte(ph1.frames, k) == AreaByte(ph.frames, k) {
      assert InArea(AREA + k / BLOCK_SIZE, |file|);
    }
    assert AreaBytes(ph1.frames, 0, |file|) == AreaBytes(ph.frames, 0, |file|);
  }

  // ---------------------------------------------------------------------
  // Frames below the area
  // ---------------------------------------------------------------------

  /** The number of free frames below the area. */
  function Room(used: seq<bool>): nat
  {
    FreeCount(if |used| <= AREA then used else used[..AREA])
  }

  lemma {:induction false} PrefixCounts(used: seq<bool>, b: nat)
    requires b <= |used|
    ensures FreeCount(used[..b]) <= FreeCount(used)
    decreases |used|
  {
    if b == |used| {
      assert used[..b] == used;
    } else {
      PrefixCounts(used[..|used| - 1], b);
      assert used[..|used| - 1][..b] == used[..b];
    }
  }

  lemma RoomIsFree(used: seq<bool>)
    ensures Room(used) <= FreeCount(used)
  {
    if |used| > AREA {
      PrefixCounts(used, AREA);
    }
  }

  /** Allocation is lowest first: while there is room below the area, the
      frame comes from there. */
  lemma TakenFromRoom(used: seq<bool>)
    requires Room(used) > 0
    ensures FirstFree(used) < AREA && FirstFree(used) < |used|
    ensures Room(used[FirstFree(used) := true]) == Room(used) - 1
  {
    var low := if |used| <= AREA then used else used[..AREA];
    var b := FirstFree(used);
    NoneFree(low);
    assert !low[FirstFree(low)];
    assert b <= FirstFree(low);
    FreeCountTake(low, b);
    assert (if |used| <= AREA then used[b := true] else used[b := true][..AREA]) == low[b := true];
  }

  /** Frames from the area on that are no tables stay as they are. */
  ghost predicate HighKept(ph: Phys, ph1: Phys, places: map<nat, Place>, after: map<nat, Place>)
  {
    && |ph1.frames| == |ph.frames|
    && forall g :: AREA <= g < |ph.frames| && g !in places ==> ph1.frames[g] == ph.frames[g] && g !in after
  }

  ghost predicate HighFlags(used: seq<bool>, used1: seq<bool>)
  {
    |used1| == |used| && forall g :: AREA <= g < |used| ==> used1[g] == used[g]
  }

  /** The tables along a path, built from frames below the area. */
  lemma {:induction false} PopulateInRoom(ph: Phys, places: map<nat, Place>, t: nat, path: seq<nat>)
    requires Separated(ph, places) && t in places && IsPath(path) && |places[t].path| + |path| < 4
    requires Need(ph, t, path) <= Room(ph.used)
    ensures var ph1 := Populate(ph, t, path).0;
            && HighKept(ph, ph1, places, PopulatePlaces(ph, places, t, path)) && HighFlags(ph.used, ph1.used)
            && Room(ph1.used) == Room(ph.used) - Need(ph, t, path)
    decreases |path|
  {
    if path != [] {
      RoomIsFree(ph.used);
      EnsureCases(ph, places, t, path[0]);
      StepDown(ph, places, t, path);
      var (ph1, n) := Ensure(ph, t, path[0]);
      if !Present(EntryAt(ph, t, path[0])) {
        TakenFromRoom(ph.used);
        NeedBelowZero(ph1, n.value, path[1..]);
      }
      PopulateInRoom(ph1, places[n.value := Child(places[t], path[0])], n.value, path[1..]);
    }
  }

  // ---------------------------------------------------------------------
  // Steps that leave the area alone
  // ---------------------------------------------------------------------

  lemma MapInRoom(ph: Phys, places: map<nat, Place>, root: nat, path: seq<nat>, paddr: nat)
    requires Separated(ph, places) && IsRoot(places, root) && FullPath(path)
    requires Need(ph, root, path[..3]) <= Room(ph.used)
    ensures var ph1 := MapAt(ph, root, path, paddr, TABLE_FLAGS);
            && HighKept(ph, ph1, places, MapPlaces(ph, places, root, path)) && HighFlags(ph.used, ph1.used)
            && Room(ph1.used) == Room(ph.used) - Need(ph, root, path[..3])
  {
    PopulateInRoom(ph, places, root, path[..3]);
    MapReachesLeaf(ph, places, root, path);
    MapIsLeafWrite(ph, places, root, path, paddr, TABLE_FLAGS);
  }

  /** A page placed with frames from below the area. */
  lemma StepInRoom(ph: Phys, places: map<nat, Place>, ph1: Phys, root: nat, page: PageLoad)
    requires Separated(ph, places) && IsRoot(places, root) && LoadStep(ph, ph1, root, page)
    requires 1 + Need(ph, root, page.path[..3]) <= Room(ph.used)
    ensures HighKept(ph, ph1, places, LoadPlaces(ph, places, root, page)) && Take(ph).1 / BLOCK_SIZE < AREA
    ensures HighFlags(ph.used, ph1.used)
    ensures Room(ph1.used) == Room(ph.used) - 1 - Need(ph, root, page.path[..3])
  {
    TakeEffect(ph, places);
    TakenFromRoom(ph.used);
    TakeKeepsDescend(ph, root, page.path[..3]);
    MapInRoom(Take(ph).0, places, root, page.path, Take(ph).1);
  }

  lemma StepBesideReserved(ph: Phys, places: map<nat, Place>, ph1: Phys, root: nat, page: PageLoad, n: nat)
    requires Separated(ph, places) && IsRoot(places, root) && LoadStep(ph, ph1, root, page)
    requires AreaClear(places, n) && AreaReserved(ph.used, n)
    ensures AreaKept(ph, ph1, n) && AreaClear(LoadPlaces(ph, places, root, page), n) && AreaReserved(ph1.used, n)
    ensures !InArea(Take(ph).1 / BLOCK_SIZE, n)
  {
    TakeEffect(ph, places);
    StepKeepsSeparation(ph, places, ph1, root, page);
    forall f | 0 <= f < |ph.frames| && InArea(f, n)
      ensures |ph1.frames| == |ph.frames| && ph1.frames[f] == ph.frames[f] && ph1.used[f]
      ensures f !in LoadPlaces(ph, places, root, page)
    {
      StepKeepsData(ph, places, ph1, root, page, f);
    }
  }

  /** What the next page needs so that the area is left alone. */
  ghost predicate StepFits(ph: Phys, root: nat, path: seq<nat>, n: nat)
    requires FullPath(path)
  {
    AreaReserved(ph.used, n) || 1 + Need(ph, root, path[..3]) <= Room(ph.used)
  }

  lemma StepKeepsArea(ph: Phys, places: map<nat, Place>, ph1: Phys, root: nat, page: PageLoad, n: nat)
    requires Separated(ph, places) && IsRoot(places, root) && LoadStep(ph, ph1, root, page)
    requires AreaClear(places, n) && StepFits(ph, root, page.path, n)
    ensures AreaKept(ph, ph1, n) && AreaClear(LoadPlaces(ph, places, root, page), n)
    ensures !InArea(Take(ph).1 / BLOCK_SIZE, n)
  {
    if AreaReserved(ph.used, n) {
      StepBesideReserved(ph, places, ph1, root, page, n);
    } else {
      StepInRoom(ph, places, ph1, root, page);
      StepKeepsSeparation(ph, places, ph1, root, page);
    }
  }

  // ---------------------------------------------------------------------
  // Loads that leave the area alone
  // ---------------------------------------------------------------------

  /** What a caller can look at before a load of a file of n bytes: the area is
      reserved, or the frames below it cover the whole demand. */
  ghost predicate Shielded(ph: Phys, root: nat, plan: seq<PageLoad>, n: nat)
    requires FullPaths(plan)
  {
    AreaReserved(ph.used, n) || Demand(ph, root, plan) <= Room(ph.used)
  }

  lemma ShieldedFits(ph: Phys, root: nat, plan: seq<PageLoad>, n: nat)
    requires FullPaths(plan) && plan != [] && Shielded(ph, root, plan, n)
    ensures StepFits(ph, root, plan[0].path, n)
  {
    DemandOfFirst(ph, root, plan);
  }

  /** The shield holds for the rest of the load. */
  lemma StepShields(ph: Phys, places: map<nat, Place>, ph1: Phys, root: nat, plan: seq<PageLoad>, n: nat)
    requires Separated(ph, places) && IsRoot(places, root) && FullPaths(plan) && plan != []
    requires LoadStep(ph, ph1, root, plan[0]) && AreaClear(places, n) && Shielded(ph, root, plan, n)
    ensures Shielded(ph1, root, plan[1..], n)
  {
    if AreaReserved(ph.used, n) {
      StepBesideReserved(ph, places, ph1, root, plan[0], n);
    } else {
      DemandOfFirst(ph, root, plan);
      StepInRoom(ph, places, ph1, root, plan[0]);
      RoomIsFree(ph.used);
      StepCounts(ph, places, ph1, root, plan[0]);
      StepDemand(ph, places, ph1, root, plan);
    }
  }

  // ---------------------------------------------------------------------
  // The condition is exact
  // ---------------------------------------------------------------------

  /** The allocator has given out no frame of the area in between. */
  ghost predicate Untaken(used: seq<bool>, used1: seq<bool>, n: nat)
  {
    |used1| == |used| && forall f :: 0 <= f < |used| && InArea(f, n) ==> used1[f] == used[f]
  }

  lemma {:induction false} PopulateUses(ph: Phys, t: nat, path: seq<nat>, g: nat)
    requires |ph.used| == |ph.frames| && IsPath(path) && g < |ph.used| && ph.used[g]
    ensures Populate(ph, t, path).0.used[g]
    decreases |path|
  {
    if path != [] && IsTable(ph, t) {
      var (ph1, n) := Ensure(ph, t, path[0]);
      if n.Some? {
        PopulateUses(ph1, n.value, path[1..], g);
      }
    }
  }

  /** Frame f was free and still is, and no frame between the area's beginning
      and f was taken. */
  ghost predicate LeftFree(used: seq<bool>, used1: seq<bool>, f: nat)
  {
    && |used1| == |used| && AREA <= f < |used| && !used1[f]
    && (forall g :: 0 <= g < |used| && used[g] ==> used1[g])
    && forall g :: AREA <= g < f ==> used1[g] == used[g]
  }

  /** Lowest first: then the frame taken came from below the area. */
  lemma TakenBelow(used: seq<bool>, used1: seq<bool>, f: nat)
    requires LeftFree(used, used1, f) && (FirstFree(used) < |used| ==> used1[FirstFree(used)])
    ensures FirstFree(used) < AREA && Room(used) > 0
  {
    var b := FirstFree(used);
    assert b <= f && b != f;
    var low := used[..AREA];
    assert !low[b];
    NoneFree(low);
  }

  lemma {:induction false} PopulateLeavesFree(ph: Phys, places: map<nat, Place>, t: nat, path: seq<nat>, f: nat)
    requires Separated(ph, places) && t in places && IsPath(path) && |places[t].path| + |path| < 4
    requires LeftFree(ph.used, Populate(ph, t, path).0.used, f)
    ensures Need(ph, t, path) <= Room(ph.used)
    ensures Room(Populate(ph, t, path).0.used) == Room(ph.used) - Need(ph, t, path)
    decreases |path|
  {
    if path != [] {
      var last := Populate(ph, t, path).0.used;
      EnsureCases(ph, places, t, path[0]);
      StepDown(ph, places, t, path);
      NoneFree(ph.used);
      var (ph1, n) := Ensure(ph, t, path[0]);
      if !Present(EntryAt(ph, t, path[0])) {
        PopulateUses(ph1, n.value, path[1..], n.value);
        TakenBelow(ph.used, last, f);
        TakenFromRoom(ph.used);
        NeedBelowZero(ph1, n.value, path[1..]);
        forall g | 0 <= g < |ph1.used| && ph1.used[g] ensures last[g] {
          PopulateUses(ph1, n.value, path[1..], g);
        }
      }
      PopulateLeavesFree(ph1, places[n.value := Child(places[t], path[0])], n.value, path[1..], f);
    }
  }

  /** What the page and its tables took came from below the area as well. */
  lemma StepLeavesFree(ph: Phys, places: map<nat, Place>, ph1: Phys, root: nat, page: PageLoad, f: nat)
    requires Separated(ph, places) && IsRoot(places, root) && LoadStep(ph, ph1, root, page)
    requires LeftFree(ph.used, ph1.used, f)
    ensures 1 + Need(ph, root, page.path[..3]) <= Room(ph.used)
    ensures Room(ph1.used) == Room(ph.used) - 1 - Need(ph, root, page.path[..3])
  {
    TakeEffect(ph, places);
    var (taken, p) := Take(ph);
    var last := Populate(taken, root, page.path[..3]).0.used;
    assert ph1.used == last;
    forall g | 0 <= g < |taken.used| && taken.used[g] ensures last[g] {
      PopulateUses(taken, root, page.path[..3], g);
    }
    assert last[FirstFree(ph.used)];
    TakenBelow(ph.used, last, f);
    TakenFromRoom(ph.used);
    TakeKeepsDescend(ph, root, page.path[..3]);
    PopulateLeavesFree(taken, places, root, page.path[..3], f);
  }

  lemma StepUses(ph: Phys, ph1: Phys, root: nat, page: PageLoad, g: nat)
    requires LoadStep(ph, ph1, root, page) && g < |ph.used| && ph.used[g]
    ensures g < |ph1.used| == |ph.used| && ph1.used[g]
  {
    PopulateUses(Take(ph).0, root, page.path[..3], g);
  }

  lemma {:induction false} LoadUses(trace: seq<Phys>, root: nat, plan: seq<PageLoad>, g: nat)
    requires Loads(trace, root, plan) && g < |trace[0].used|
    ensures |trace[|trace| - 1].used| == |trace[0].used|
    ensures trace[0].used[g] ==> trace[|trace| - 1].used[g]
    decreases |trace|
  {
    if |trace| > 1 {
      assert LoadStep(trace[0], trace[1], root, plan[0]);
      if trace[0].used[g] {
        StepUses(trace[0], trace[1], root, plan[0], g);
      }
      RestOfLoad(trace, root, plan);
      LoadUses(trace[1..], root, plan[1..], g);
    }
  }

  /** Halfway through, frame f was free as well. */
  lemma LeftFreeFromSecond(trace: seq<Phys>, root: nat, plan: seq<PageLoad>, f: nat)
    requires Loads(trace, root, plan) && |trace| > 1 && LeftFree(trace[0].used, trace[|trace| - 1].used, f)
    ensures LeftFree(trace[0].used, trace[1].used, f) && LeftFree(trace[1].used, trace[|trace| - 1].used, f)
  {
    var last := trace[|trace| - 1].used;
    var states := trace[1..];
    assert LoadStep(trace[0], trace[1], root, plan[0]);
    RestOfLoad(trace, root, plan);
    assert |trace[1].used| == |trace[0].used|;
    forall g | 0 <= g < |trace[0].used|
      ensures (trace[0].used[g] ==> trace[1].used[g]) && (trace[1].used[g] ==> last[g])
    {
      if trace[0].used[g] {
        StepUses(trace[0], trace[1], root, plan[0], g);
      }
      LoadUses(states, root, plan[1..], g);
      assert states[|states| - 1] == trace[|trace| - 1];
    }
  }

  /** A complete load that left frame f of the area free found room for all it
      took below the area. */
  lemma {:induction false} LoadLeavesFree(trace: seq<Phys>, places: map<nat, Place>, root: nat,
                                          plan: seq<PageLoad>, f: nat)
    requires Loads(trace, root, plan) && |trace| == |plan| + 1 && FullPaths(plan)
    requires Separated(trace[0], places) && IsRoot(places, root) && LeftFree(trace[0].used, trace[|plan|].used, f)
    ensures Demand(trace[0], root, plan) <= Room(trace[0].used)
    decreases |plan|
  {
    if plan == [] {
      NothingToLoad(trace[0], root);
    } else {
      var states, pages := trace[1..], plan[1..];
      assert states[|pages|] == trace[|plan|];
      LeftFreeFromSecond(trace, root, plan, f);
      StepLeavesFree(trace[0], places, trace[1], root, plan[0], f);
      RoomIsFree(trace[0].used);
      StepCounts(trace[0], places, trace[1], root, plan[0]);
      StepDemand(trace[0], places, trace[1], root, plan);
      StepKeepsSeparation(trace[0], places, trace[1], root, plan[0]);
      RestOfLoad(trace, root, plan);
      LoadLeavesFree(states, LoadPlaces(trace[0], places, root, plan[0]), root, pages, f);
    }
  }

  /** A shielded load takes no frame of the area. */
  lemma {:induction false} ShieldedIsUntaken(trace: seq<Phys>, places: map<nat, Place>, root: nat,
                                             plan: seq<PageLoad>, n: nat)
    requires Loads(trace, root, plan) && |trace| == |plan| + 1 && FullPaths(plan) && AreaClear(places, n)
    requires Separated(trace[0], places) && IsRoot(places, root) && Shielded(trace[0], root, plan, n)
    ensures Untaken(trace[0].used, trace[|plan|].used, n)
    decreases |plan|
  {
    if plan != [] {
      var states, pages := trace[1..], plan[1..];
      assert states[|pages|] == trace[|plan|];
      ShieldedFits(trace[0], root, plan, n);
      StepKeepsArea(trace[0], places, trace[1], root, plan[0], n);
      StepKeepsFlags(trace[0], places, trace[1], root, plan[0], n);
      StepShields(trace[0], places, trace[1], root, plan, n);
      StepKeepsSeparation(trace[0], places, trace[1], root, plan[0]);
      RestOfLoad(trace, root, plan);
      ShieldedIsUntaken(states, LoadPlaces(trace[0], places, root, plan[0]), root, pages, n);
    }
  }

  lemma StepKeepsFlags(ph: Phys, places: map<nat, Place>, ph1: Phys, root: nat, page: PageLoad, n: nat)
    requires Separated(ph, places) && IsRoot(places, root) && LoadStep(ph, ph1, root, page)
    requires AreaClear(places, n) && StepFits(ph, root, page.path, n)
    ensures Untaken(ph.used, ph1.used, n)
  {
    if AreaReserved(ph.used, n) {
      StepBesideReserved(ph, places, ph1, root, page, n);
      StepKeepsSeparation(ph, places, ph1, root, page);
    } else {
      StepInRoom(ph, places, ph1, root, page);
    }
  }

  /** The shield is exact: a complete load takes no frame of the area if and
      only if the area was reserved, or the free frames below it covered the
      pages and the missing tables. */
  lemma AreaUntakenExactly(trace: seq<Phys>, places: map<nat, Place>, root: nat, plan: seq<PageLoad>, n: nat)
    requires Loads(trace, root, plan) && |trace| == |plan| + 1 && FullPaths(plan) && AreaClear(places, n)
    requires Separated(trace[0], places) && IsRoot(places, root)
    ensures Untaken(trace[0].used, trace[|plan|].used, n) <==> Shielded(trace[0], root, plan, n)
  {
    if Shielded(trace[0], root, plan, n) {
      ShieldedIsUntaken(trace, places, root, plan, n);
    } else if Untaken(trace[0].used, trace[|plan|].used, n) {
      var f :| 0 <= f < |trace[0].used| && InArea(f, n) && !trace[0].used[f];
      forall g | 0 <= g < |trace[0].used| && trace[0].used[g] ensures trace[|plan|].used[g] {
        LoadUses(trace, root, plan, g);
      }
      assert forall g :: AREA <= g < f ==> InArea(g, n);
      LoadLeavesFree(trace, places, root, plan, f);
    }
  }
}
