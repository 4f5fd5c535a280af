/** Filling an address space page by page, as the program loaders do
    (src/kernel/elf.c:86-124, src/kernel/kernel.c:340-360): take a frame, map
    it, write the page into it.  The loaders ignore a failed mapping, so the
    question is exactly when the pages really end up in place. */
module Loading {
  import opened Options
  import opened Pmm
  import opened Paging
  import opened Mapping

  /** A page to be placed: its path in the tree and its 4096 bytes. */
  datatype PageLoad = PageLoad(path: seq<nat>, bytes: seq<nat>)

  function WritePage(ph: Phys, f: nat, bytes: seq<nat>): Phys
    requires f < |ph.frames|
  {
    ph.(frames := ph.frames[f := Page(bytes)])
  }

  /** ph with its lowest free frame taken. */
  function Take(ph: Phys): (r: (Phys, nat))
    ensures |r.0.used| == |ph.used| && r.0.frames == ph.frames
  {
    var (used, p) := Alloc(ph.used);
    (ph.(used := used), p)
  }

  /** One page: the allocation succeeded, the mapping may or may not have. */
  ghost predicate LoadStep(ph: Phys, ph1: Phys, root: nat, page: PageLoad)
  {
    && |ph.used| == |ph.frames| && FullPath(page.path)
    && var (taken, p) := Take(ph);
       p != 0 && ph1 == WritePage(MapAt(taken, root, page.path, p, TABLE_FLAGS), p / BLOCK_SIZE, page.bytes)
  }

  /** The states of a load so far, which may stop short of the whole plan. */
  ghost predicate Loads(trace: seq<Phys>, root: nat, plan: seq<PageLoad>)
  {
    0 < |trace| <= |plan| + 1 && forall k :: 0 <= k < |trace| - 1 ==> LoadStep(trace[k], trace[k + 1], root, plan[k])
  }

  predicate FullPaths(plan: seq<PageLoad>)
  {
    forall i :: 0 <= i < |plan| ==> FullPath(plan[i].path)
  }

  ghost predicate DistinctPages(plan: seq<PageLoad>)
  {
    && FullPaths(plan)
    && forall i, j :: 0 <= i < j < |plan| ==> plan[i].path != plan[j].path
  }

  /** The page is mapped, open to the process, to a frame that holds its
      bytes. */
  predicate Holds(ph: Phys, root: nat, page: PageLoad)
    requires FullPath(page.path)
  {
    var e := Lookup(ph, root, page.path);
    && e.Some? && Open(e.value)
    && EntryFrame(e.value) < |ph.frames| && ph.frames[EntryFrame(e.value)] == Page(page.bytes)
  }

  // ---------------------------------------------------------------------
  // One page
  // ---------------------------------------------------------------------

  lemma TakeEffect(ph: Phys, places: map<nat, Place>)
    requires Separated(ph, places) && Take(ph).1 != 0
    ensures var (taken, p) := Take(ph); var f := p / BLOCK_SIZE;
            && f < |ph.frames| && f !in places && !ph.used[f] && taken.used == ph.used[f := true]
            && p == f * BLOCK_SIZE && f < MAX_FRAMES
            && Separated(taken, places) && FreeCount(taken.used) == FreeCount(ph.used) - 1
  {
    AllocCounts(ph.used);
    var (taken, p) := Take(ph);
    forall t, i | t in places && 0 <= i < ENTRIES && |places[t].path| < 3 && Present(EntryAt(taken, t, i))
      ensures Linked(taken, places, t, i)
    {
      assert EntryAt(taken, t, i) == EntryAt(ph, t, i) && Linked(ph, places, t, i);
    }
  }

  lemma {:induction false} WriteKeepsLookup(ph: Phys, places: map<nat, Place>, f: nat, bytes: seq<nat>,
                                            u: nat, path: seq<nat>)
    requires Separated(ph, places) && f < |ph.frames| && f !in places
    requires u in places && path != [] && IsPath(path) && |places[u].path| + |path| <= 4
    ensures Lookup(WritePage(ph, f, bytes), u, path) == Lookup(ph, u, path)
    decreases |path|
  {
    assert EntryAt(WritePage(ph, f, bytes), u, path[0]) == EntryAt(ph, u, path[0]);
    if |path| > 1 && Present(EntryAt(ph, u, path[0])) {
      assert Linked(ph, places, u, path[0]);
      WriteKeepsLookup(ph, places, f, bytes, EntryFrame(EntryAt(ph, u, path[0])), path[1..]);
    }
  }

  lemma WriteKeepsSeparation(ph: Phys, places: map<nat, Place>, f: nat, bytes: seq<nat>)
    requires Separated(ph, places) && f < |ph.frames| && f !in places
    ensures Separated(WritePage(ph, f, bytes), places)
  {
    var ph1 := WritePage(ph, f, bytes);
    forall t, i | t in places && 0 <= i < ENTRIES && |places[t].path| < 3 && Present(EntryAt(ph1, t, i))
      ensures Linked(ph1, places, t, i)
    {
      assert EntryAt(ph1, t, i) == EntryAt(ph, t, i) && Linked(ph, places, t, i);
    }
  }

  /** The state between the mapping and the copy. */
  function MappedFor(ph: Phys, root: nat, page: PageLoad): (r: Phys)
    requires |ph.used| == |ph.frames| && FullPath(page.path)
  {
    MapAt(Take(ph).0, root, page.path, Take(ph).1, TABLE_FLAGS)
  }

  ghost function LoadPlaces(ph: Phys, places: map<nat, Place>, root: nat, page: PageLoad): map<nat, Place>
    requires |ph.used| == |ph.frames| && FullPath(page.path)
  {
    MapPlaces(Take(ph).0, places, root, page.path)
  }

  /** The frame taken for the page is data before, during and after. */
  lemma StepSetting(ph: Phys, places: map<nat, Place>, ph1: Phys, root: nat, page: PageLoad)
    requires Separated(ph, places) && IsRoot(places, root) && LoadStep(ph, ph1, root, page)
    ensures var mapped, after := MappedFor(ph, root, page), LoadPlaces(ph, places, root, page);
            var f := Take(ph).1 / BLOCK_SIZE;
            && Separated(mapped, after) && IsRoot(after, root)
            && f < |mapped.frames| && f !in after && mapped.used[f]
            && ph1 == WritePage(mapped, f, page.bytes)
  {
    TakeEffect(ph, places);
    var (taken, p) := Take(ph);
    MapKeepsSeparation(taken, places, root, page.path, p, TABLE_FLAGS);
    MapKeepsData(taken, places, root, page.path, p, TABLE_FLAGS, p / BLOCK_SIZE);
  }

  lemma StepKeepsSeparation(ph: Phys, places: map<nat, Place>, ph1: Phys, root: nat, page: PageLoad)
    requires Separated(ph, places) && IsRoot(places, root) && LoadStep(ph, ph1, root, page)
    ensures Separated(ph1, LoadPlaces(ph, places, root, page)) && IsRoot(LoadPlaces(ph, places, root, page), root)
  {
    StepSetting(ph, places, ph1, root, page);
    var mapped, after := MappedFor(ph, root, page), LoadPlaces(ph, places, root, page);
    WriteKeepsSeparation(mapped, after, Take(ph).1 / BLOCK_SIZE, page.bytes);
  }

  /** Frames that were live before the step and hold no table are untouched. */
  lemma StepKeepsData(ph: Phys, places: map<nat, Place>, ph1: Phys, root: nat, page: PageLoad, g: nat)
    requires Separated(ph, places) && IsRoot(places, root) && LoadStep(ph, ph1, root, page)
    requires g < |ph.frames| && ph.used[g] && g !in places
    ensures |ph1.frames| == |ph.frames| && ph1.used[g] && ph1.frames[g] == ph.frames[g]
    ensures g !in LoadPlaces(ph, places, root, page)
  {
    TakeEffect(ph, places);
    MapKeepsData(Take(ph).0, places, root, page.path, Take(ph).1, TABLE_FLAGS, g);
  }

  lemma StepMapsPage(ph: Phys, places: map<nat, Place>, ph1: Phys, root: nat, page: PageLoad)
    requires Separated(ph, places) && IsRoot(places, root) && LoadStep(ph, ph1, root, page)
    requires CanMap(Take(ph).0, root, page.path)
    ensures Lookup(ph1, root, page.path) == Some(MakeEntry(Take(ph).1, TABLE_FLAGS))
  {
    TakeEffect(ph, places);
    StepSetting(ph, places, ph1, root, page);
    MapTarget(Take(ph).0, places, root, page.path, Take(ph).1, TABLE_FLAGS);
    var mapped, after := MappedFor(ph, root, page), LoadPlaces(ph, places, root, page);
    WriteKeepsLookup(mapped, after, Take(ph).1 / BLOCK_SIZE, page.bytes, root, page.path);
  }

  /** The page is mapped to a live data frame that holds its bytes. */
  ghost predicate HoldsLive(ph: Phys, places: map<nat, Place>, root: nat, page: PageLoad)
    requires FullPath(page.path)
  {
    && Holds(ph, root, page)
    && var f := EntryFrame(Lookup(ph, root, page.path).value); f < |ph.used| && ph.used[f] && f !in places
  }

  /** The page just placed, when the mapping went through. */
  lemma StepPlacesPage(ph: Phys, places: map<nat, Place>, ph1: Phys, root: nat, page: PageLoad)
    requires Separated(ph, places) && IsRoot(places, root) && LoadStep(ph, ph1, root, page)
    requires CanMap(Take(ph).0, root, page.path)
    ensures HoldsLive(ph1, LoadPlaces(ph, places, root, page), root, page)
  {
    TakeEffect(ph, places);
    FrameOfEntry(Take(ph).1 / BLOCK_SIZE);
    EntryIsOpen(Take(ph).1 / BLOCK_SIZE);
    StepMapsPage(ph, places, ph1, root, page);
    StepSetting(ph, places, ph1, root, page);
  }

  /** Pages placed earlier stay as they are. */
  lemma StepKeepsPage(ph: Phys, places: map<nat, Place>, ph1: Phys, root: nat, page: PageLoad, earlier: PageLoad)
    requires Separated(ph, places) && IsRoot(places, root) && LoadStep(ph, ph1, root, page)
    requires FullPath(earlier.path) && earlier.path != page.path && HoldsLive(ph, places, root, earlier)
    ensures HoldsLive(ph1, LoadPlaces(ph, places, root, page), root, earlier)
  {
    StepElsewhere(ph, places, ph1, root, page, earlier.path);
    StepKeepsData(ph, places, ph1, root, page, EntryFrame(Lookup(ph, root, earlier.path).value));
  }

  lemma StepElsewhere(ph: Phys, places: map<nat, Place>, ph1: Phys, root: nat, page: PageLoad, q: seq<nat>)
    requires Separated(ph, places) && IsRoot(places, root) && LoadStep(ph, ph1, root, page)
    requires FullPath(q) && (q != page.path || !CanMap(Take(ph).0, root, page.path))
    ensures Lookup(ph1, root, q) == Lookup(ph, root, q)
  {
    TakeEffect(ph, places);
    StepSetting(ph, places, ph1, root, page);
    var (taken, p) := Take(ph);
    if q != page.path {
      MapElsewhere(taken, places, root, page.path, p, TABLE_FLAGS, root, q);
    } else {
      MapFails(taken, places, root, page.path, p, TABLE_FLAGS, root, q);
    }
    var mapped, after := MappedFor(ph, root, page), LoadPlaces(ph, places, root, page);
    WriteKeepsLookup(mapped, after, p / BLOCK_SIZE, page.bytes, root, q);
    TakeKeepsLookup(ph, root, q);
  }

  lemma {:induction false} TakeKeepsLookup(ph: Phys, t: nat, path: seq<nat>)
    requires path != []
    ensures Lookup(Take(ph).0, t, path) == Lookup(ph, t, path)
    decreases |path|
  {
    assert EntryAt(Take(ph).0, t, path[0]) == EntryAt(ph, t, path[0]);
    if |path| > 1 && Present(EntryAt(ph, t, path[0])) {
      TakeKeepsLookup(ph, EntryFrame(EntryAt(ph, t, path[0])), path[1..]);
    }
  }

  // ---------------------------------------------------------------------
  // How many frames a plan needs
  // ---------------------------------------------------------------------

  /** The places of the three tables above a page. */
  function TablesAbove(p: seq<nat>): set<seq<nat>>
    requires FullPath(p)
  {
    {p[..1], p[..2], p[..3]}
  }

  function TablesOf(plan: seq<PageLoad>): (s: set<seq<nat>>)
    requires FullPaths(plan)
    ensures forall q :: q in s ==> 0 < |q| < 4 && IsPath(q)
  {
    if plan == [] then {} else TablesAbove(plan[0].path) + TablesOf(plan[1..])
  }

  function Missing(ph: Phys, root: nat, tables: set<seq<nat>>): set<seq<nat>>
  {
    set q | q in tables && Descend(ph, root, q).None?
  }

  /** A frame for every page and one for every table not there yet; both can
      be counted before the load begins. */
  function Demand(ph: Phys, root: nat, plan: seq<PageLoad>): nat
    requires FullPaths(plan)
  {
    |plan| + |Missing(ph, root, TablesOf(plan))|
  }

  lemma MissingAbove(ph: Phys, root: nat, p: seq<nat>)
    requires FullPath(p)
    ensures |Missing(ph, root, TablesAbove(p))| == Need(ph, root, p[..3])
  {
    var u := p[..3];
    assert u[..1] == p[..1] && u[..2] == p[..2] && u[..3] == u && u[..0] == [];
    var m := Missing(ph, root, TablesAbove(p));
    if Descend(ph, root, u).Some? {
      DescendPrefix(ph, root, u, 1);
      DescendPrefix(ph, root, u, 2);
      NeedIsMissing(ph, root, u);
      assert m == {};
    } else if Descend(ph, root, p[..2]).Some? {
      DescendPrefix(ph, root, p[..2], 1);
      assert p[..2][..1] == p[..1];
      NeedAfterGap(ph, root, u, 2);
      assert m == {u};
    } else if Descend(ph, root, p[..1]).Some? {
      NeedAfterGap(ph, root, u, 1);
      assert m == {p[..2], u};
    } else {
      NeedAfterGap(ph, root, u, 0);
      assert m == {p[..1], p[..2], u};
    }
  }

  lemma {:induction false} TakeKeepsDescend(ph: Phys, t: nat, path: seq<nat>)
    ensures Descend(Take(ph).0, t, path) == Descend(ph, t, path) && Need(Take(ph).0, t, path) == Need(ph, t, path)
    decreases |path|
  {
    if path != [] {
      assert EntryAt(Take(ph).0, t, path[0]) == EntryAt(ph, t, path[0]);
      TakeKeepsDescend(ph, EntryFrame(EntryAt(ph, t, path[0])), path[1..]);
    }
  }

  lemma {:induction false} WriteKeepsDescend(ph: Phys, places: map<nat, Place>, f: nat, bytes: seq<nat>,
                                             u: nat, path: seq<nat>)
    requires Separated(ph, places) && f < |ph.frames| && f !in places
    requires u in places && IsPath(path) && |places[u].path| + |path| < 4
    ensures Descend(WritePage(ph, f, bytes), u, path) == Descend(ph, u, path)
    decreases |path|
  {
    if path != [] {
      assert EntryAt(WritePage(ph, f, bytes), u, path[0]) == EntryAt(ph, u, path[0]);
      if Present(EntryAt(ph, u, path[0])) {
        assert Linked(ph, places, u, path[0]);
        WriteKeepsDescend(ph, places, f, bytes, EntryFrame(EntryAt(ph, u, path[0])), path[1..]);
      }
    }
  }

  lemma StepTables(ph: Phys, places: map<nat, Place>, ph1: Phys, root: nat, page: PageLoad, q: seq<nat>)
    requires Separated(ph, places) && IsRoot(places, root) && LoadStep(ph, ph1, root, page)
    requires CanMap(Take(ph).0, root, page.path) && IsPath(q) && |q| < 4
    ensures Descend(ph1, root, q).Some? <==> Descend(ph, root, q).Some? || q <= page.path[..3]
  {
    TakeEffect(ph, places);
    StepSetting(ph, places, ph1, root, page);
    MapTables(Take(ph).0, places, root, page.path, Take(ph).1, TABLE_FLAGS, q);
    TakeKeepsDescend(ph, root, q);
    var mapped, after := MappedFor(ph, root, page), LoadPlaces(ph, places, root, page);
    WriteKeepsDescend(mapped, after, Take(ph).1 / BLOCK_SIZE, page.bytes, root, q);
  }

  lemma StepCounts(ph: Phys, places: map<nat, Place>, ph1: Phys, root: nat, page: PageLoad)
    requires Separated(ph, places) && IsRoot(places, root) && LoadStep(ph, ph1, root, page)
    ensures CanMap(Take(ph).0, root, page.path) <==> 1 + Need(ph, root, page.path[..3]) <= FreeCount(ph.used)
    ensures FreeCount(ph1.used) == if CanMap(Take(ph).0, root, page.path)
                                   then FreeCount(ph.used) - 1 - Need(ph, root, page.path[..3]) else 0
  {
    TakeEffect(ph, places);
    TakeKeepsDescend(ph, root, page.path[..3]);
    MapCounts(Take(ph).0, places, root, page.path, Take(ph).1, TABLE_FLAGS);
  }

  lemma StepMissing(ph: Phys, places: map<nat, Place>, ph1: Phys, root: nat, page: PageLoad, tables: set<seq<nat>>)
    requires Separated(ph, places) && IsRoot(places, root) && LoadStep(ph, ph1, root, page)
    requires CanMap(Take(ph).0, root, page.path)
    requires forall q :: q in tables ==> 0 < |q| < 4 && IsPath(q)
    ensures Missing(ph1, root, tables) == Missing(ph, root, tables) - TablesAbove(page.path)
  {
    forall q | q in tables
      ensures q in Missing(ph1, root, tables) <==> q in Missing(ph, root, tables) && q !in TablesAbove(page.path)
    {
      StepTables(ph, places, ph1, root, page, q);
      PrefixIsAbove(page.path, q);
    }
  }

  lemma PrefixIsAbove(p: seq<nat>, q: seq<nat>)
    requires FullPath(p) && 0 < |q| < 4
    ensures q <= p[..3] <==> q in TablesAbove(p)
  {
    if q <= p[..3] {
      assert q == p[..3][..|q|] == p[..|q|];
    }
  }

  /** Each page placed lowers the demand by what it took. */
  lemma StepDemand(ph: Phys, places: map<nat, Place>, ph1: Phys, root: nat, plan: seq<PageLoad>)
    requires Separated(ph, places) && IsRoot(places, root) && plan != [] && FullPaths(plan)
    requires LoadStep(ph, ph1, root, plan[0]) && CanMap(Take(ph).0, root, plan[0].path)
    ensures Demand(ph, root, plan) == 1 + Need(ph, root, plan[0].path[..3]) + Demand(ph1, root, plan[1..])
  {
    var above, rest := TablesAbove(plan[0].path), TablesOf(plan[1..]);
    MissingAbove(ph, root, plan[0].path);
    StepMissing(ph, places, ph1, root, plan[0], rest);
    assert Missing(ph, root, TablesOf(plan)) == Missing(ph, root, above) + Missing(ph1, root, rest);
    assert Missing(ph, root, above) !! Missing(ph1, root, rest);
  }

  lemma NothingToLoad(ph: Phys, root: nat)
    ensures Demand(ph, root, []) == 0
  {
    assert Missing(ph, root, {}) == {};
  }

  lemma DemandOfFirst(ph: Phys, root: nat, plan: seq<PageLoad>)
    requires plan != [] && FullPaths(plan)
    ensures Demand(ph, root, plan) >= 1 + Need(ph, root, plan[0].path[..3])
  {
    MissingAbove(ph, root, plan[0].path);
    SubsetSize(Missing(ph, root, TablesAbove(plan[0].path)), Missing(ph, root, TablesOf(plan)));
  }

  lemma SubsetSize<T>(a: set<T>, b: set<T>)
    requires a <= b
    ensures |a| <= |b|
  {
    assert b == a + (b - a);
  }

  // ---------------------------------------------------------------------
  // Whole loads
  // ---------------------------------------------------------------------

  lemma RestOfLoad(trace: seq<Phys>, root: nat, plan: seq<PageLoad>)
    requires Loads(trace, root, plan) && |trace| > 1
    ensures Loads(trace[1..], root, plan[1..])
    ensures DistinctPages(plan) ==> DistinctPages(plan[1..])
  {
    forall k | 0 <= k < |trace[1..]| - 1
      ensures LoadStep(trace[1..][k], trace[1..][k + 1], root, plan[1..][k])
    {
      var n := k + 1;
      assert LoadStep(trace[n], trace[n + 1], root, plan[n]);
    }
  }

  /** With enough frames to begin with, no allocation of the load fails. */
  lemma {:induction false} NeverOutOfFrames(trace: seq<Phys>, places: map<nat, Place>, root: nat, plan: seq<PageLoad>)
    requires Loads(trace, root, plan) && |trace| <= |plan| && DistinctPages(plan)
    requires Separated(trace[0], places) && IsRoot(places, root)
    requires Demand(trace[0], root, plan) <= FreeCount(trace[0].used)
    ensures Take(trace[|trace| - 1]).1 != 0
    decreases |trace|
  {
    DemandOfFirst(trace[0], root, plan);
    if |trace| == 1 {
      AllocCounts(trace[0].used);
    } else {
      StepCounts(trace[0], places, trace[1], root, plan[0]);
      StepDemand(trace[0], places, trace[1], root, plan);
      StepKeepsSeparation(trace[0], places, trace[1], root, plan[0]);
      RestOfLoad(trace, root, plan);
      var states := trace[1..];
      assert states[|states| - 1] == trace[|trace| - 1];
      NeverOutOfFrames(states, LoadPlaces(trace[0], places, root, plan[0]), root, plan[1..]);
    }
  }

  /** A page in place survives the rest of the load. */
  lemma {:induction false} RunKeepsPage(trace: seq<Phys>, places: map<nat, Place>, root: nat,
                                        plan: seq<PageLoad>, earlier: PageLoad)
    requires Loads(trace, root, plan) && Separated(trace[0], places) && IsRoot(places, root)
    requires FullPath(earlier.path) && HoldsLive(trace[0], places, root, earlier)
    requires forall k :: 0 <= k < |plan| ==> plan[k].path != earlier.path
    ensures Holds(trace[|trace| - 1], root, earlier)
    decreases |trace|
  {
    if |trace| > 1 {
      StepKeepsSeparation(trace[0], places, trace[1], root, plan[0]);
      StepKeepsPage(trace[0], places, trace[1], root, plan[0], earlier);
      RestOfLoad(trace, root, plan);
      RunKeepsPage(trace[1..], LoadPlaces(trace[0], places, root, plan[0]), root, plan[1..], earlier);
    }
  }

  lemma FirstPageStays(trace: seq<Phys>, places: map<nat, Place>, root: nat, plan: seq<PageLoad>)
    requires Loads(trace, root, plan) && |trace| > 1 && DistinctPages(plan)
    requires Separated(trace[0], places) && IsRoot(places, root) && CanMap(Take(trace[0]).0, root, plan[0].path)
    ensures Holds(trace[|trace| - 1], root, plan[0])
  {
    StepKeepsSeparation(trace[0], places, trace[1], root, plan[0]);
    StepPlacesPage(trace[0], places, trace[1], root, plan[0]);
    RestOfLoad(trace, root, plan);
    RunKeepsPage(trace[1..], LoadPlaces(trace[0], places, root, plan[0]), root, plan[1..], plan[0]);
  }

  /** With enough frames every page ends up in place. */
  lemma {:induction false} EnoughFrames(trace: seq<Phys>, places: map<nat, Place>, root: nat,
                                        plan: seq<PageLoad>, k: nat)
    requires Loads(trace, root, plan) && |trace| == |plan| + 1 && DistinctPages(plan)
    requires Separated(trace[0], places) && IsRoot(places, root)
    requires Demand(trace[0], root, plan) <= FreeCount(trace[0].used) && k < |plan|
    ensures Holds(trace[|plan|], root, plan[k])
    decreases |trace|
  {
    DemandOfFirst(trace[0], root, plan);
    StepCounts(trace[0], places, trace[1], root, plan[0]);
    if k == 0 {
      FirstPageStays(trace, places, root, plan);
      assert trace[|trace| - 1] == trace[|plan|];
    } else {
      StepKeepsSeparation(trace[0], places, trace[1], root, plan[0]);
      StepDemand(trace[0], places, trace[1], root, plan);
      RestOfLoad(trace, root, plan);
      var states, pages := trace[1..], plan[1..];
      assert states[|pages|] == trace[|plan|] && pages[k - 1] == plan[k];
      EnoughFrames(states, LoadPlaces(trace[0], places, root, plan[0]), root, pages, k - 1);
    }
  }

  /** With too few frames a load that was reported complete misses a page. */
  lemma {:induction false} TooFewFrames(trace: seq<Phys>, places: map<nat, Place>, root: nat, plan: seq<PageLoad>)
    returns (k: nat)
    requires Loads(trace, root, plan) && |trace| == |plan| + 1 && DistinctPages(plan)
    requires Separated(trace[0], places) && IsRoot(places, root)
    requires FreeCount(trace[0].used) < Demand(trace[0], root, plan)
    ensures k < |plan| && Lookup(trace[|plan|], root, plan[k].path) == None
    decreases |trace|
  {
    if plan == [] {
      NothingToLoad(trace[0], root);
      assert false;
    }
    StepCounts(trace[0], places, trace[1], root, plan[0]);
    StepKeepsSeparation(trace[0], places, trace[1], root, plan[0]);
    if CanMap(Take(trace[0]).0, root, plan[0].path) {
      StepDemand(trace[0], places, trace[1], root, plan);
      RestOfLoad(trace, root, plan);
      var states, pages := trace[1..], plan[1..];
      assert states[|pages|] == trace[|plan|];
      var n := TooFewFrames(states, LoadPlaces(trace[0], places, root, plan[0]), root, pages);
      k := n + 1;
      assert pages[n] == plan[k];
    } else {
      LastPageLost(trace, places, root, plan);
      k := 0;
    }
  }

  lemma LastPageLost(trace: seq<Phys>, places: map<nat, Place>, root: nat, plan: seq<PageLoad>)
    requires Loads(trace, root, plan) && |trace| == |plan| + 1 && DistinctPages(plan) && plan != []
    requires Separated(trace[0], places) && IsRoot(places, root)
    requires !CanMap(Take(trace[0]).0, root, plan[0].path)
    ensures |plan| == 1 && Lookup(trace[1], root, plan[0].path) == None
  {
    var page := plan[0];
    StepCounts(trace[0], places, trace[1], root, page);
    StepKeepsSeparation(trace[0], places, trace[1], root, page);
    if |plan| > 1 {
      assert LoadStep(trace[1], trace[2], root, plan[1]);
      AllocCounts(trace[1].used);
      assert false;
    }
    TakeEffect(trace[0], places);
    StepElsewhere(trace[0], places, trace[1], root, page, page.path);
    TakeKeepsLookup(trace[0], root, page.path);
    MapFails(Take(trace[0]).0, places, root, page.path, Take(trace[0]).1, TABLE_FLAGS, root, page.path);
  }

  /** A load that reported success really placed all its pages exactly when
      the free frames covered its demand. */
  lemma LoadedExactly(trace: seq<Phys>, places: map<nat, Place>, root: nat, plan: seq<PageLoad>)
    requires Loads(trace, root, plan) && |trace| == |plan| + 1 && DistinctPages(plan)
    requires Separated(trace[0], places) && IsRoot(places, root)
    ensures (forall k :: 0 <= k < |plan| ==> Holds(trace[|plan|], root, plan[k]))
            <==> Demand(trace[0], root, plan) <= FreeCount(trace[0].used)
  {
    if Demand(trace[0], root, plan) <= FreeCount(trace[0].used) {
      forall k | 0 <= k < |plan| ensures Holds(trace[|plan|], root, plan[k]) {
        EnoughFrames(trace, places, root, plan, k);
      }
    } else {
      var k := TooFewFrames(trace, places, root, plan);
    }
  }

  // ---------------------------------------------------------------------
  // Access
  // ---------------------------------------------------------------------

  /** The entry that the walk along p meets after k steps. */
  function EntryOnPath(ph: Phys, root: nat, p: seq<nat>, k: nat): nat
    requires k < |p|
  {
    match Descend(ph, root, p[..k])
    case None => 0
    case Some(t) => EntryAt(ph, t, p[k])
  }

  /** User code can read and write the page: every level of the walk allows
      it. */
  ghost predicate UserCanWrite(ph: Phys, root: nat, p: seq<nat>)
    requires FullPath(p)
  {
    forall k :: 0 <= k < 4 ==> Open(EntryOnPath(ph, root, p, k))
  }

  /** Above the last level the entries of all tables are open, so the leaf
      decides. */
  lemma LeafDecidesAccess(ph: Phys, places: map<nat, Place>, root: nat, p: seq<nat>)
    requires Separated(ph, places) && IsRoot(places, root) && FullPath(p) && Lookup(ph, root, p).Some?
    ensures UserCanWrite(ph, root, p) <==> Open(Lookup(ph, root, p).value)
  {
    LookupViaDescend(ph, root, p);
    assert Open(EntryOnPath(ph, root, p, 3)) <==> Open(Lookup(ph, root, p).value);
    forall k | 0 <= k < 3 ensures Open(EntryOnPath(ph, root, p, k)) {
      UpperIsOpen(ph, places, root, p, k);
    }
  }

  lemma UpperIsOpen(ph: Phys, places: map<nat, Place>, root: nat, p: seq<nat>, k: nat)
    requires Separated(ph, places) && IsRoot(places, root) && FullPath(p) && k < 3
    requires Descend(ph, root, p[..3]).Some?
    ensures Open(EntryOnPath(ph, root, p, k))
  {
    var u := p[..3];
    DescendPrefix(ph, root, u, k);
    DescendPrefix(ph, root, u, k + 1);
    assert u[..k] == p[..k] && u[..k + 1] == p[..k + 1];
    DescendLast(ph, root, p[..k + 1]);
    assert p[..k + 1][..k] == p[..k];
    RootArrives(ph, places, root, p[..k]);
    var t := Descend(ph, root, p[..k]).value;
    assert Linked(ph, places, t, p[k]);
    EntryIsOpen(EntryFrame(EntryAt(ph, t, p[k])));
  }

  /** After a load with frames enough the process can read and write all its
      pages. */
  lemma LoadedIsAccessible(trace: seq<Phys>, places: map<nat, Place>, root: nat, plan: seq<PageLoad>, k: nat)
    requires Loads(trace, root, plan) && |trace| == |plan| + 1 && DistinctPages(plan)
    requires Separated(trace[0], places) && IsRoot(places, root)
    requires Demand(trace[0], root, plan) <= FreeCount(trace[0].used) && k < |plan|
    ensures UserCanWrite(trace[|plan|], root, plan[k].path)
  {
    EnoughFrames(trace, places, root, plan, k);
    var after := LoadKeepsSeparation(trace, places, root, plan);
    LeafDecidesAccess(trace[|plan|], after, root, plan[k].path);
  }

  lemma {:induction false} LoadKeepsSeparation(trace: seq<Phys>, places: map<nat, Place>, root: nat,
                                               plan: seq<PageLoad>)
    returns (after: map<nat, Place>)
    requires Loads(trace, root, plan) && Separated(trace[0], places) && IsRoot(places, root)
    ensures Separated(trace[|trace| - 1], after) && IsRoot(after, root)
    decreases |trace|
  {
    after := places;
    if |trace| > 1 {
      var states, pages := trace[1..], plan[1..];
      assert states[|states| - 1] == trace[|trace| - 1];
      StepKeepsSeparation(trace[0], places, trace[1], root, plan[0]);
      RestOfLoad(trace, root, plan);
      after := LoadKeepsSeparation(states, LoadPlaces(trace[0], places, root, plan[0]), root, pages);
    }
  }

  /** A load adds one state per page. */
  lemma LoadGrows(trace: seq<Phys>, root: nat, plan: seq<PageLoad>, page: PageLoad, ph1: Phys)
    requires Loads(trace, root, plan) && |trace| == |plan| + 1 && LoadStep(trace[|plan|], ph1, root, page)
    ensures Loads(trace + [ph1], root, plan + [page])
  {
    var t, p := trace + [ph1], plan + [page];
    forall k | 0 <= k < |t| - 1
      ensures LoadStep(t[k], t[k + 1], root, p[k])
    {
      if k < |plan| {
        assert LoadStep(trace[k], trace[k + 1], root, plan[k]);
      }
    }
  }

  /** A load of the first pages of a plan is the beginning of a load of all. */
  lemma LoadsPrefix(trace: seq<Phys>, root: nat, done: seq<PageLoad>, plan: seq<PageLoad>)
    requires Loads(trace, root, done) && done <= plan
    ensures Loads(trace, root, plan)
  {
    forall k | 0 <= k < |trace| - 1
      ensures LoadStep(trace[k], trace[k + 1], root, plan[k])
    {
      assert LoadStep(trace[k], trace[k + 1], root, done[k]);
    }
  }

  /** Through a whole load the tables stay separated and every frame that was
      live before and is not a table keeps its contents. */
  lemma {:induction false} LoadKeepsLiveFrames(trace: seq<Phys>, places: map<nat, Place>, root: nat,
                                               plan: seq<PageLoad>, g: nat)
    requires Loads(trace, root, plan) && Separated(trace[0], places) && IsRoot(places, root)
    requires g < |trace[0].frames| && trace[0].used[g] && g !in places
    ensures var last := trace[|trace| - 1];
            g < |last.frames| && g < |last.used| && last.used[g] && last.frames[g] == trace[0].frames[g]
    decreases |trace|
  {
    if |trace| > 1 {
      StepKeepsSeparation(trace[0], places, trace[1], root, plan[0]);
      StepKeepsData(trace[0], places, trace[1], root, plan[0], g);
      RestOfLoad(trace, root, plan);
      LoadKeepsLiveFrames(trace[1..], LoadPlaces(trace[0], places, root, plan[0]), root, plan[1..], g);
    }
  }

  /** One free frame is enough for the loader to report success on a page
      whose tables it could not build: the page stays unmapped. */
  lemma LoadCanBeSilentlyIncomplete(page: PageLoad)
    requires FullPath(page.path)
    ensures exists ph, ph1, places ::
              && Separated(ph, places) && IsRoot(places, 1)
              && Loads([ph, ph1], 1, [page]) && Lookup(ph1, 1, page.path) == None
  {
    var ph := Phys([true, true, false], [Page([]), ZeroTable(), Page([])]);
    var places := map[1 := Place(Own(1), [])];
    assert Separated(ph, places);
    assert FreeCount(ph.used) == 1 by {
      assert ph.used[..2] == [true, true] && [true, true][..1] == [true] && [true][..0] == [];
    }
    AllocCounts(ph.used);
    var (taken, p) := Take(ph);
    TakeEffect(ph, places);
    MapKeepsData(taken, places, 1, page.path, p, TABLE_FLAGS, p / BLOCK_SIZE);
    var ph1 := WritePage(MapAt(taken, 1, page.path, p, TABLE_FLAGS), p / BLOCK_SIZE, page.bytes);
    var trace := [ph, ph1];
    assert LoadStep(trace[0], trace[1], 1, page);
    assert Loads(trace, 1, [page]);
    StepCounts(ph, places, ph1, 1, page);
    assert Need(ph, 1, page.path[..3]) == 3;
    LastPageLost(trace, places, 1, [page]);
  }
}
