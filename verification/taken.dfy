/** Which frames a load takes (src/kernel/pmm.c:104-125 under
    src/kernel/elf.c:86-97): always the lowest free ones, so a caller can name
    them before the load begins. */
module TakenFrames {
  import opened Options
  import opened Pmm
  import opened Paging
  import opened Mapping
  import opened Loading

  // ---------------------------------------------------------------------
  // Lowest first
  // ---------------------------------------------------------------------

  /** Between used and used1 frames were taken and none given back, and nothing
      free was left below a frame taken. */
  ghost predicate LowestFirst(used: seq<bool>, used1: seq<bool>)
  {
    && |used1| == |used|
    && (forall f :: 0 <= f < |used| && used[f] ==> used1[f])
    && forall f, g :: 0 <= f < g < |used| && !used[g] && used1[g] ==> used1[f]
  }

  lemma LowestFirstTwice(a: seq<bool>, b: seq<bool>, c: seq<bool>)
    requires LowestFirst(a, b) && LowestFirst(b, c)
    ensures LowestFirst(a, c)
  {
    forall f, g | 0 <= f < g < |a| && !a[g] && c[g] ensures c[f] {
      if b[g] {
        assert b[f];
      }
    }
  }

  lemma {:induction false} PopulateTakesLowest(ph: Phys, t: nat, path: seq<nat>)
    requires |ph.used| == |ph.frames| && IsPath(path)
    ensures LowestFirst(ph.used, Populate(ph, t, path).0.used)
    decreases |path|
  {
    if path != [] && IsTable(ph, t) {
      var (ph1, n) := Ensure(ph, t, path[0]);
      assert LowestFirst(ph.used, ph1.used);
      if n.Some? {
        PopulateTakesLowest(ph1, n.value, path[1..]);
        LowestFirstTwice(ph.used, ph1.used, Populate(ph, t, path).0.used);
      }
    }
  }

  lemma StepTakesLowest(ph: Phys, ph1: Phys, root: nat, page: PageLoad)
    requires LoadStep(ph, ph1, root, page)
    ensures LowestFirst(ph.used, ph1.used)
  {
    PopulateTakesLowest(Take(ph).0, root, page.path[..3]);
    LowestFirstTwice(ph.used, Take(ph).0.used, ph1.used);
  }

  /** So does a load between any two of its states. */
  lemma {:induction false} LoadTakesLowest(trace: seq<Phys>, root: nat, plan: seq<PageLoad>, j: nat, k: nat)
    requires Loads(trace, root, plan) && j <= k < |trace|
    ensures LowestFirst(trace[j].used, trace[k].used)
    decreases k
  {
    if j < k {
      LoadTakesLowest(trace, root, plan, j, k - 1);
      assert LoadStep(trace[k - 1], trace[k], root, plan[k - 1]);
      StepTakesLowest(trace[k - 1], trace[k], root, plan[k - 1]);
      LowestFirstTwice(trace[j].used, trace[k - 1].used, trace[k].used);
    }
  }

  // ---------------------------------------------------------------------
  // Naming the frames
  // ---------------------------------------------------------------------

  /** Of d frames taken lowest first, f is one. */
  predicate WouldTake(used: seq<bool>, d: nat, f: nat)
  {
    f < |used| && !used[f] && FreeCount(used[..f]) < d
  }

  /** What is taken in a part of memory is taken. */
  lemma {:induction false} PartIsTaken(used: seq<bool>, used1: seq<bool>, m: nat)
    requires |used1| == |used| && m <= |used| && forall f :: 0 <= f < |used| && used[f] ==> used1[f]
    ensures FreeCount(used1[..m]) <= FreeCount(used[..m])
    ensures FreeCount(used[..m]) - FreeCount(used1[..m]) <= FreeCount(used) - FreeCount(used1)
    ensures (forall f :: m <= f < |used| ==> used1[f] == used[f]) ==>
              FreeCount(used[..m]) - FreeCount(used1[..m]) == FreeCount(used) - FreeCount(used1)
    decreases |used|, m
  {
    if m == |used| {
      assert used[..m] == used && used1[..m] == used1;
      if m > 0 {
        PartIsTaken(used, used1, m - 1);
        assert used[..m][..m - 1] == used[..m - 1] && used1[..m][..m - 1] == used1[..m - 1];
      }
    } else {
      var last := |used| - 1;
      PartIsTaken(used[..last], used1[..last], m);
      assert used[..last][..m] == used[..m] && used1[..last][..m] == used1[..m];
    }
  }

  lemma NoFreeBelow(used: seq<bool>, m: nat)
    requires m <= |used| && forall f :: 0 <= f < m ==> used[f]
    ensures FreeCount(used[..m]) == 0
  {
    NoneFree(used[..m]);
  }

  lemma CountNext(used: seq<bool>, f: nat)
    requires f < |used|
    ensures FreeCount(used[..f + 1]) == FreeCount(used[..f]) + if used[f] then 0 else 1
  {
    assert used[..f + 1][..f] == used[..f];
  }

  /** Exactly the lowest free frames, as many as were taken. */
  lemma TakenExactly(used: seq<bool>, used1: seq<bool>, f: nat)
    requires LowestFirst(used, used1) && f < |used|
    ensures FreeCount(used1) <= FreeCount(used)
    ensures !used[f] && used1[f] <==> WouldTake(used, FreeCount(used) - FreeCount(used1), f)
  {
    PartIsTaken(used, used1, 0);
    if !used[f] {
      if used1[f] {
        TakenIsLow(used, used1, f);
      } else {
        PartIsTaken(used, used1, f);
      }
    }
  }

  lemma TakenIsLow(used: seq<bool>, used1: seq<bool>, f: nat)
    requires LowestFirst(used, used1) && f < |used| && !used[f] && used1[f]
    ensures FreeCount(used[..f]) < FreeCount(used) - FreeCount(used1)
  {
    NoFreeBelow(used1, f + 1);
    CountNext(used, f);
    PartIsTaken(used, used1, f + 1);
  }

  // ---------------------------------------------------------------------
  // Counting a load
  // ---------------------------------------------------------------------

  /** A load takes no more frames than it asks for, and exactly as many if it
      is complete and there are enough. */
  lemma {:induction false} LoadCounts(trace: seq<Phys>, places: map<nat, Place>, root: nat, plan: seq<PageLoad>)
    requires Loads(trace, root, plan) && FullPaths(plan) && Separated(trace[0], places) && IsRoot(places, root)
    ensures FreeCount(trace[0].used) <= FreeCount(trace[|trace| - 1].used) + Demand(trace[0], root, plan)
    ensures |trace| == |plan| + 1 && Demand(trace[0], root, plan) <= FreeCount(trace[0].used) ==>
              FreeCount(trace[0].used) == FreeCount(trace[|trace| - 1].used) + Demand(trace[0], root, plan)
    decreases |trace|
  {
    if |trace| > 1 {
      var states, pages := trace[1..], plan[1..];
      assert states[|states| - 1] == trace[|trace| - 1];
      DemandOfFirst(trace[0], root, plan);
      StepCounts(trace[0], places, trace[1], root, plan[0]);
      if CanMap(Take(trace[0]).0, root, plan[0].path) {
        StepDemand(trace[0], places, trace[1], root, plan);
        StepKeepsSeparation(trace[0], places, trace[1], root, plan[0]);
        RestOfLoad(trace, root, plan);
        LoadCounts(states, LoadPlaces(trace[0], places, root, plan[0]), root, pages);
      }
    } else if plan == [] {
      NothingToLoad(trace[0], root);
    }
  }

  lemma MoreIsTaken(used: seq<bool>, d: nat, e: nat, f: nat)
    requires WouldTake(used, d, f) && d <= e
    ensures WouldTake(used, e, f)
  {
  }

  /** Every frame taken along a load is one that a caller can name. */
  lemma TakenIsNamed(trace: seq<Phys>, places: map<nat, Place>, root: nat, plan: seq<PageLoad>, k: nat, f: nat)
    requires Loads(trace, root, plan) && FullPaths(plan) && Separated(trace[0], places) && IsRoot(places, root)
    requires k < |trace| && f < |trace[0].used| == |trace[k].used| && !trace[0].used[f] && trace[k].used[f]
    ensures WouldTake(trace[0].used, Demand(trace[0], root, plan), f)
  {
    LoadTakesLowest(trace, root, plan, 0, k);
    TakenExactly(trace[0].used, trace[k].used, f);
    CountsSoFar(trace, places, root, plan, k);
  }

  lemma CountsSoFar(trace: seq<Phys>, places: map<nat, Place>, root: nat, plan: seq<PageLoad>, k: nat)
    requires Loads(trace, root, plan) && FullPaths(plan) && Separated(trace[0], places) && IsRoot(places, root)
    requires k < |trace|
    ensures FreeCount(trace[0].used) <= FreeCount(trace[k].used) + Demand(trace[0], root, plan)
  {
    var states := trace[..k + 1];
    assert Loads(states, root, plan) && states[0] == trace[0];
    LoadCounts(states, places, root, plan);
    assert states[|states| - 1] == trace[k];
  }
}
