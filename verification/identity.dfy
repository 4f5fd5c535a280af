/** The identity map of vmm_init (src/kernel/vmm.c:92-113): exactly when the
    loop, which ignores every allocation failure, maps all of 512 MB. */
module Identity {
  import opened Options
  import opened Pmm
  import opened Paging
  import opened Mapping
  import opened AddressSpaces

  /** Frames the loop has taken after n pages: a PDPT, a PD and one PT for
      every 512 pages begun. */
  function TablesFor(n: nat): nat
  {
    if n == 0 then 0 else 2 + (n + 511) / 512
  }

  /** The path of page n, below 512 MB. */
  function IdPath(n: nat): (p: seq<nat>)
    requires n < IDENTITY_PAGES
    ensures FullPath(p) && p[..3] == [0, 0, n / 512]
  {
    [0, 0, n / 512, n % 512]
  }

  lemma IdentityPath(n: nat)
    requires n < IDENTITY_PAGES
    ensures PathOf(n * BLOCK_SIZE) == IdPath(n)
  {
    assert PageOf(n * BLOCK_SIZE) == n;
    PathIsPage(n * BLOCK_SIZE);
  }

  /** One iteration of the loop. */
  function MapSelf(ph: Phys, root: nat, n: nat): (r: Phys)
    requires |ph.used| == |ph.frames| && n < IDENTITY_PAGES
    ensures |r.used| == |r.frames| == |ph.used|
  {
    MapAt(ph, root, IdPath(n), n * BLOCK_SIZE, TABLE_FLAGS)
  }

  /** The tables under the root after the first n pages. */
  predicate HasTable(n: nat, q: seq<nat>)
  {
    q == [] || (n > 0 && (q == [0] || q == [0, 0] || (|q| == 3 && q[..2] == [0, 0] && q[2] * 512 < n)))
  }

  /** The first n pages are mapped to themselves and nothing was wasted. */
  ghost predicate Mapped(ph: Phys, places: map<nat, Place>, root: nat, n: nat, spare: nat)
    requires n <= IDENTITY_PAGES
  {
    && Separated(ph, places) && IsRoot(places, root)
    && TablesFor(n) <= spare && FreeCount(ph.used) == spare - TablesFor(n)
    && TablesAre(ph, root, n) && SelfMappedUpTo(ph, root, n)
  }

  ghost predicate TablesAre(ph: Phys, root: nat, n: nat)
  {
    forall q :: IsPath(q) && |q| < 4 ==> (Descend(ph, root, q).Some? <==> HasTable(n, q))
  }

  ghost predicate SelfMappedUpTo(ph: Phys, root: nat, n: nat)
    requires n <= IDENTITY_PAGES
  {
    forall m :: 0 <= m < n ==> SelfMapped(ph, root, m)
  }

  predicate SelfMapped(ph: Phys, root: nat, m: nat)
    requires m < IDENTITY_PAGES
  {
    Lookup(ph, root, IdPath(m)) == Some(m * BLOCK_SIZE + TABLE_FLAGS)
  }

  /** An allocation failed at page m: nothing is left and the page is missing. */
  ghost predicate StuckAt(ph: Phys, places: map<nat, Place>, root: nat, m: nat)
    requires m < IDENTITY_PAGES
  {
    && Separated(ph, places) && IsRoot(places, root) && FreeCount(ph.used) == 0
    && Lookup(ph, root, IdPath(m)) == None
  }

  /** What the next page costs, from the tables that are there. */
  lemma NextNeed(ph: Phys, places: map<nat, Place>, root: nat, n: nat, spare: nat)
    requires n < IDENTITY_PAGES && Mapped(ph, places, root, n, spare)
    ensures Need(ph, root, IdPath(n)[..3]) == TablesFor(n + 1) - TablesFor(n)
  {
    var p := [0, 0, n / 512];
    assert IsPath(p) && IsPath(p[..0]) && IsPath(p[..1]) && IsPath(p[..2]);
    assert p[..0] == [] && p[..1] == [0] && p[..2] == [0, 0] && p[..3] == p;
    if n == 0 {
      NeedAfterGap(ph, root, p, 0);
    } else if n % 512 == 0 {
      assert !HasTable(n, p);
      NeedAfterGap(ph, root, p, 2);
    } else {
      assert HasTable(n, p);
      NeedIsMissing(ph, root, p);
    }
  }

  lemma TablesGrow(n: nat, q: seq<nat>)
    requires n < IDENTITY_PAGES && IsPath(q) && |q| < 4
    ensures HasTable(n + 1, q) <==> HasTable(n, q) || q <= [0, 0, n / 512]
  {
    var p := [0, 0, n / 512];
    assert p[..0] == [] && p[..1] == [0] && p[..2] == [0, 0] && p[..3] == p;
    if |q| < 4 && q <= p {
      assert q == p[..|q|];
    }
    if |q| == 3 && q[..2] == [0, 0] && n <= q[2] * 512 < n + 1 {
      assert q == p;
    }
  }

  lemma MapNextTables(ph: Phys, places: map<nat, Place>, root: nat, n: nat)
    requires n < IDENTITY_PAGES && Separated(ph, places) && IsRoot(places, root) && CanMap(ph, root, IdPath(n))
    requires TablesAre(ph, root, n)
    ensures TablesAre(MapSelf(ph, root, n), root, n + 1)
  {
    forall q | IsPath(q) && |q| < 4
      ensures Descend(MapSelf(ph, root, n), root, q).Some? <==> HasTable(n + 1, q)
    {
      MapTables(ph, places, root, IdPath(n), n * BLOCK_SIZE, TABLE_FLAGS, q);
      TablesGrow(n, q);
    }
  }

  lemma MapNextPages(ph: Phys, places: map<nat, Place>, root: nat, n: nat)
    requires n < IDENTITY_PAGES && Separated(ph, places) && IsRoot(places, root) && CanMap(ph, root, IdPath(n))
    requires SelfMappedUpTo(ph, root, n)
    ensures SelfMappedUpTo(MapSelf(ph, root, n), root, n + 1)
  {
    forall m | 0 <= m < n + 1
      ensures SelfMapped(MapSelf(ph, root, n), root, m)
    {
      MapNextPage(ph, places, root, n, m);
    }
  }

  lemma MapNextCost(ph: Phys, places: map<nat, Place>, root: nat, n: nat, spare: nat)
    requires n < IDENTITY_PAGES && Mapped(ph, places, root, n, spare)
    ensures CanMap(ph, root, IdPath(n)) <==> TablesFor(n + 1) <= spare
    ensures TablesFor(n + 1) <= spare ==> FreeCount(MapSelf(ph, root, n).used) == spare - TablesFor(n + 1)
  {
    NextNeed(ph, places, root, n, spare);
    MapCounts(ph, places, root, IdPath(n), n * BLOCK_SIZE, TABLE_FLAGS);
  }

  lemma MapNext(ph: Phys, places: map<nat, Place>, root: nat, n: nat, spare: nat)
    requires n < IDENTITY_PAGES && Mapped(ph, places, root, n, spare) && TablesFor(n + 1) <= spare
    ensures Mapped(MapSelf(ph, root, n), MapPlaces(ph, places, root, IdPath(n)), root, n + 1, spare)
  {
    MapNextCost(ph, places, root, n, spare);
    MapKeepsSeparation(ph, places, root, IdPath(n), n * BLOCK_SIZE, TABLE_FLAGS);
    MapNextTables(ph, places, root, n);
    MapNextPages(ph, places, root, n);
  }

  lemma MapNextPage(ph: Phys, places: map<nat, Place>, root: nat, n: nat, m: nat)
    requires Separated(ph, places) && IsRoot(places, root) && m <= n < IDENTITY_PAGES
    requires CanMap(ph, root, IdPath(n)) && (m < n ==> SelfMapped(ph, root, m))
    ensures SelfMapped(MapSelf(ph, root, n), root, m)
  {
    if m == n {
      FrameOfEntry(n);
      MapTarget(ph, places, root, IdPath(n), n * BLOCK_SIZE, TABLE_FLAGS);
    } else {
      OtherPage(ph, places, root, n, m);
    }
  }

  lemma StuckStays(ph: Phys, places: map<nat, Place>, root: nat, m: nat, n: nat)
    requires m < n < IDENTITY_PAGES && StuckAt(ph, places, root, m)
    ensures StuckAt(MapSelf(ph, root, n),
                    MapPlaces(ph, places, root, IdPath(n)), root, m)
  {
    MapKeepsSeparation(ph, places, root, IdPath(n), n * BLOCK_SIZE, TABLE_FLAGS);
    MapCounts(ph, places, root, IdPath(n), n * BLOCK_SIZE, TABLE_FLAGS);
    OtherPage(ph, places, root, n, m);
  }

  lemma OtherPage(ph: Phys, places: map<nat, Place>, root: nat, n: nat, m: nat)
    requires Separated(ph, places) && IsRoot(places, root) && m < n < IDENTITY_PAGES
    ensures Lookup(MapSelf(ph, root, n), root, IdPath(m))
            == Lookup(ph, root, IdPath(m))
  {
    assert IdPath(m) != IdPath(n);
    MapElsewhere(ph, places, root, IdPath(n), n * BLOCK_SIZE, TABLE_FLAGS, root, IdPath(m));
  }

  lemma GetsStuck(ph: Phys, places: map<nat, Place>, root: nat, n: nat, spare: nat)
    requires n < IDENTITY_PAGES && Mapped(ph, places, root, n, spare) && spare < TablesFor(n + 1)
    ensures StuckAt(MapSelf(ph, root, n),
                    MapPlaces(ph, places, root, IdPath(n)), root, n)
  {
    MapNextCost(ph, places, root, n, spare);
    MapKeepsSeparation(ph, places, root, IdPath(n), n * BLOCK_SIZE, TABLE_FLAGS);
    MapFails(ph, places, root, IdPath(n), n * BLOCK_SIZE, TABLE_FLAGS, root, IdPath(n));
  }

  /** Where the loop stands after n pages, with m the page it failed at. */
  ghost predicate Progress(ph: Phys, places: map<nat, Place>, root: nat, n: nat, spare: nat, m: nat)
    requires n <= IDENTITY_PAGES
  {
    if TablesFor(n) <= spare then Mapped(ph, places, root, n, spare)
    else m < n && StuckAt(ph, places, root, m)
  }

  lemma IdentityStep(ph: Phys, places: map<nat, Place>, root: nat, n: nat, spare: nat, m: nat)
    returns (ph1: Phys, after: map<nat, Place>, m1: nat)
    requires n < IDENTITY_PAGES && Progress(ph, places, root, n, spare, m)
    ensures ph1 == MapSelf(ph, root, n)
    ensures Progress(ph1, after, root, n + 1, spare, m1)
  {
    ph1, after, m1 := MapSelf(ph, root, n), MapPlaces(ph, places, root, IdPath(n)), m;
    if spare < TablesFor(n) {
      StuckStays(ph, places, root, m, n);
    } else if spare < TablesFor(n + 1) {
      GetsStuck(ph, places, root, n, spare);
      m1 := n;
    } else {
      MapNext(ph, places, root, n, spare);
    }
  }

  lemma InitStepIsMapSelf(ph: Phys, ph1: Phys, root: nat, k: nat)
    requires k < IDENTITY_PAGES && InitStep(ph, ph1, root, k)
    ensures ph1 == MapSelf(ph, root, k)
  {
    IdentityPath(k);
  }

  lemma {:induction false} IdentityRun(trace: seq<Phys>, places: map<nat, Place>, root: nat, n: nat, spare: nat)
    returns (after: map<nat, Place>, m: nat)
    requires InitRun(trace, root) && n < |trace| && n <= IDENTITY_PAGES && Mapped(trace[0], places, root, 0, spare)
    ensures Progress(trace[n], after, root, n, spare, m)
    decreases n
  {
    if n == 0 {
      after, m := places, 0;
    } else {
      var places1, m1 := IdentityRun(trace, places, root, n - 1, spare);
      InitStepIsMapSelf(trace[n - 1], trace[n], root, n - 1);
      var ph1;
      ph1, after, m := IdentityStep(trace[n - 1], places1, root, n - 1, spare, m1);
    }
  }

  lemma NewRootIsEmpty(ph: Phys)
    requires WellFormed(ph) && |ph.used| > 0
    ensures var (ph1, root) := NewRoot(ph);
            && Mapped(ph1, map[root := Place(Own(root), [])], root, 0, FreeCount(ph1.used))
            && FreeCount(ph1.used) == if FreeCount(ph.used) == 0 then 0 else FreeCount(ph.used) - 1
  {
    AllocCounts(ph.used);
    var (ph1, root) := NewRoot(ph);
    assert IsTable(ph1, root) && forall j :: EntryAt(ph1, root, j) == 0;
  }

  lemma AllMapped(ph: Phys, places: map<nat, Place>, root: nat, n: nat, spare: nat)
    requires n <= IDENTITY_PAGES && Mapped(ph, places, root, n, spare)
    ensures forall a: nat :: a < n * BLOCK_SIZE ==> Translate(ph, root, a) == Some(a)
  {
    forall a: nat | a < n * BLOCK_SIZE ensures Translate(ph, root, a) == Some(a) {
      assert SelfMapped(ph, root, a / BLOCK_SIZE);
      SelfMappedTranslates(ph, root, a);
    }
  }

  lemma NotAllMapped(ph: Phys, root: nat, m: nat)
    requires m < IDENTITY_PAGES && Lookup(ph, root, IdPath(m)) == None
    ensures Translate(ph, root, m * BLOCK_SIZE) == None
  {
    IdentityPath(m);
  }

  /** The pages of the trace come out mapped to themselves exactly when the
      PML4 and their tables could all be allocated. */
  lemma IdentityExactly(ph: Phys, trace: seq<Phys>, n: nat)
    requires WellFormed(ph) && |ph.used| > 0 && 0 < n <= IDENTITY_PAGES
    requires |trace| == n + 1 && trace[0] == NewRoot(ph).0 && InitRun(trace, NewRoot(ph).1)
    ensures (forall a: nat :: a < n * BLOCK_SIZE ==> Translate(trace[n], NewRoot(ph).1, a) == Some(a))
            <==> FreeCount(ph.used) >= 1 + TablesFor(n)
  {
    var (ph0, root) := NewRoot(ph);
    NewRootIsEmpty(ph);
    var after, m := IdentityRun(trace, map[root := Place(Own(root), [])], root, n, FreeCount(ph0.used));
    if TablesFor(n) <= FreeCount(ph0.used) {
      AllMapped(trace[n], after, root, n, FreeCount(ph0.used));
    } else {
      NotAllMapped(trace[n], root, m);
    }
  }

  lemma SelfMappedTranslates(ph: Phys, root: nat, a: nat)
    requires a < 0x2000_0000 && SelfMapped(ph, root, a / BLOCK_SIZE)
    ensures Translate(ph, root, a) == Some(a)
  {
    IdentityPath(a / BLOCK_SIZE);
    assert PageOf(a) == PageOf(a / BLOCK_SIZE * BLOCK_SIZE);
    PathNamesPage(a, a / BLOCK_SIZE * BLOCK_SIZE);
  }

  /** vmm_init maps every address below 512 MB to itself exactly when 259
      frames were free: the PML4, a PDPT, a PD and 256 page tables. */
  lemma InitMapsAllExactly(ph: Phys, trace: seq<Phys>)
    requires WellFormed(ph) && |ph.used| > 0
    requires |trace| == IDENTITY_PAGES + 1 && trace[0] == NewRoot(ph).0 && InitRun(trace, NewRoot(ph).1)
    ensures (forall a: nat :: a < 0x2000_0000 ==> Translate(trace[IDENTITY_PAGES], NewRoot(ph).1, a) == Some(a))
            <==> FreeCount(ph.used) >= 259
  {
    IdentityExactly(ph, trace, IDENTITY_PAGES);
  }

  /** After a successful vmm_init the kernel's PML4 alone is a consistent
      system, from which all later runs keep agreement and isolation. */
  lemma InitIsConsistent(ph: Phys, trace: seq<Phys>)
    requires WellFormed(ph) && |ph.used| > 0 && FreeCount(ph.used) >= 259
    requires |trace| == IDENTITY_PAGES + 1 && trace[0] == NewRoot(ph).0 && InitRun(trace, NewRoot(ph).1)
    ensures var root := NewRoot(ph).1; Consistent(System(trace[IDENTITY_PAGES], root, {root}))
  {
    var (ph0, root) := NewRoot(ph);
    NewRootIsEmpty(ph);
    var after, m := IdentityRun(trace, map[root := Place(Own(root), [])], root, IDENTITY_PAGES, FreeCount(ph0.used));
    assert IsPath([0]) && HasTable(IDENTITY_PAGES, [0]);
    assert Descend(trace[IDENTITY_PAGES], root, [0]).Some?;
    assert Sharing(System(trace[IDENTITY_PAGES], root, {root}), after);
  }
}
