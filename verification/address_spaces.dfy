/** The address spaces of the kernel (src/kernel/vmm.c:92-127): the identity
    map that vmm_init builds, and what separate PML4s share and hide. */
module AddressSpaces {
  import opened Options
  import opened Pmm
  import opened Paging
  import opened Mapping

  /** 512 MB in pages. */
  const IDENTITY_PAGES: nat := 131072

  /** A new PML4 in a freshly zeroed frame. Nothing checks that the allocation
      succeeded, so after a failure frame 0 is taken for the table. */
  function NewRoot(ph: Phys): (r: (Phys, nat))
    requires |ph.used| == |ph.frames| > 0
    ensures |r.0.used| == |r.0.frames| == |ph.used|
  {
    var (used, p) := Alloc(ph.used);
    var f := p / BLOCK_SIZE;
    (Phys(used, ph.frames[f := ZeroTable()]), f)
  }

  /** The states that vmm_init's loop passes through: page k is mapped to
      itself between the k-th and the next. */
  ghost predicate InitRun(trace: seq<Phys>, root: nat)
  {
    forall k :: 0 <= k < |trace| - 1 ==> InitStep(trace[k], trace[k + 1], root, k)
  }

  ghost predicate InitStep(ph: Phys, ph1: Phys, root: nat, k: nat)
  {
    |ph.used| == |ph.frames| && ph1 == MapPage(ph, root, k * BLOCK_SIZE, k * BLOCK_SIZE, TABLE_FLAGS)
  }

  /** vmm_create_user_pml4 */
  function CreateUser(ph: Phys, kernel: nat): (r: (Phys, Option<nat>))
    requires |ph.used| == |ph.frames|
    ensures |r.0.used| == |r.0.frames| == |ph.used|
  {
    var (used, p) := Alloc(ph.used);
    if p == 0 then (ph.(used := used), None)
    else
      var f := p / BLOCK_SIZE;
      (SetEntry(Phys(used, ph.frames[f := ZeroTable()]), f, 0, EntryAt(ph, kernel, 0)), Some(f))
  }

  // ---------------------------------------------------------------------
  // Runs over all address spaces
  // ---------------------------------------------------------------------

  /** Physical memory, the kernel's PML4 and the set of all PML4s. */
  datatype System = System(ph: Phys, kernel: nat, roots: set<nat>)

  /** One step of the running system: a new user PML4, a mapping in one of
      them, or a fresh frame taken and filled with data. */
  datatype Op =
    | NewUser
    | MapIn(root: nat, v: nat, paddr: nat, flags: nat)
    | TakePage(bytes: seq<nat>)

  predicate Legal(s: System, op: Op)
  {
    op.MapIn? ==> op.root in s.roots && FlagBits(op.flags)
  }

  function Step(s: System, op: Op): (r: System)
    requires |s.ph.used| == |s.ph.frames| && Legal(s, op)
    ensures |r.ph.used| == |r.ph.frames| && r.kernel == s.kernel && s.roots <= r.roots
  {
    match op
    case NewUser =>
      var (ph1, r) := CreateUser(s.ph, s.kernel);
      if r.None? then s.(ph := ph1) else s.(ph := ph1, roots := s.roots + {r.value})
    case MapIn(root, v, paddr, flags) => s.(ph := MapPage(s.ph, root, v, paddr, flags))
    case TakePage(bytes) =>
      var (used, p) := Alloc(s.ph.used);
      s.(ph := Phys(used, if p == 0 then s.ph.frames else s.ph.frames[p / BLOCK_SIZE := Page(bytes)]))
  }

  /** All PML4s hold the kernel's slot 0, and it is in use. */
  ghost predicate Sharing(s: System, places: map<nat, Place>)
  {
    && Separated(s.ph, places)
    && s.kernel in s.roots && Present(EntryAt(s.ph, s.kernel, 0))
    && forall r :: r in s.roots ==> IsRoot(places, r) && EntryAt(s.ph, r, 0) == EntryAt(s.ph, s.kernel, 0)
  }

  ghost function PlacesAfter(s: System, places: map<nat, Place>, op: Op): map<nat, Place>
    requires |s.ph.used| == |s.ph.frames| && Legal(s, op)
  {
    match op
    case NewUser =>
      var r := CreateUser(s.ph, s.kernel).1;
      if r.None? then places else places[r.value := Place(Own(r.value), [])]
    case MapIn(root, v, _, _) => MapPlaces(s.ph, places, root, PathOf(v))
    case TakePage(_) => places
  }

  /** A user PML4 is a fresh frame that holds slot 0 and nothing else. */
  lemma CreateUserEffect(ph: Phys, places: map<nat, Place>, kernel: nat)
    requires Separated(ph, places)
    ensures var (ph1, r) := CreateUser(ph, kernel);
            if r.None? then ph1 == ph
            else
              && r.value !in places && WellFormed(ph1)
              && (forall t :: t in places ==> ph1.frames[t] == ph.frames[t] && ph1.used[t])
              && IsTable(ph1, r.value) && ph1.used[r.value]
              && (forall j :: 0 <= j < ENTRIES ==>
                    EntryAt(ph1, r.value, j) == if j == 0 then EntryAt(ph, kernel, 0) else 0)
  {
    AllocCounts(ph.used);
  }

  lemma NewUserKeepsSharing(s: System, places: map<nat, Place>)
    requires Sharing(s, places)
    ensures Sharing(Step(s, NewUser), PlacesAfter(s, places, NewUser))
  {
    CreateUserEffect(s.ph, places, s.kernel);
    var (ph1, r) := CreateUser(s.ph, s.kernel);
    if r.Some? {
      var after := places[r.value := Place(Own(r.value), [])];
      forall u, j | u in after && 0 <= j < ENTRIES && |after[u].path| < 3 && Present(EntryAt(ph1, u, j))
        ensures Linked(ph1, after, u, j)
      {
        assert Linked(s.ph, places, if u == r.value then s.kernel else u, j);
      }
    }
  }

  lemma MapKeepsSharing(s: System, places: map<nat, Place>, op: Op)
    requires Sharing(s, places) && op.MapIn? && Legal(s, op)
    ensures Sharing(Step(s, op), PlacesAfter(s, places, op))
  {
    MapKeepsSeparation(s.ph, places, op.root, PathOf(op.v), op.paddr, op.flags);
    forall r | r in s.roots
      ensures EntryAt(Step(s, op).ph, r, 0) == EntryAt(s.ph, r, 0)
    {
      MapKeepsEntry(s.ph, places, op.root, PathOf(op.v), op.paddr, op.flags, r, 0);
    }
  }

  lemma TakePageKeepsSharing(s: System, places: map<nat, Place>, op: Op)
    requires Sharing(s, places) && op.TakePage?
    ensures Sharing(Step(s, op), places)
  {
    AllocCounts(s.ph.used);
    var s1 := Step(s, op);
    assert forall u :: u in places ==> s1.ph.frames[u] == s.ph.frames[u];
    forall u, j | u in places && 0 <= j < ENTRIES && |places[u].path| < 3 && Present(EntryAt(s1.ph, u, j))
      ensures Linked(s1.ph, places, u, j)
    {
      assert EntryAt(s1.ph, u, j) == EntryAt(s.ph, u, j) && Linked(s.ph, places, u, j);
    }
    forall r | r in s.roots ensures EntryAt(s1.ph, r, 0) == EntryAt(s.ph, r, 0) {
      assert IsRoot(places, r);
    }
  }

  predicate LegalRun(s: System, ops: seq<Op>)
    requires |s.ph.used| == |s.ph.frames|
    decreases |ops|
  {
    ops == [] || (Legal(s, ops[0]) && LegalRun(Step(s, ops[0]), ops[1..]))
  }

  function Run(s: System, ops: seq<Op>): (r: System)
    requires |s.ph.used| == |s.ph.frames| && LegalRun(s, ops)
    ensures |r.ph.used| == |r.ph.frames|
    decreases |ops|
  {
    if ops == [] then s else Run(Step(s, ops[0]), ops[1..])
  }

  ghost predicate Consistent(s: System)
  {
    exists places :: Sharing(s, places)
  }

  lemma StepKeepsSharing(s: System, op: Op)
    requires |s.ph.used| == |s.ph.frames| && Legal(s, op) && Consistent(s)
    ensures Consistent(Step(s, op))
  {
    var places :| Sharing(s, places);
    match op
    case NewUser => NewUserKeepsSharing(s, places);
    case MapIn(_, _, _, _) => MapKeepsSharing(s, places, op);
    case TakePage(_) => TakePageKeepsSharing(s, places, op);
  }

  /** In every reachable state all PML4s agree on every address whose top
      index is 0, that is on everything below 2^39. */
  lemma {:induction false} SpacesAgreeBelow512GB(s: System, ops: seq<Op>, r1: nat, r2: nat, v: nat)
    requires |s.ph.used| == |s.ph.frames| && Consistent(s) && LegalRun(s, ops)
    requires r1 in Run(s, ops).roots && r2 in Run(s, ops).roots && v < 0x80_0000_0000
    ensures Translate(Run(s, ops).ph, r1, v) == Translate(Run(s, ops).ph, r2, v)
    decreases |ops|
  {
    if ops == [] {
      var places :| Sharing(s, places);
      assert PathOf(v)[0] == 0 && EntryAt(s.ph, r1, 0) == EntryAt(s.ph, r2, 0);
    } else {
      StepKeepsSharing(s, ops[0]);
      SpacesAgreeBelow512GB(Step(s, ops[0]), ops[1..], r1, r2, v);
    }
  }

  lemma {:induction false} RunIsConsistent(s: System, ops: seq<Op>)
    requires |s.ph.used| == |s.ph.frames| && Consistent(s) && LegalRun(s, ops)
    ensures Consistent(Run(s, ops))
    decreases |ops|
  {
    if ops != [] {
      StepKeepsSharing(s, ops[0]);
      RunIsConsistent(Step(s, ops[0]), ops[1..]);
    }
  }

  /** How far isolation goes: in any reachable state a mapping made in one
      space shows in another exactly when its address lies in slot 0. */
  lemma IsolationExtent(s: System, ops: seq<Op>, op: Op, r: nat)
    requires |s.ph.used| == |s.ph.frames| && Consistent(s) && LegalRun(s, ops)
    requires var s1 := Run(s, ops);
             op.MapIn? && Legal(s1, op) && r in s1.roots && r != op.root && CanMap(s1.ph, op.root, PathOf(op.v))
    ensures var s1 := Run(s, ops);
            Lookup(Step(s1, op).ph, r, PathOf(op.v)) ==
            if PathOf(op.v)[0] == 0 then Leaf(MakeEntry(op.paddr, op.flags)) else Lookup(s1.ph, r, PathOf(op.v))
    ensures var s1 := Run(s, ops);
            forall w: nat :: PathOf(w)[0] != 0 ==> Lookup(Step(s1, op).ph, r, PathOf(w)) == Lookup(s1.ph, r, PathOf(w))
  {
    RunIsConsistent(s, ops);
    var s1 := Run(s, ops);
    IsolationOfStep(s1, op, r, op.v);
    forall w: nat | PathOf(w)[0] != 0
      ensures Lookup(Step(s1, op).ph, r, PathOf(w)) == Lookup(s1.ph, r, PathOf(w))
    {
      IsolationOfStep(s1, op, r, w);
    }
  }

  lemma IsolationOfStep(s: System, op: Op, r: nat, w: nat)
    requires |s.ph.used| == |s.ph.frames| && Consistent(s)
    requires op.MapIn? && Legal(s, op) && r in s.roots && r != op.root && CanMap(s.ph, op.root, PathOf(op.v))
    ensures PathOf(w)[0] != 0 ==> Lookup(Step(s, op).ph, r, PathOf(w)) == Lookup(s.ph, r, PathOf(w))
    ensures PathOf(op.v)[0] == 0 ==> Lookup(Step(s, op).ph, r, PathOf(op.v)) == Leaf(MakeEntry(op.paddr, op.flags))
  {
    var places :| Sharing(s, places);
    if PathOf(w)[0] != 0 {
      MapElsewhere(s.ph, places, op.root, PathOf(op.v), op.paddr, op.flags, r, PathOf(w));
    }
    if PathOf(op.v)[0] == 0 {
      MapTarget(s.ph, places, op.root, PathOf(op.v), op.paddr, op.flags);
      MapKeepsSharing(s, places, op);
      assert EntryAt(Step(s, op).ph, r, 0) == EntryAt(Step(s, op).ph, op.root, 0);
    }
  }

  /** The address user programs are placed at, 256 MB, lies in the shared
      slot: contrary to docs/21_process_isolation.md, what one process maps
      there every process sees. */
  lemma UserAreaIsShared(s: System, op: Op, r: nat)
    requires |s.ph.used| == |s.ph.frames| && Consistent(s)
    requires op.MapIn? && op.v == 0x1000_0000 && Legal(s, op) && Present(op.flags)
    requires r in s.roots && CanMap(s.ph, op.root, PathOf(op.v))
    ensures Translate(Step(s, op).ph, r, 0x1000_0000) == Some(op.paddr / BLOCK_SIZE % MAX_FRAMES * BLOCK_SIZE)
  {
    assert PathOf(op.v)[0] == 0;
    if r == op.root {
      var places :| Sharing(s, places);
      MapTarget(s.ph, places, op.root, PathOf(op.v), op.paddr, op.flags);
    } else {
      IsolationOfStep(s, op, r, op.v);
    }
  }

  /** Below 2^39 a page that the kernel has mapped can be mapped again in any
      space without a new table. */
  lemma SharedPageCanBeMapped(s: System, places: map<nat, Place>, root: nat, p: seq<nat>)
    requires Sharing(s, places) && root in s.roots && FullPath(p) && p[0] == 0
    requires Lookup(s.ph, s.kernel, p).Some?
    ensures CanMap(s.ph, root, p)
  {
    assert EntryAt(s.ph, root, 0) == EntryAt(s.ph, s.kernel, 0);
    assert Lookup(s.ph, root, p) == Lookup(s.ph, s.kernel, p);
    if !CanMap(s.ph, root, p) {
      MapFails(s.ph, places, root, p, 0, 0, root, p);
    }
  }

  /** The leaf entry that the kernel then has for the page. */
  lemma KernelSeesMapping(s: System, places: map<nat, Place>, op: Op)
    requires Sharing(s, places) && op.MapIn? && Legal(s, op)
    requires PathOf(op.v)[0] == 0 && CanMap(s.ph, op.root, PathOf(op.v))
    ensures Lookup(Step(s, op).ph, s.kernel, PathOf(op.v)) == Leaf(MakeEntry(op.paddr, op.flags))
  {
    MapTarget(s.ph, places, op.root, PathOf(op.v), op.paddr, op.flags);
    MapKeepsSharing(s, places, op);
    assert EntryAt(Step(s, op).ph, s.kernel, 0) == EntryAt(Step(s, op).ph, op.root, 0);
  }

  /** The kernel reaches physical address a at a: before the mapping it does,
      afterwards it still does exactly if the mapping was for another page, or
      for the same frame again. User programs are mapped inside the identity
      range, so loading one there takes frames out of the kernel's sight. */
  lemma IdentitySurvivesExactly(s: System, op: Op, a: nat)
    requires |s.ph.used| == |s.ph.frames| && Consistent(s) && op.MapIn? && Legal(s, op)
    requires a < 0x80_0000_0000 && Translate(s.ph, s.kernel, a) == Some(a)
    ensures Translate(Step(s, op).ph, s.kernel, a) == Some(a) <==>
            PageOf(op.v) != PageOf(a) || (Present(op.flags) && op.paddr / BLOCK_SIZE % MAX_FRAMES == a / BLOCK_SIZE)
  {
    var places :| Sharing(s, places);
    PathNamesPage(op.v, a);
    TopIsZero(a);
    if PageOf(op.v) == PageOf(a) {
      SharedPageCanBeMapped(s, places, op.root, PathOf(a));
      KernelSeesMapping(s, places, op);
    } else {
      MapElsewhere(s.ph, places, op.root, PathOf(op.v), op.paddr, op.flags, s.kernel, PathOf(a));
    }
  }

  lemma TopIsZero(a: nat)
    requires a < 0x80_0000_0000
    ensures PathOf(a)[0] == 0
  {
  }
}
