/** A load under way: what it has placed, the states it has passed through,
    and whether the file it reads is still undisturbed in the load area. */
module LoadProgress {
  import opened Options
  import opened Pmm
  import opened Paging
  import opened Mapping
  import opened AddressSpaces
  import opened Loading
  import opened LoadArea
  import opened VirtualMemory

  /** The pages placed, the states before and after each of them, and where the
      tables were in each state. */
  datatype Progress = Progress(done: seq<PageLoad>, trace: seq<Phys>, maps: seq<map<nat, Place>>)

  ghost function Places(pr: Progress): map<nat, Place>
    requires |pr.maps| == |pr.done| + 1
  {
    pr.maps[|pr.done|]
  }

  ghost predicate MapsStep(pr: Progress, root: nat, k: nat)
    requires k < |pr.done| && |pr.trace| == |pr.maps| == |pr.done| + 1
  {
    && |pr.trace[k].used| == |pr.trace[k].frames| && FullPath(pr.done[k].path)
    && pr.maps[k + 1] == LoadPlaces(pr.trace[k], pr.maps[k], root, pr.done[k])
  }

  ghost predicate Tracks(pr: Progress, root: nat, ph: Phys)
  {
    && |pr.trace| == |pr.maps| == |pr.done| + 1
    && Loads(pr.trace, root, pr.done) && pr.trace[|pr.done|] == ph
    && (forall k {:trigger MapsStep(pr, root, k)} :: 0 <= k < |pr.done| ==> MapsStep(pr, root, k))
    && Separated(ph, Places(pr)) && IsRoot(Places(pr), root)
  }

  ghost function Begin(ph: Phys, places: map<nat, Place>): Progress
  {
    Progress([], [ph], [places])
  }

  ghost function Extended(pr: Progress, root: nat, page: PageLoad, ph: Phys, ph1: Phys): Progress
    requires |pr.maps| == |pr.done| + 1 && |ph.used| == |ph.frames| && FullPath(page.path)
  {
    Progress(pr.done + [page], pr.trace + [ph1], pr.maps + [LoadPlaces(ph, Places(pr), root, page)])
  }

  lemma ExtendTracks(pr: Progress, root: nat, page: PageLoad, ph: Phys, ph1: Phys)
    requires Tracks(pr, root, ph) && LoadStep(ph, ph1, root, page)
    ensures Tracks(Extended(pr, root, page, ph, ph1), root, ph1)
  {
    var pr1 := Extended(pr, root, page, ph, ph1);
    LoadGrows(pr.trace, root, pr.done, page, ph1);
    StepKeepsSeparation(ph, Places(pr), ph1, root, page);
    forall k | 0 <= k < |pr1.done| ensures MapsStep(pr1, root, k) {
      if k < |pr.done| {
        assert MapsStep(pr, root, k);
      }
    }
  }

  /** pr1 is pr with n more pages placed. */
  ghost predicate Continues(pr: Progress, pr1: Progress, n: nat)
  {
    |pr.trace| > 0 && |pr1.trace| > 0 && |pr1.done| == |pr.done| + n && pr1.trace[0] == pr.trace[0] && |pr.maps| > 0
    && |pr1.maps| > 0 && pr1.maps[0] == pr.maps[0]
  }

  // ---------------------------------------------------------------------
  // Undisturbed loads
  // ---------------------------------------------------------------------

  /** The file to be loaded and the pages it asks for. */
  datatype Job = Job(file: seq<nat>, plan: seq<PageLoad>)

  /** So far the plan was followed, the file is in the load area, and what is
      left to do will leave it there. */
  ghost predicate Calm(pr: Progress, root: nat, ph: Phys, job: Job)
  {
    && FullPaths(job.plan) && |pr.maps| == |pr.done| + 1 && pr.done <= job.plan
    && Buffered(ph, job.file) && AreaClear(Places(pr), |job.file|)
    && Shielded(ph, root, job.plan[|pr.done|..], |job.file|)
  }

  lemma NextFits(pr: Progress, root: nat, ph: Phys, job: Job)
    requires Calm(pr, root, ph, job) && |pr.done| < |job.plan|
    ensures StepFits(ph, root, job.plan[|pr.done|].path, |job.file|)
  {
    var rest := job.plan[|pr.done|..];
    assert rest[0] == job.plan[|pr.done|];
    ShieldedFits(ph, root, rest, |job.file|);
  }

  /** While the next page is being placed, whatever has been written to its
      frame yet, the file stays where it is. */
  lemma StaysBuffered(pr: Progress, root: nat, ph: Phys, ph1: Phys, page: PageLoad, job: Job)
    requires Tracks(pr, root, ph) && Calm(pr, root, ph, job) && |pr.done| < |job.plan|
    requires LoadStep(ph, ph1, root, page) && page.path == job.plan[|pr.done|].path
    ensures Buffered(ph1, job.file)
  {
    NextFits(pr, root, ph, job);
    StepKeepsArea(ph, Places(pr), ph1, root, page, |job.file|);
    KeptIsBuffered(ph, ph1, job.file);
  }

  lemma ExtendCalm(pr: Progress, root: nat, ph: Phys, ph1: Phys, job: Job)
    requires Tracks(pr, root, ph) && Calm(pr, root, ph, job) && |pr.done| < |job.plan|
    requires LoadStep(ph, ph1, root, job.plan[|pr.done|])
    ensures Calm(Extended(pr, root, job.plan[|pr.done|], ph, ph1), root, ph1, job)
  {
    var page, rest := job.plan[|pr.done|], job.plan[|pr.done|..];
    assert rest[0] == page && rest[1..] == job.plan[|pr.done| + 1..];
    NextFits(pr, root, ph, job);
    StepKeepsArea(ph, Places(pr), ph1, root, page, |job.file|);
    KeptIsBuffered(ph, ph1, job.file);
    StepShields(ph, Places(pr), ph1, root, rest, |job.file|);
  }

  // ---------------------------------------------------------------------
  // Sharing
  // ---------------------------------------------------------------------

  /** Placing a page in one address space keeps what all of them share. */
  lemma LoadStepKeepsSharing(s: System, places: map<nat, Place>, root: nat, ph1: Phys, page: PageLoad)
    requires Sharing(s, places) && root in s.roots && LoadStep(s.ph, ph1, root, page)
    ensures Sharing(s.(ph := ph1), LoadPlaces(s.ph, places, root, page))
  {
    StepKeepsSeparation(s.ph, places, ph1, root, page);
    forall r | r in s.roots
      ensures IsRoot(LoadPlaces(s.ph, places, root, page), r) && EntryAt(ph1, r, 0) == EntryAt(s.ph, r, 0)
    {
      StepKeepsSlot0(s.ph, places, root, ph1, page, r);
    }
  }

  lemma StepKeepsSlot0(ph: Phys, places: map<nat, Place>, root: nat, ph1: Phys, page: PageLoad, r: nat)
    requires Separated(ph, places) && IsRoot(places, root) && IsRoot(places, r) && LoadStep(ph, ph1, root, page)
    requires Present(EntryAt(ph, r, 0))
    ensures IsRoot(LoadPlaces(ph, places, root, page), r) && EntryAt(ph1, r, 0) == EntryAt(ph, r, 0)
  {
    TakeEffect(ph, places);
    StepSetting(ph, places, ph1, root, page);
    var (taken, p) := Take(ph);
    MapKeepsSeparation(taken, places, root, page.path, p, TABLE_FLAGS);
    MapKeepsEntry(taken, places, root, page.path, p, TABLE_FLAGS, r, 0);
  }

  /** So does a whole load. */
  lemma {:induction false} LoadKeepsSharing(pr: Progress, root: nat, ph: Phys, kernel: nat, roots: set<nat>, k: nat)
    requires Tracks(pr, root, ph) && k <= |pr.done| && root in roots
    requires Sharing(System(pr.trace[0], kernel, roots), pr.maps[0])
    ensures Sharing(System(pr.trace[k], kernel, roots), pr.maps[k])
  {
    if k > 0 {
      LoadKeepsSharing(pr, root, ph, kernel, roots, k - 1);
      assert MapsStep(pr, root, k - 1) && LoadStep(pr.trace[k - 1], pr.trace[k], root, pr.done[k - 1]);
      LoadStepKeepsSharing(System(pr.trace[k - 1], kernel, roots), pr.maps[k - 1], root, pr.trace[k], pr.done[k - 1]);
    }
  }

  // ---------------------------------------------------------------------
  // The machine
  // ---------------------------------------------------------------------

  /** The machine is where the load says it is. */
  ghost predicate Follows(vmm: Vmm, root: nat, pr: Progress)
    reads vmm, vmm.pmm, vmm.pmm.bitmap, vmm.frames
  {
    vmm.Valid() && Tracks(pr, root, vmm.View())
  }

  /** The allocator has nothing left. */
  ghost predicate Exhausted(vmm: Vmm)
    requires vmm.Valid()
    reads vmm, vmm.pmm, vmm.pmm.bitmap, vmm.frames
  {
    Take(vmm.View()).1 == 0
  }
}
