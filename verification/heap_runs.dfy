/** Whole runs of the linked-list heap on top of the frame allocator
    (src/kernel/kheap.c, src/kernel/pmm.c): what one call asks for, the call
    before it has left behind. */
module HeapRuns {
  import opened Options
  import opened KHeap
  import opened KHeapList
  import Pmm

  /** The heap and the flags of the frame allocator. */
  datatype State = State(heap: Heap, used: seq<bool>)

  /** A kmalloc, a kfree, or somebody else taking or returning a frame. */
  datatype Request = Get(n: nat) | Give(p: nat) | TakeFrame | ReturnFrame(p: nat)

  /** All frames of [lo, hi) are handed out. */
  ghost predicate FramesUsed(lo: nat, hi: nat, used: seq<bool>)
  {
    && lo % PAGE == 0 && hi % PAGE == 0 && hi <= PAGE * |used|
    && forall f :: lo / PAGE <= f < hi / PAGE ==> used[f]
  }

  ghost predicate Supported(s: State)
  {
    Sound(s.heap) && FramesUsed(s.heap.lo, s.heap.hi, s.used)
  }

  /** kfree is given live pointers, each page the heap grows by continues it,
      and nobody returns a frame of the heap. */
  predicate Allowed(s: State, r: Request)
  {
    match r
    case Get(n) => Legal(s.heap, MallocOp(n, Pmm.Alloc(s.used).1))
    case Give(p) => Legal(s.heap, FreeOp(p))
    case TakeFrame => true
    case ReturnFrame(p) => p / PAGE < |s.used| && !(s.heap.lo / PAGE <= p / PAGE < s.heap.hi / PAGE)
  }

  function Next(s: State, r: Request): State
    requires Allowed(s, r)
  {
    match r
    case Get(n) =>
      var (used, page) := Pmm.Alloc(s.used);
      State(Step(s.heap, MallocOp(n, page)), if n == 0 || Carve(s.heap.blocks, n).Some? then s.used else used)
    case Give(p) => s.(heap := Step(s.heap, FreeOp(p)))
    case TakeFrame => s.(used := Pmm.Alloc(s.used).0)
    case ReturnFrame(p) => s.(used := Pmm.Release(s.used, p))
  }

  predicate AllowedRun(s: State, rs: seq<Request>)
    decreases |rs|
  {
    rs == [] || (Allowed(s, rs[0]) && AllowedRun(Next(s, rs[0]), rs[1..]))
  }

  function Run(s: State, rs: seq<Request>): State
    requires AllowedRun(s, rs)
    decreases |rs|
  {
    if rs == [] then s else Run(Next(s, rs[0]), rs[1..])
  }

  // ---------------------------------------------------------------------
  // What the list methods ask for
  // ---------------------------------------------------------------------

  /** Everything that kmalloc asks of the list holds in a heap that is tiled
      and whose frames are handed out. */
  lemma SupportedIsReady(s: State)
    requires Supported(s)
    ensures Distinct(s.heap.blocks) && Apart(s.heap.blocks) && HeadersOwned(s.heap.blocks, s.used)
  {
    var bs, lo, hi := s.heap.blocks, s.heap.lo, s.heap.hi;
    TilesAreApart(bs, lo, hi);
    forall i | 0 <= i < |bs| ensures bs[i].addr / PAGE < |s.used| && s.used[bs[i].addr / PAGE] {
      HeaderInFrame(bs[i].addr, lo, hi, s.used);
    }
  }

  lemma HeaderInFrame(a: nat, lo: nat, hi: nat, used: seq<bool>)
    requires lo <= a < hi && FramesUsed(lo, hi, used)
    ensures a / PAGE < |used| && used[a / PAGE]
  {
    assert lo / PAGE <= a / PAGE < hi / PAGE;
  }

  /** A page that continues the heap is handed out with the call. */
  lemma GrowthIsUsed(lo: nat, hi: nat, used: seq<bool>)
    requires lo <= hi && FramesUsed(lo, hi, used) && Pmm.Alloc(used).1 == hi != 0
    ensures FramesUsed(lo, hi + PAGE, Pmm.Alloc(used).0)
  {
    var b := Pmm.FirstFree(used);
    assert hi == b * PAGE && (hi + PAGE) / PAGE == b + 1;
  }

  lemma NextIsSupported(s: State, r: Request)
    requires Supported(s) && Allowed(s, r)
    ensures Supported(Next(s, r)) && Next(s, r).heap.lo == s.heap.lo
  {
    TilesAddUp(s.heap.blocks, s.heap.lo, s.heap.hi);
    match r
    case Get(n) =>
      var op := MallocOp(n, Pmm.Alloc(s.used).1);
      MallocKeepsSound(s.heap, op);
      if Grows(s.heap, op) {
        GrowthIsUsed(s.heap.lo, s.heap.hi, s.used);
      }
    case Give(p) => FreeKeepsSound(s.heap, FreeOp(p));
    case TakeFrame =>
    case ReturnFrame(p) =>
  }

  /** Over every run, with other users of the frame allocator in between, the
      heap is sound, its frames are its own, and the list is ready for the
      next call. */
  lemma {:induction false} RunIsSupported(s: State, rs: seq<Request>)
    requires Supported(s) && AllowedRun(s, rs)
    ensures Supported(Run(s, rs)) && Run(s, rs).heap.lo == s.heap.lo
    decreases |rs|
  {
    if rs != [] {
      NextIsSupported(s, rs[0]);
      RunIsSupported(Next(s, rs[0]), rs[1..]);
    }
  }

  /** The heap that init_kheap sets up on a frame of its own. */
  lemma InitIsSupported(used: seq<bool>)
    requires Pmm.Alloc(used).1 != 0
    ensures var (used1, page) := Pmm.Alloc(used);
            Supported(State(Heap([NewBlock(page)], page, page + PAGE, map[]), used1))
  {
    var (used1, page) := Pmm.Alloc(used);
    InitialHeapIsSound(page);
    assert page == Pmm.FirstFree(used) * PAGE && (page + PAGE) / PAGE == page / PAGE + 1;
  }

  // ---------------------------------------------------------------------
  // The code
  // ---------------------------------------------------------------------

  ghost predicate Backs(list: HeapList, s: State)
    reads list, list.pmm, list.pmm.bitmap
  {
    list.Valid() && list.pmm.Valid() && list.blocks == s.heap.blocks && list.pmm.Used() == s.used
  }

  lemma {:induction false} UsedHasBlock(bs: seq<Block>, p: nat) returns (k: nat)
    requires p in UsedBlocks(bs)
    ensures k < |bs| && bs[k].Payload() == p
  {
    if p == bs[0].Payload() {
      k := 0;
    } else {
      k := UsedHasBlock(bs[1..], p);
      k := k + 1;
    }
  }

  /** One request, served by the code. */
  method Serve(list: HeapList, r: Request, ghost s: State) returns (p: nat)
    requires Backs(list, s) && Supported(s) && Allowed(s, r)
    modifies list, list.pmm.bitmap
    ensures Backs(list, Next(s, r)) && Supported(Next(s, r))
    ensures r.Get? ==> p == KHeap.Malloc(s.heap.blocks, r.n, Pmm.Alloc(s.used).1).1
  {
    NextIsSupported(s, r);
    SupportedIsReady(s);
    p := 0;
    match r {
      case Get(n) =>
        p := list.Malloc(n);
      case Give(q) =>
        if q != 0 {
          ghost var k := UsedHasBlock(s.heap.blocks, q);
        }
        list.Free(q);
      case TakeFrame =>
        p := list.pmm.AllocBlock();
      case ReturnFrame(q) =>
        list.pmm.FreeBlock(q);
    }
  }

  /** A whole run, served by the code. */
  method ServeAll(list: HeapList, rs: seq<Request>, ghost s: State)
    requires Backs(list, s) && Supported(s) && AllowedRun(s, rs)
    modifies list, list.pmm.bitmap
    ensures Backs(list, Run(s, rs)) && Supported(Run(s, rs))
  {
    ghost var t := s;
    var i := 0;
    while i < |rs|
      invariant 0 <= i <= |rs| && Backs(list, t) && Supported(t)
      invariant AllowedRun(t, rs[i..]) && Run(t, rs[i..]) == Run(s, rs)
    {
      assert rs[i..][0] == rs[i] && rs[i..][1..] == rs[i + 1..];
      var p := Serve(list, rs[i], t);
      t := Next(t, rs[i]);
      i := i + 1;
    }
  }
}
