/** The kernel heap of src/kernel/kheap.c on its list of blocks: first fit
    with splitting, growth by one page, and merging of free neighbours.  The
    methods that walk and rewrite the linked headers are in kheap_list.dfy. */
module KHeap {
  import opened Options

  /** sizeof(block_header_t) */
  const HEADER: nat := 24
  const PAGE: nat := 4096

  /** A header at addr, followed by size bytes of payload. */
  datatype Block = Block(addr: nat, size: nat, free: bool) {
    function End(): nat { addr + HEADER + size }
    function Payload(): nat { addr + HEADER }
  }

  // ---------------------------------------------------------------------
  // The operations on the block list
  // ---------------------------------------------------------------------

  /** A free block given out for n bytes; the rest becomes a free block of
      its own when more than a header and 8 bytes would be left. */
  function Split(b: Block, n: nat): (r: seq<Block>)
  {
    if b.size > n + HEADER + 8
    then [Block(b.addr, n, false), Block(b.addr + HEADER + n, b.size - n - HEADER, true)]
    else [b.(free := false)]
  }

  predicate Fits(b: Block, n: nat) { b.free && b.size >= n }

  /** First fit: the new list and the payload address. */
  function Carve(bs: seq<Block>, n: nat): (r: Option<(seq<Block>, nat)>)
  {
    if bs == [] then None
    else if Fits(bs[0], n) then Some((Split(bs[0], n) + bs[1..], bs[0].Payload()))
    else
      match Carve(bs[1..], n)
      case None => None
      case Some(r) => Some(([bs[0]] + r.0, r.1))
  }

  function NewBlock(page: nat): Block { Block(page, PAGE - HEADER, true) }

  /** A page added behind the last block, joined to it if it is free and ends
      where the page begins. */
  function Expand(bs: seq<Block>, page: nat): (r: seq<Block>)
  {
    if bs == [] then [NewBlock(page)]
    else
      var last := bs[|bs| - 1];
      if last.free && last.End() == page
      then bs[..|bs| - 1] + [last.(size := last.size + HEADER + NewBlock(page).size)]
      else bs + [NewBlock(page)]
  }

  /** kmalloc, given the page the frame allocator would supply (0 for none).
      After growing the heap it still returns 0. */
  function Malloc(bs: seq<Block>, n: nat, page: nat): (r: (seq<Block>, nat))
  {
    if n == 0 then (bs, 0)
    else
      match Carve(bs, n)
      case Some(r) => r
      case None => if page == 0 then (bs, 0) else (Expand(bs, page), 0)
  }

  function Mark(bs: seq<Block>, addr: nat): (r: seq<Block>)
    ensures |r| == |bs|
  {
    if bs == [] then []
    else if bs[0].addr == addr then [bs[0].(free := true)] + bs[1..]
    else [bs[0]] + Mark(bs[1..], addr)
  }

  function Join(b: Block, c: Block): Block { b.(size := b.size + HEADER + c.size) }

  /** The merge loop of kfree: free list neighbours become one block, wherever
      the second one lies. */
  function Coalesce(bs: seq<Block>): (r: seq<Block>)
    decreases |bs|
  {
    if |bs| < 2 then bs
    else if bs[0].free && bs[1].free then Coalesce([Join(bs[0], bs[1])] + bs[2..])
    else [bs[0]] + Coalesce(bs[1..])
  }

  /** kfree */
  function Free(bs: seq<Block>, p: nat): seq<Block>
    requires p == 0 || p >= HEADER
  {
    if p == 0 then bs else Coalesce(Mark(bs, p - HEADER))
  }

  // ---------------------------------------------------------------------
  // Tiling
  // ---------------------------------------------------------------------

  /** The blocks fill [lo, hi) without gaps or overlaps. */
  predicate Tiles(bs: seq<Block>, lo: nat, hi: nat)
  {
    if bs == [] then lo == hi else bs[0].addr == lo && Tiles(bs[1..], bs[0].End(), hi)
  }

  function TotalSize(bs: seq<Block>): nat
  {
    if bs == [] then 0 else HEADER + bs[0].size + TotalSize(bs[1..])
  }

  lemma {:induction false} TilesAddUp(bs: seq<Block>, lo: nat, hi: nat)
    requires Tiles(bs, lo, hi)
    ensures lo + TotalSize(bs) == hi
  {
    if bs != [] {
      TilesAddUp(bs[1..], bs[0].End(), hi);
    }
  }

  lemma {:induction false} TilesConcat(a: seq<Block>, b: seq<Block>, lo: nat, mid: nat, hi: nat)
    requires Tiles(a, lo, mid) && Tiles(b, mid, hi)
    ensures Tiles(a + b, lo, hi)
  {
    if a == [] {
      assert a + b == b;
    } else {
      assert (a + b)[1..] == a[1..] + b;
      TilesConcat(a[1..], b, a[0].End(), mid, hi);
    }
  }

  lemma {:induction false} TilesSplit(a: seq<Block>, b: seq<Block>, lo: nat, hi: nat) returns (mid: nat)
    requires Tiles(a + b, lo, hi)
    ensures Tiles(a, lo, mid) && Tiles(b, mid, hi)
  {
    if a == [] {
      assert a + b == b;
      mid := lo;
    } else {
      assert (a + b)[1..] == a[1..] + b;
      mid := TilesSplit(a[1..], b, a[0].End(), hi);
    }
  }

  lemma {:induction false} CarveTiles(bs: seq<Block>, n: nat, lo: nat, hi: nat)
    requires Tiles(bs, lo, hi) && Carve(bs, n).Some?
    ensures Tiles(Carve(bs, n).value.0, lo, hi)
  {
    if Fits(bs[0], n) {
      assert Tiles(Split(bs[0], n), lo, bs[0].End());
      TilesConcat(Split(bs[0], n), bs[1..], lo, bs[0].End(), hi);
    } else {
      CarveTiles(bs[1..], n, bs[0].End(), hi);
      assert ([bs[0]] + Carve(bs[1..], n).value.0)[1..] == Carve(bs[1..], n).value.0;
    }
  }

  lemma {:induction false} MarkTiles(bs: seq<Block>, addr: nat, lo: nat, hi: nat)
    requires Tiles(bs, lo, hi)
    ensures Tiles(Mark(bs, addr), lo, hi)
  {
    if bs != [] && bs[0].addr != addr {
      MarkTiles(bs[1..], addr, bs[0].End(), hi);
    }
  }

  lemma {:induction false} CoalesceTiles(bs: seq<Block>, lo: nat, hi: nat)
    requires Tiles(bs, lo, hi)
    ensures Tiles(Coalesce(bs), lo, hi)
    decreases |bs|
  {
    if |bs| >= 2 {
      if bs[0].free && bs[1].free {
        var joined := [Join(bs[0], bs[1])] + bs[2..];
        assert bs[1..][1..] == bs[2..] && joined[1..] == bs[2..];
        CoalesceTiles(joined, lo, hi);
      } else {
        CoalesceTiles(bs[1..], bs[0].End(), hi);
        assert ([bs[0]] + Coalesce(bs[1..]))[1..] == Coalesce(bs[1..]);
      }
    }
  }

  /** Growing keeps the tiling exactly when the page continues the heap. */
  lemma ExpandTilesExactly(bs: seq<Block>, lo: nat, hi: nat, page: nat)
    requires bs != [] && Tiles(bs, lo, hi)
    ensures Tiles(Expand(bs, page), lo, hi + PAGE) <==> page == hi
  {
    var front, last := bs[..|bs| - 1], bs[|bs| - 1];
    assert bs == front + [last];
    var mid := TilesSplit(front, [last], lo, hi);
    assert Tiles([], last.End(), hi) && last.End() == hi;
    if page == hi {
      if last.free {
        var grown := last.(size := last.size + HEADER + NewBlock(page).size);
        assert [grown][1..] == [];
        TilesConcat(front, [grown], lo, mid, hi + PAGE);
      } else {
        assert [NewBlock(page)][1..] == [];
        TilesConcat(bs, [NewBlock(page)], lo, hi, hi + PAGE);
      }
    } else if Tiles(Expand(bs, page), lo, hi + PAGE) {
      assert Expand(bs, page) == bs + [NewBlock(page)];
      var m := TilesSplit(bs, [NewBlock(page)], lo, hi + PAGE);
      TilesEndUnique(bs, lo, hi, m);
    }
  }

  lemma {:induction false} TilesEndUnique(bs: seq<Block>, lo: nat, hi: nat, hi': nat)
    requires Tiles(bs, lo, hi) && Tiles(bs, lo, hi')
    ensures hi == hi'
  {
    TilesAddUp(bs, lo, hi);
    TilesAddUp(bs, lo, hi');
  }

  // ---------------------------------------------------------------------
  // Live payloads over whole runs
  // ---------------------------------------------------------------------

  /** Payload address and size of every block in use. */
  function UsedBlocks(bs: seq<Block>): map<nat, nat>
  {
    if bs == [] then map[]
    else if bs[0].free then UsedBlocks(bs[1..])
    else UsedBlocks(bs[1..])[bs[0].Payload() := bs[0].size]
  }

  lemma {:induction false} UsedInRange(bs: seq<Block>, lo: nat, hi: nat)
    requires Tiles(bs, lo, hi)
    ensures lo <= hi
    ensures forall p :: p in UsedBlocks(bs) ==> lo + HEADER <= p && p + UsedBlocks(bs)[p] <= hi
  {
    if bs != [] {
      UsedInRange(bs[1..], bs[0].End(), hi);
    }
  }

  /** Payloads in use never overlap: a header lies between any two. */
  lemma {:induction false} PayloadsApart(bs: seq<Block>, lo: nat, hi: nat, p: nat, q: nat)
    requires Tiles(bs, lo, hi) && p in UsedBlocks(bs) && q in UsedBlocks(bs) && p < q
    ensures p + UsedBlocks(bs)[p] + HEADER <= q
  {
    UsedInRange(bs[1..], bs[0].End(), hi);
    if bs[0].free || p != bs[0].Payload() {
      PayloadsApart(bs[1..], bs[0].End(), hi, p, q);
    }
  }

  lemma {:induction false} UsedCoalesce(bs: seq<Block>)
    ensures UsedBlocks(Coalesce(bs)) == UsedBlocks(bs)
    decreases |bs|
  {
    if |bs| >= 2 {
      if bs[0].free && bs[1].free {
        var joined := [Join(bs[0], bs[1])] + bs[2..];
        assert joined[1..] == bs[2..] && bs[1..][1..] == bs[2..];
        UsedCoalesce(joined);
      } else {
        UsedCoalesce(bs[1..]);
        assert ([bs[0]] + Coalesce(bs[1..]))[1..] == Coalesce(bs[1..]);
      }
    }
  }

  lemma {:induction false} UsedMark(bs: seq<Block>, addr: nat, lo: nat, hi: nat)
    requires Tiles(bs, lo, hi)
    ensures UsedBlocks(Mark(bs, addr)) == UsedBlocks(bs) - {addr + HEADER}
  {
    if bs != [] {
      UsedInRange(bs[1..], bs[0].End(), hi);
      if bs[0].addr == addr {
        assert Mark(bs, addr)[1..] == bs[1..];
        assert UsedBlocks(bs[1..]) - {addr + HEADER} == UsedBlocks(bs[1..]);
      } else {
        UsedMark(bs[1..], addr, bs[0].End(), hi);
        assert Mark(bs, addr)[1..] == Mark(bs[1..], addr);
      }
    }
  }

  /** First fit hands out one block that was not in use, large enough. */
  lemma {:induction false} UsedCarve(bs: seq<Block>, n: nat, lo: nat, hi: nat) returns (size: nat)
    requires Tiles(bs, lo, hi) && Carve(bs, n).Some?
    ensures var (bs1, p) := Carve(bs, n).value;
            p !in UsedBlocks(bs) && p >= HEADER && size >= n && UsedBlocks(bs1) == UsedBlocks(bs)[p := size]
  {
    UsedInRange(bs[1..], bs[0].End(), hi);
    var (bs1, p) := Carve(bs, n).value;
    if Fits(bs[0], n) {
      if |Split(bs[0], n)| == 2 {
        assert bs1[1..] == [Split(bs[0], n)[1]] + bs[1..] && bs1[1..][1..] == bs[1..];
        size := n;
      } else {
        assert bs1[1..] == bs[1..];
        size := bs[0].size;
      }
    } else {
      size := UsedCarve(bs[1..], n, bs[0].End(), hi);
      assert bs1[1..] == Carve(bs[1..], n).value.0;
      CarveAfter(bs[1..], n, bs[0].End(), hi);
    }
  }

  lemma {:induction false} CarveAfter(bs: seq<Block>, n: nat, lo: nat, hi: nat)
    requires Tiles(bs, lo, hi) && Carve(bs, n).Some?
    ensures Carve(bs, n).value.1 >= lo + HEADER
  {
    if !Fits(bs[0], n) {
      CarveAfter(bs[1..], n, bs[0].End(), hi);
    }
  }

  lemma {:induction false} UsedExpand(bs: seq<Block>, page: nat)
    ensures UsedBlocks(Expand(bs, page)) == UsedBlocks(bs)
    decreases |bs|
  {
    if |bs| <= 1 {
      assert Expand(bs, page)[|Expand(bs, page)| - 1].free;
      assert |Expand(bs, page)| == 1 ==> Expand(bs, page)[1..] == [];
      assert |Expand(bs, page)| == 2 ==> Expand(bs, page)[1..] == [NewBlock(page)] && [NewBlock(page)][1..] == [];
    } else {
      UsedExpand(bs[1..], page);
      assert Expand(bs, page)[1..] == Expand(bs[1..], page);
    }
  }

  /** The heap range, its blocks, and the sizes asked for by the owners of
      the live pointers. */
  datatype Heap = Heap(blocks: seq<Block>, lo: nat, hi: nat, live: map<nat, nat>)

  datatype Op = MallocOp(n: nat, page: nat) | FreeOp(p: nat)

  predicate Grows(h: Heap, op: Op)
  {
    op.MallocOp? && op.n > 0 && op.page != 0 && Carve(h.blocks, op.n).None?
  }

  /** Pointers passed to kfree are live, and each page the heap grows by
      continues it. */
  predicate Legal(h: Heap, op: Op)
  {
    if op.FreeOp? then op.p == 0 || (op.p in h.live && op.p >= HEADER) else Grows(h, op) ==> op.page == h.hi
  }

  function Step(h: Heap, op: Op): Heap
    requires Legal(h, op)
  {
    match op
    case MallocOp(n, page) =>
      var (bs, p) := Malloc(h.blocks, n, page);
      h.(blocks := bs,
         hi := if Grows(h, op) then h.hi + PAGE else h.hi,
         live := if p == 0 then h.live else h.live[p := n])
    case FreeOp(p) => h.(blocks := Free(h.blocks, p), live := h.live - {p})
  }

  /** The heap is tiled by whole pages, and the blocks in use are exactly the
      live allocations, each at least as large as asked for. */
  ghost predicate Sound(h: Heap)
  {
    && h.blocks != [] && Tiles(h.blocks, h.lo, h.hi) && (h.hi - h.lo) % PAGE == 0
    && UsedBlocks(h.blocks).Keys == h.live.Keys
    && forall p :: p in h.live ==> h.live[p] <= UsedBlocks(h.blocks)[p]
  }

  lemma MallocKeepsSound(h: Heap, op: Op)
    requires Sound(h) && op.MallocOp? && Legal(h, op)
    ensures Sound(Step(h, op))
  {
    if op.n > 0 {
      if Carve(h.blocks, op.n).Some? {
        CarveTiles(h.blocks, op.n, h.lo, h.hi);
        var size := UsedCarve(h.blocks, op.n, h.lo, h.hi);
        assert Step(h, op).blocks != [];
      } else if op.page != 0 {
        ExpandTilesExactly(h.blocks, h.lo, h.hi, op.page);
        UsedExpand(h.blocks, op.page);
      }
    }
  }

  lemma FreeKeepsSound(h: Heap, op: Op)
    requires Sound(h) && op.FreeOp? && Legal(h, op)
    ensures Sound(Step(h, op))
  {
    if op.p != 0 {
      var marked := Mark(h.blocks, op.p - HEADER);
      MarkTiles(h.blocks, op.p - HEADER, h.lo, h.hi);
      UsedMark(h.blocks, op.p - HEADER, h.lo, h.hi);
      CoalesceTiles(marked, h.lo, h.hi);
      UsedCoalesce(marked);
      assert Coalesce(marked) != [] by {
        CoalesceHead(marked);
      }
    } else {
      UsedInRange(h.blocks, h.lo, h.hi);
      assert h.live - {0} == h.live;
    }
  }

  lemma {:induction false} CoalesceHead(bs: seq<Block>)
    requires bs != []
    ensures Coalesce(bs) != [] && Coalesce(bs)[0].addr == bs[0].addr && Coalesce(bs)[0].free == bs[0].free
    decreases |bs|
  {
    if |bs| >= 2 && bs[0].free && bs[1].free {
      CoalesceHead([Join(bs[0], bs[1])] + bs[2..]);
    }
  }

  predicate LegalRun(h: Heap, ops: seq<Op>)
    decreases |ops|
  {
    ops == [] || (Legal(h, ops[0]) && LegalRun(Step(h, ops[0]), ops[1..]))
  }

  function Run(h: Heap, ops: seq<Op>): Heap
    requires LegalRun(h, ops)
    decreases |ops|
  {
    if ops == [] then h else Run(Step(h, ops[0]), ops[1..])
  }

  /** In every run the blocks tile the heap: their sizes and headers add up to
      the pages taken, and any two live payloads are disjoint, inside the heap
      and as large as requested. */
  lemma {:induction false} RunIsSound(h: Heap, ops: seq<Op>)
    requires Sound(h) && LegalRun(h, ops)
    ensures var r := Run(h, ops);
            && Sound(r) && r.lo == h.lo && TotalSize(r.blocks) == r.hi - r.lo && TotalSize(r.blocks) % PAGE == 0
            && (forall p :: p in r.live ==> r.lo + HEADER <= p && p + r.live[p] <= r.hi)
            && (forall p, q :: p in r.live && q in r.live && p < q ==> p + r.live[p] <= q)
    decreases |ops|
  {
    if ops != [] {
      if ops[0].MallocOp? {
        MallocKeepsSound(h, ops[0]);
      } else {
        FreeKeepsSound(h, ops[0]);
      }
      RunIsSound(Step(h, ops[0]), ops[1..]);
    } else {
      TilesAddUp(h.blocks, h.lo, h.hi);
      UsedInRange(h.blocks, h.lo, h.hi);
      forall p, q | p in h.live && q in h.live && p < q
        ensures p + h.live[p] <= q
      {
        PayloadsApart(h.blocks, h.lo, h.hi, p, q);
      }
    }
  }

  /** The heap as init_kheap leaves it. */
  lemma InitialHeapIsSound(page: nat)
    ensures Sound(Heap([NewBlock(page)], page, page + PAGE, map[]))
  {
    var bs := [NewBlock(page)];
    assert bs[1..] == [];
    assert Tiles(bs, page, page + PAGE) && UsedBlocks(bs) == map[];
  }

  // ---------------------------------------------------------------------
  // Canonical form and round trip
  // ---------------------------------------------------------------------

  /** No two list neighbours are both free. */
  predicate Canonical(bs: seq<Block>)
  {
    |bs| >= 2 ==> !(bs[0].free && bs[1].free) && Canonical(bs[1..])
  }

  lemma {:induction false} CoalesceIsCanonical(bs: seq<Block>)
    ensures Canonical(Coalesce(bs))
    decreases |bs|
  {
    if |bs| >= 2 {
      if bs[0].free && bs[1].free {
        CoalesceIsCanonical([Join(bs[0], bs[1])] + bs[2..]);
      } else {
        CoalesceIsCanonical(bs[1..]);
        CoalesceHead(bs[1..]);
        assert Coalesce(bs)[1..] == Coalesce(bs[1..]);
      }
    }
  }

  /** Merging has nothing to do on a canonical list. */
  lemma {:induction false} CoalesceKeepsCanonical(bs: seq<Block>)
    requires Canonical(bs)
    ensures Coalesce(bs) == bs
    decreases |bs|
  {
    if |bs| >= 2 {
      CoalesceKeepsCanonical(bs[1..]);
    }
  }

  /** After any kfree no two neighbours are both free. */
  lemma FreeIsCanonical(bs: seq<Block>, p: nat)
    requires p >= HEADER
    ensures Canonical(Free(bs, p))
  {
    CoalesceIsCanonical(Mark(bs, p - HEADER));
  }

  /** kmalloc without growth keeps the list canonical. */
  lemma {:induction false} CarveIsCanonical(bs: seq<Block>, n: nat)
    requires Canonical(bs) && Carve(bs, n).Some?
    ensures Canonical(Carve(bs, n).value.0)
    ensures Carve(bs, n).value.0[0].free ==> bs[0].free
  {
    var bs1 := Carve(bs, n).value.0;
    if Fits(bs[0], n) {
      if |Split(bs[0], n)| == 2 {
        assert bs1[1..] == [Split(bs[0], n)[1]] + bs[1..] && bs1[1..][1..] == bs[1..];
      } else {
        assert bs1[1..] == bs[1..];
      }
    } else {
      CarveIsCanonical(bs[1..], n);
      assert bs1[1..] == Carve(bs[1..], n).value.0;
    }
  }

  /** No two headers are at the same address. */
  predicate Distinct(bs: seq<Block>)
  {
    forall i, j :: 0 <= i < j < |bs| ==> bs[i].addr != bs[j].addr
  }

  /** What first fit hands out is the payload of a block of the list. */
  lemma {:induction false} CarvedFromList(bs: seq<Block>, n: nat) returns (k: nat)
    requires Carve(bs, n).Some?
    ensures k < |bs| && Carve(bs, n).value.1 == bs[k].Payload()
  {
    if Fits(bs[0], n) {
      k := 0;
    } else {
      k := CarvedFromList(bs[1..], n);
      k := k + 1;
    }
  }

  /** kfree undoes kmalloc: from a canonical heap, wherever its pages lie, the
      block list comes back exactly as it was, whether or not the block was
      split. */
  lemma {:induction false} FreeUndoesMalloc(bs: seq<Block>, n: nat)
    requires Canonical(bs) && Distinct(bs) && Carve(bs, n).Some?
    ensures var (bs1, p) := Carve(bs, n).value; p >= HEADER && Free(bs1, p) == bs
  {
    var (bs1, p) := Carve(bs, n).value;
    var k := CarvedFromList(bs, n);
    var marked := Mark(bs1, p - HEADER);
    if Fits(bs[0], n) {
      if |Split(bs[0], n)| == 2 {
        assert marked == [Split(bs[0], n)[0].(free := true), Split(bs[0], n)[1]] + bs[1..];
        assert [Join(marked[0], marked[1])] + marked[2..] == bs;
      } else {
        assert marked == bs;
      }
      CoalesceKeepsCanonical(bs);
    } else {
      var rest := Carve(bs[1..], n).value.0;
      k := CarvedFromList(bs[1..], n);
      assert bs[1..][k] == bs[k + 1];
      FreeUndoesMalloc(bs[1..], n);
      assert bs1[1..] == rest;
      assert marked == [bs[0]] + Mark(rest, p - HEADER);
      CoalesceHead(Mark(rest, p - HEADER));
      assert marked[1..] == Mark(rest, p - HEADER);
    }
  }

  // ---------------------------------------------------------------------
  // Progress although a growing kmalloc returns 0
  // ---------------------------------------------------------------------

  lemma {:induction false} CarveSucceeds(bs: seq<Block>, n: nat)
    ensures Carve(bs, n).Some? <==> exists i :: 0 <= i < |bs| && Fits(bs[i], n)
  {
    if bs != [] {
      CarveSucceeds(bs[1..], n);
      if i :| 0 <= i < |bs| && Fits(bs[i], n) {
        if i > 0 {
          assert Fits(bs[1..][i - 1], n);
        }
      }
      if Carve(bs[1..], n).Some? {
        var i :| 0 <= i < |bs[1..]| && Fits(bs[1..][i], n);
        assert Fits(bs[i + 1], n);
      }
    }
  }

  /** For requests that fit a page, the call after a growing one succeeds. */
  lemma RetrySucceeds(bs: seq<Block>, n: nat, page: nat)
    requires 0 < n <= PAGE - HEADER && page != 0 && Carve(bs, n).None?
    ensures Malloc(bs, n, page).1 == 0 && Carve(Malloc(bs, n, page).0, n).Some?
  {
    var bs1 := Expand(bs, page);
    assert Fits(bs1[|bs1| - 1], n);
    CarveSucceeds(bs1, n);
  }

  /** Consecutive growing calls for n, each page continuing the heap. */
  ghost predicate GrowingRun(trace: seq<seq<Block>>, n: nat)
  {
    && |trace| > 0 && trace[0] != []
    && forall k :: 0 <= k < |trace| - 1 ==> GrowingCall(trace[k], trace[k + 1], n)
  }

  ghost predicate GrowingCall(bs: seq<Block>, bs1: seq<Block>, n: nat)
  {
    bs != [] && Carve(bs, n).None? && bs1 == Expand(bs, bs[|bs| - 1].End())
  }

  lemma {:induction false} TailGrows(trace: seq<seq<Block>>, n: nat, k: nat)
    requires GrowingRun(trace, n) && 0 < k < |trace|
    ensures trace[k] != [] && trace[k][|trace[k]| - 1].free && trace[k][|trace[k]| - 1].size + HEADER >= k * PAGE
  {
    assert GrowingCall(trace[k - 1], trace[k], n);
    if k > 1 {
      TailGrows(trace, n, k - 1);
    }
  }

  /** With contiguous pages at most (n + 24) / 4096, rounded up, growing calls
      come before one that succeeds. */
  lemma GrowthIsBounded(trace: seq<seq<Block>>, n: nat)
    requires GrowingRun(trace, n)
    ensures |trace| - 1 <= (n + HEADER + PAGE - 1) / PAGE
  {
    var k := |trace| - 2;
    if k > 0 {
      assert GrowingCall(trace[k], trace[k + 1], n);
      TailGrows(trace, n, k);
      var last := trace[k][|trace[k]| - 1];
      CarveSucceeds(trace[k], n);
      assert !Fits(last, n);
      assert k * PAGE < n + HEADER;
    }
  }

  /** Without contiguity a request larger than a page is never served by
      growing, however often it is repeated. */
  lemma ScatteredGrowthNeverHelps(bs: seq<Block>, n: nat, page: nat)
    requires bs != [] && n > PAGE - HEADER && Carve(bs, n).None? && page != bs[|bs| - 1].End()
    ensures Carve(Expand(bs, page), n).None?
  {
    CarveSucceeds(bs, n);
    CarveSucceeds(Expand(bs, page), n);
  }

  // ---------------------------------------------------------------------
  // kfree does not look at addresses
  // ---------------------------------------------------------------------

  /** A block of one page in use, at an address. */
  function FullPage(page: nat): Block { NewBlock(page).(free := false) }

  /** From init_kheap on, three requests for a whole page: the first takes the
      first page, the second grows the heap by the page at b and fails, the
      third takes that page. */
  lemma TwoPagesTaken(a: nat, b: nat)
    requires b != 0 && b > a + PAGE
    ensures var n := PAGE - HEADER;
            var h0 := [NewBlock(a)];
            var (h1, p1) := Malloc(h0, n, b);
            var (h2, p2) := Malloc(h1, n, b);
            var (h3, p3) := Malloc(h2, n, 0);
            && p1 == a + HEADER && p2 == 0 && p3 == b + HEADER
            && h3 == [FullPage(a), FullPage(b)]
  {
    var n := PAGE - HEADER;
    var one := [NewBlock(a)];
    assert one[1..] == [];
    assert Split(NewBlock(a), n) + one[1..] == [FullPage(a)];
    assert Carve(one, n) == Some(([FullPage(a)], a + HEADER));
    var full := [FullPage(a)];
    assert full[1..] == [];
    assert Carve(full, n) == None;
    var grown := full + [NewBlock(b)];
    assert Expand(full, b) == grown;
    var second := [NewBlock(b)];
    assert grown[1..] == second && second[1..] == [];
    assert Split(NewBlock(b), n) + second[1..] == [FullPage(b)];
    assert Carve(second, n) == Some(([FullPage(b)], b + HEADER));
  }

  /** A run that shows why the pages have to be contiguous: from that state,
      giving both pages back makes one block of them, and the next kmalloc
      hands out memory that was never part of the heap. */
  lemma MergeAcrossGap(a: nat, b: nat)
    requires b >= a + 2 * PAGE
    ensures var n := PAGE - HEADER;
            var full := Malloc(Malloc(Malloc([NewBlock(a)], n, b).0, n, b).0, n, 0).0;
            var freed := Free(Free(full, a + HEADER), b + HEADER);
            && freed == [Block(a, 2 * PAGE - HEADER, true)]
            && Malloc(freed, 2 * PAGE - HEADER, 0).1 == a + HEADER
            && a + PAGE < freed[0].End() <= b
  {
    TwoPagesTaken(a, b);
    var x, y := FullPage(a), FullPage(b);
    var x1, y1 := x.(free := true), y.(free := true);
    assert [x, y][1..] == [y] && [x1, y][1..] == [y] && [x1, y1][1..] == [y1];
    assert Mark([x, y], a) == [x1, y] && Coalesce([x1, y]) == [x1, y];
    assert Mark([y], b) == [y1];
    assert Mark([x1, y], b) == [x1, y1];
    assert [Join(x1, y1)] + [x1, y1][2..] == [Join(x1, y1)];
    assert Coalesce([x1, y1]) == [Join(x1, y1)];
  }
}
