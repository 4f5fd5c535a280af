/** The kernel heap as the code works on it (src/kernel/kheap.c): a singly
    linked list of headers in memory, rewritten in place. */
module KHeapList {
  import opened Options
  import opened KHeap
  import Pmm

  /** block_header_t */
  datatype Header = Header(next: nat, size: nat, free: bool)

  // ---------------------------------------------------------------------
  // List segments
  // ---------------------------------------------------------------------

  /** Following next from p passes the headers of bs and arrives at q. */
  predicate Segment(hdr: map<nat, Header>, p: nat, bs: seq<Block>, q: nat)
    decreases |bs|
  {
    if bs == [] then p == q
    else
      && p == bs[0].addr && p != 0 && p in hdr
      && hdr[p].size == bs[0].size && hdr[p].free == bs[0].free
      && Segment(hdr, hdr[p].next, bs[1..], q)
  }

  lemma DistinctTail(bs: seq<Block>)
    requires Distinct(bs) && bs != []
    ensures Distinct(bs[1..]) && forall i :: 0 <= i < |bs[1..]| ==> bs[1..][i].addr != bs[0].addr
  {
  }

  lemma {:induction false} SegmentConcat(hdr: map<nat, Header>, p: nat, a: seq<Block>, m: nat, b: seq<Block>, q: nat)
    requires Segment(hdr, p, a, m) && Segment(hdr, m, b, q)
    ensures Segment(hdr, p, a + b, q)
    decreases |a|
  {
    if a == [] {
      assert a + b == b;
    } else {
      assert (a + b)[1..] == a[1..] + b;
      SegmentConcat(hdr, hdr[p].next, a[1..], m, b, q);
    }
  }

  /** Writing headers outside the segment does not disturb it. */
  lemma {:induction false} SegmentFrame(hdr: map<nat, Header>, hdr1: map<nat, Header>, p: nat, bs: seq<Block>, q: nat)
    requires Segment(hdr, p, bs, q)
    requires forall i :: 0 <= i < |bs| && bs[i].addr in hdr ==>
                           bs[i].addr in hdr1 && hdr1[bs[i].addr] == hdr[bs[i].addr]
    ensures Segment(hdr1, p, bs, q)
    decreases |bs|
  {
    if bs != [] {
      forall i | 0 <= i < |bs[1..]| && bs[1..][i].addr in hdr
        ensures bs[1..][i].addr in hdr1 && hdr1[bs[1..][i].addr] == hdr[bs[1..][i].addr]
      {
        assert bs[1..][i] == bs[i + 1];
      }
      SegmentFrame(hdr, hdr1, hdr[p].next, bs[1..], q);
    }
  }

  // ---------------------------------------------------------------------
  // First fit by position
  // ---------------------------------------------------------------------

  lemma {:induction false} CarveAt(bs: seq<Block>, n: nat, k: nat)
    requires k < |bs| && Fits(bs[k], n) && forall i :: 0 <= i < k ==> !Fits(bs[i], n)
    ensures Carve(bs, n) == Some((bs[..k] + Split(bs[k], n) + bs[k + 1..], bs[k].Payload()))
  {
    if k > 0 {
      CarveAt(bs[1..], n, k - 1);
      assert [bs[0]] + (bs[1..][..k - 1] + Split(bs[k], n) + bs[1..][k..]) == bs[..k] + Split(bs[k], n) + bs[k + 1..];
    } else {
      assert bs[..0] + Split(bs[0], n) + bs[1..] == Split(bs[0], n) + bs[1..];
    }
  }

  lemma {:induction false} MarkAt(bs: seq<Block>, k: nat)
    requires k < |bs| && Distinct(bs)
    ensures Mark(bs, bs[k].addr) == bs[k := bs[k].(free := true)]
  {
    if k > 0 {
      DistinctTail(bs);
      assert bs[1..][k - 1] == bs[k];
      MarkAt(bs[1..], k - 1);
    } else {
      assert [bs[0].(free := true)] + bs[1..] == bs[0 := bs[0].(free := true)];
    }
  }

  /** No header lies inside another block, so a split cannot hit one. */
  predicate Apart(bs: seq<Block>)
  {
    forall i, j :: 0 <= i < |bs| && 0 <= j < |bs| ==> !(bs[i].addr < bs[j].addr < bs[i].End())
  }

  /** Every header is in a frame that the frame allocator has handed out. */
  predicate HeadersOwned(bs: seq<Block>, used: seq<bool>)
  {
    forall i :: 0 <= i < |bs| ==> bs[i].addr / PAGE < |used| && used[bs[i].addr / PAGE]
  }

  class HeapList {
    const pmm: Pmm.FrameAllocator
    var head: nat
    /** The header at each address that holds one. */
    var hdr: map<nat, Header>
    ghost var blocks: seq<Block>

    ghost predicate Valid()
      reads this
    {
      Segment(hdr, head, blocks, 0) && Distinct(blocks)
    }

    constructor (pmm: Pmm.FrameAllocator)
      ensures Valid() && this.pmm == pmm && blocks == []
    {
      this.pmm := pmm;
      head, hdr, blocks := 0, map[], [];
    }

    /** init_kheap */
    method Init()
      requires pmm.Valid() && blocks == [] && Valid()
      modifies this, pmm.bitmap
      ensures pmm.Valid() && Valid()
      ensures pmm.Used() == Pmm.Alloc(old(pmm.Used())).0
      ensures var page := Pmm.Alloc(old(pmm.Used())).1; blocks == if page == 0 then [] else [NewBlock(page)]
    {
      var page := pmm.AllocBlock();
      if page == 0 {
        return;
      }
      head := page;
      hdr := hdr[page := Header(0, PAGE - HEADER, true)];
      blocks := [NewBlock(page)];
      assert blocks[1..] == [];
    }

    /** The part of kmalloc that gives out the block at address at. */
    method Use(at: nat, n: nat, ghost k: nat)
      requires Valid() && Apart(blocks) && k < |blocks| && blocks[k].addr == at && Fits(blocks[k], n)
      requires Segment(hdr, head, blocks[..k], at) && Segment(hdr, at, blocks[k..], 0)
      modifies this`hdr, this`blocks
      ensures Valid() && blocks == old(blocks[..k] + Split(blocks[k], n) + blocks[k + 1..])
    {
      UseKeepsList(hdr, head, blocks, k, n);
      assert blocks[k..][0] == blocks[k];
      ghost var used := UseHeader(hdr, blocks[k], n, hdr[at].next);
      if hdr[at].size > n + HEADER + 8 {
        var rest := at + HEADER + n;
        hdr := hdr[rest := Header(hdr[at].next, hdr[at].size - n - HEADER, true)];
        hdr := hdr[at := hdr[at].(size := n, next := rest)];
      }
      hdr := hdr[at := hdr[at].(free := false)];
      assert hdr == used;
      blocks := blocks[..k] + Split(blocks[k], n) + blocks[k + 1..];
    }

    /** The part of kmalloc that links in a new page behind last. */
    method Append(page: nat, last: nat)
      requires Valid() && page != 0 && forall i :: 0 <= i < |blocks| ==> blocks[i].addr != page
      requires last == if blocks == [] then 0 else blocks[|blocks| - 1].addr
      modifies this`hdr, this`blocks, this`head
      ensures Valid() && blocks == Expand(old(blocks), page)
    {
      AppendKeepsList(hdr, head, blocks, page);
      ghost var grown := AppendHeader(hdr, blocks, page);
      hdr := hdr[page := Header(0, PAGE - HEADER, true)];
      if last != 0 {
        hdr := hdr[last := hdr[last].(next := page)];
        if hdr[last].free && last + HEADER + hdr[last].size == page {
          hdr := hdr[last := hdr[last].(size := hdr[last].size + HEADER + hdr[page].size, next := hdr[page].next)];
        } else {
          hdr := hdr[last := hdr[last].(next := page)];
        }
      } else {
        head := page;
      }
      assert hdr == grown;
      blocks := Expand(blocks, page);
    }

    /** The first-fit search of kmalloc: the first block that is free and
        large enough, or none, and then the last block of the list. */
    method FindFit(n: nat) returns (curr: nat, last: nat, ghost k: nat)
      requires Valid()
      ensures curr != 0 ==> && k < |blocks| && blocks[k].addr == curr && Fits(blocks[k], n)
                            && Segment(hdr, head, blocks[..k], curr) && Segment(hdr, curr, blocks[k..], 0)
                            && var cut := blocks[..k] + Split(blocks[k], n) + blocks[k + 1..];
                               Carve(blocks, n) == Some((cut, curr + HEADER))
      ensures curr == 0 ==> && Carve(blocks, n).None?
                            && last == if blocks == [] then 0 else blocks[|blocks| - 1].addr
    {
      curr, last, k := head, head, 0;
      while curr != 0
        invariant k <= |blocks| && Segment(hdr, head, blocks[..k], curr) && Segment(hdr, curr, blocks[k..], 0)
        invariant last == if k == 0 then head else blocks[k - 1].addr
        invariant forall i :: 0 <= i < k ==> !Fits(blocks[i], n)
        decreases |blocks| - k
      {
        assert blocks[k..][0] == blocks[k];
        if hdr[curr].free && hdr[curr].size >= n {
          CarveAt(blocks, n, k);
          return;
        }
        SegmentStep(hdr, head, blocks, k, curr);
        last, curr, k := curr, hdr[curr].next, k + 1;
      }
      assert blocks[k..] == [];
      CarveSucceeds(blocks, n);
    }

    /** kmalloc */
    method Malloc(n: nat) returns (p: nat)
      requires Valid() && pmm.Valid() && Apart(blocks) && HeadersOwned(blocks, pmm.Used())
      modifies this, pmm.bitmap
      ensures Valid() && pmm.Valid()
      ensures (blocks, p) == KHeap.Malloc(old(blocks), n, Pmm.Alloc(old(pmm.Used())).1)
      ensures pmm.Used() == if n == 0 || Carve(old(blocks), n).Some? then old(pmm.Used())
                            else Pmm.Alloc(old(pmm.Used())).0
    {
      if n == 0 {
        return 0;
      }
      var curr, last, k := FindFit(n);
      if curr != 0 {
        Use(curr, n, k);
        return curr + HEADER;
      }
      Grow(last);
      p := 0;
    }

    /** The end of kmalloc: a page from the frame allocator, if there is one,
        is linked in, and the call fails all the same. */
    method Grow(last: nat)
      requires Valid() && pmm.Valid() && HeadersOwned(blocks, pmm.Used())
      requires last == if blocks == [] then 0 else blocks[|blocks| - 1].addr
      modifies this`hdr, this`blocks, this`head, pmm.bitmap
      ensures Valid() && pmm.Valid()
      ensures var (used, page) := Pmm.Alloc(old(pmm.Used()));
              blocks == (if page == 0 then old(blocks) else Expand(old(blocks), page)) && pmm.Used() == used
    {
      FreshPage(blocks, pmm.Used());
      var page := pmm.AllocBlock();
      if page != 0 {
        Append(page, last);
      }
    }

    /** kfree of a live pointer: the header before it is marked, then the
        merge loop runs over the whole list. */
    method Free(p: nat)
      requires Valid()
      requires p == 0 || (p >= HEADER && exists k :: 0 <= k < |blocks| && blocks[k].addr == p - HEADER)
      modifies this
      ensures Valid() && blocks == KHeap.Free(old(blocks), p)
    {
      if p == 0 {
        return;
      }
      var at := p - HEADER;
      ghost var k :| 0 <= k < |blocks| && blocks[k].addr == at;
      MarkKeepsList(hdr, head, blocks, k);
      hdr := hdr[at := hdr[at].(free := true)];
      blocks := Mark(blocks, at);
      Merge();
    }

    /** The merge loop. */
    method Merge()
      requires Valid()
      modifies this
      ensures Valid() && blocks == Coalesce(old(blocks))
    {
      var curr := head;
      ghost var done, rest := [], blocks;
      while curr != 0 && hdr[curr].next != 0
        invariant Segment(hdr, head, done, curr) && Segment(hdr, curr, rest, 0) && Distinct(done + rest)
        invariant Coalesce(old(blocks)) == done + Coalesce(rest)
        invariant curr != 0 ==> curr in hdr
        decreases |rest|
      {
        var next := hdr[curr].next;
        TwoBlocks(hdr, curr, rest);
        if hdr[curr].free && hdr[next].free {
          MergeKeepsList(hdr, head, done, rest);
          hdr := hdr[curr := hdr[curr].(size := hdr[curr].size + HEADER + hdr[next].size, next := hdr[next].next)];
          rest := [Join(rest[0], rest[1])] + rest[2..];
        } else {
          StepOver(hdr, head, done, rest);
          StepOverBlocks(done, rest);
          done, rest := done + [rest[0]], rest[1..];
          curr := next;
        }
      }
      OneBlock(hdr, curr, rest);
      SegmentConcat(hdr, head, done, curr, rest, 0);
      blocks := done + rest;
    }
  }

  lemma FreshPage(bs: seq<Block>, used: seq<bool>)
    requires HeadersOwned(bs, used)
    ensures var page := Pmm.Alloc(used).1; page != 0 ==> forall i :: 0 <= i < |bs| ==> bs[i].addr != page
  {
  }

  lemma SegmentStep(hdr: map<nat, Header>, head: nat, bs: seq<Block>, k: nat, curr: nat)
    requires k < |bs| && Segment(hdr, head, bs[..k], curr) && Segment(hdr, curr, bs[k..], 0)
    ensures curr in hdr && Segment(hdr, head, bs[..k + 1], hdr[curr].next)
            && Segment(hdr, hdr[curr].next, bs[k + 1..], 0)
  {
    assert bs[k..][1..] == bs[k + 1..] && bs[..k + 1] == bs[..k] + [bs[k]] && [bs[k]][1..] == [];
    SegmentConcat(hdr, head, bs[..k], curr, [bs[k]], hdr[curr].next);
  }

  // ---------------------------------------------------------------------
  // Header updates as functions of the header memory
  // ---------------------------------------------------------------------

  /** The headers after a block was given out for n bytes. */
  function UseHeader(hdr: map<nat, Header>, b: Block, n: nat, next: nat): map<nat, Header>
  {
    if b.size > n + HEADER + 8 then
      hdr[b.addr + HEADER + n := Header(next, b.size - n - HEADER, true)]
      [b.addr := Header(b.addr + HEADER + n, n, false)]
    else hdr[b.addr := Header(next, b.size, false)]
  }

  lemma UseKeepsList(hdr: map<nat, Header>, head: nat, bs: seq<Block>, k: nat, n: nat)
    requires Segment(hdr, head, bs, 0) && Distinct(bs) && Apart(bs) && k < |bs| && Fits(bs[k], n)
    requires Segment(hdr, head, bs[..k], bs[k].addr) && Segment(hdr, bs[k].addr, bs[k..], 0)
    ensures bs[k].addr in hdr
    ensures var hdr1 := UseHeader(hdr, bs[k], n, hdr[bs[k].addr].next);
            Segment(hdr1, head, bs[..k] + Split(bs[k], n) + bs[k + 1..], 0)
    ensures Distinct(bs[..k] + Split(bs[k], n) + bs[k + 1..])
  {
    var at, given := bs[k].addr, Split(bs[k], n);
    var next := hdr[at].next;
    var hdr1 := UseHeader(hdr, bs[k], n, next);
    assert bs[k..][1..] == bs[k + 1..];
    SegmentFrame(hdr, hdr1, head, bs[..k], at);
    SegmentFrame(hdr, hdr1, next, bs[k + 1..], 0);
    assert Segment(hdr1, at, given, next) by {
      assert |given| == 2 ==> given[1..] == [given[1]] && given[1..][1..] == [];
      assert |given| == 1 ==> given[1..] == [];
    }
    SegmentConcat(hdr1, head, bs[..k], at, given, next);
    SegmentConcat(hdr1, head, bs[..k] + given, next, bs[k + 1..], 0);
    UseKeepsDistinct(bs, k, n);
  }

  lemma UseKeepsDistinct(bs: seq<Block>, k: nat, n: nat)
    requires Distinct(bs) && Apart(bs) && k < |bs| && Fits(bs[k], n)
    ensures Distinct(bs[..k] + Split(bs[k], n) + bs[k + 1..])
  {
    var given := Split(bs[k], n);
    var r := bs[..k] + given + bs[k + 1..];
    if |given| == 2 {
      assert r == bs[..k] + [given[0], given[1]] + bs[k + 1..];
      forall i | 0 <= i < |bs| ensures bs[i].addr != given[1].addr {
      }
      InsertKeepsDistinct(bs, k, given[0], given[1]);
    } else {
      assert forall i :: 0 <= i < |r| ==> r[i].addr == bs[i].addr;
    }
  }

  lemma InsertKeepsDistinct(bs: seq<Block>, k: nat, a: Block, b: Block)
    requires Distinct(bs) && k < |bs| && a.addr == bs[k].addr && forall i :: 0 <= i < |bs| ==> bs[i].addr != b.addr
    ensures Distinct(bs[..k] + [a, b] + bs[k + 1..])
  {
    var r := bs[..k] + [a, b] + bs[k + 1..];
    assert forall i :: 0 <= i < |r| ==>
        r[i].addr == if i <= k then bs[i].addr else if i == k + 1 then b.addr else bs[i - 1].addr;
  }

  /** The headers and the head after a page was linked in. */
  function AppendHeader(hdr: map<nat, Header>, bs: seq<Block>, page: nat): map<nat, Header>
    requires bs != [] ==> bs[|bs| - 1].addr in hdr
  {
    var hdr1 := hdr[page := Header(0, PAGE - HEADER, true)];
    if bs == [] then hdr1
    else
      var last := bs[|bs| - 1];
      if last.free && last.End() == page
      then hdr1[last.addr := Header(0, last.size + HEADER + (PAGE - HEADER), true)]
      else hdr1[last.addr := Header(page, last.size, last.free)]
  }

  lemma AppendKeepsList(hdr: map<nat, Header>, head: nat, bs: seq<Block>, page: nat)
    requires Segment(hdr, head, bs, 0) && Distinct(bs) && page != 0 && forall i :: 0 <= i < |bs| ==> bs[i].addr != page
    ensures bs != [] ==> bs[|bs| - 1].addr in hdr && bs[|bs| - 1].addr != 0
                         && hdr[bs[|bs| - 1].addr].size == bs[|bs| - 1].size
                         && hdr[bs[|bs| - 1].addr].free == bs[|bs| - 1].free
    ensures Segment(AppendHeader(hdr, bs, page), if bs == [] then page else head, Expand(bs, page), 0)
    ensures Distinct(Expand(bs, page))
  {
    if bs == [] {
      assert [NewBlock(page)][1..] == [];
    } else {
      var n := |bs| - 1;
      var front, last := bs[..n], bs[n];
      var at := SegmentSplit(hdr, head, bs, n);
      assert bs[n..] == [last] && [last][1..] == [];
      var hdr1 := AppendHeader(hdr, bs, page);
      SegmentFrame(hdr, hdr1, head, front, at);
      if last.free && last.End() == page {
        var grown := last.(size := last.size + HEADER + NewBlock(page).size);
        assert [grown][1..] == [];
        SegmentConcat(hdr1, head, front, at, [grown], 0);
      } else {
        var tail := [last, NewBlock(page)];
        assert tail[1..] == [NewBlock(page)] && tail[1..][1..] == [];
        SegmentConcat(hdr1, head, front, at, tail, 0);
        assert front + tail == bs + [NewBlock(page)];
      }
    }
  }

  lemma {:induction false} SegmentSplit(hdr: map<nat, Header>, p: nat, bs: seq<Block>, k: nat) returns (m: nat)
    requires Segment(hdr, p, bs, 0) && k <= |bs|
    ensures Segment(hdr, p, bs[..k], m) && Segment(hdr, m, bs[k..], 0)
    ensures k < |bs| ==> m == bs[k].addr
    decreases k
  {
    if k == 0 {
      m := p;
      assert bs[0..] == bs;
    } else {
      m := SegmentSplit(hdr, hdr[p].next, bs[1..], k - 1);
      assert bs[..k][1..] == bs[1..][..k - 1] && bs[1..][k - 1..] == bs[k..];
    }
  }

  lemma MarkKeepsList(hdr: map<nat, Header>, head: nat, bs: seq<Block>, k: nat)
    requires Segment(hdr, head, bs, 0) && Distinct(bs) && k < |bs|
    ensures var at := bs[k].addr;
            && at in hdr && Segment(hdr[at := hdr[at].(free := true)], head, Mark(bs, at), 0)
            && Distinct(Mark(bs, at))
  {
    var at, b := bs[k].addr, bs[k].(free := true);
    MarkAt(bs, k);
    var m := SegmentSplit(hdr, head, bs, k);
    assert bs[k..][1..] == bs[k + 1..] && bs[k..][0] == bs[k];
    var hdr1 := hdr[at := hdr[at].(free := true)];
    SegmentFrame(hdr, hdr1, head, bs[..k], at);
    SegmentFrame(hdr, hdr1, hdr[at].next, bs[k + 1..], 0);
    Replaced(hdr1, head, bs, k, b);
  }

  /** A list with block k exchanged, from its parts. */
  lemma Replaced(hdr: map<nat, Header>, head: nat, bs: seq<Block>, k: nat, b: Block)
    requires k < |bs| && b.addr in hdr && Segment(hdr, head, bs[..k], b.addr)
             && Segment(hdr, hdr[b.addr].next, bs[k + 1..], 0)
    requires Segment(hdr, b.addr, [b], hdr[b.addr].next)
    ensures Segment(hdr, head, bs[k := b], 0)
  {
    SegmentConcat(hdr, head, bs[..k], b.addr, [b], hdr[b.addr].next);
    SegmentConcat(hdr, head, bs[..k] + [b], hdr[b.addr].next, bs[k + 1..], 0);
    assert bs[..k] + [b] + bs[k + 1..] == bs[k := b];
  }

  /** Where the merge loop goes on there are two blocks to look at. */
  lemma TwoBlocks(hdr: map<nat, Header>, curr: nat, rest: seq<Block>)
    requires Segment(hdr, curr, rest, 0) && curr != 0 && curr in hdr && hdr[curr].next != 0
    ensures |rest| >= 2 && rest[0].addr == curr && rest[1].addr == hdr[curr].next && hdr[curr].next in hdr
    ensures hdr[curr].free == rest[0].free && hdr[curr].size == rest[0].size
    ensures hdr[hdr[curr].next].free == rest[1].free && hdr[hdr[curr].next].size == rest[1].size
  {
    assert rest[1..] != [] && rest[1..][0] == rest[1];
  }

  lemma OneBlock(hdr: map<nat, Header>, curr: nat, rest: seq<Block>)
    requires Segment(hdr, curr, rest, 0) && (curr == 0 || (curr in hdr && hdr[curr].next == 0))
    ensures |rest| <= 1 && Coalesce(rest) == rest
  {
    assert rest != [] ==> Segment(hdr, 0, rest[1..], 0);
  }

  lemma MergeKeepsList(hdr: map<nat, Header>, head: nat, done: seq<Block>, rest: seq<Block>)
    requires |rest| >= 2 && Segment(hdr, head, done, rest[0].addr) && Segment(hdr, rest[0].addr, rest, 0)
             && Distinct(done + rest)
    requires rest[0].addr in hdr && rest[1].addr in hdr && rest[0].free
    ensures var curr, next := rest[0].addr, rest[1].addr;
            var merged := hdr[curr].(size := hdr[curr].size + HEADER + hdr[next].size, next := hdr[next].next);
            var hdr1 := hdr[curr := merged];
            var rest1 := [Join(rest[0], rest[1])] + rest[2..];
            Segment(hdr1, head, done, curr) && Segment(hdr1, curr, rest1, 0) && Distinct(done + rest1)
  {
    var curr, next := rest[0].addr, rest[1].addr;
    var hdr1 := hdr[curr := hdr[curr].(size := hdr[curr].size + HEADER + hdr[next].size, next := hdr[next].next)];
    var rest1 := [Join(rest[0], rest[1])] + rest[2..];
    assert rest[1..][0] == rest[1] && rest[1..][1..] == rest[2..] && rest1[1..] == rest[2..];
    forall i, j | 0 <= i < j < |done + rest1| ensures (done + rest1)[i].addr != (done + rest1)[j].addr {
      var n := |done|;
      assert (done + rest1)[i].addr == (done + rest)[if i <= n then i else i + 1].addr;
      assert (done + rest1)[j].addr == (done + rest)[if j <= n then j else j + 1].addr;
    }
    MergeFrame(hdr, hdr1, head, done, rest);
  }

  lemma MergeFrame(hdr: map<nat, Header>, hdr1: map<nat, Header>, head: nat, done: seq<Block>, rest: seq<Block>)
    requires |rest| >= 2 && Segment(hdr, head, done, rest[0].addr) && Segment(hdr, rest[0].addr, rest, 0)
             && Distinct(done + rest)
    requires rest[0].addr in hdr1 && rest[1].addr in hdr
    requires forall a :: a in hdr && a != rest[0].addr ==> a in hdr1 && hdr1[a] == hdr[a]
    ensures Segment(hdr1, head, done, rest[0].addr) && Segment(hdr1, hdr[rest[1].addr].next, rest[2..], 0)
  {
    var n := |done|;
    forall i | 0 <= i < |done| ensures done[i].addr != rest[0].addr {
      assert (done + rest)[i] == done[i] && (done + rest)[n] == rest[0];
    }
    forall i | 0 <= i < |rest[2..]| ensures rest[2..][i].addr != rest[0].addr {
      assert (done + rest)[n + i + 2] == rest[2..][i] && (done + rest)[n] == rest[0];
    }
    assert rest[1..][0] == rest[1] && rest[1..][1..] == rest[2..];
    SegmentFrame(hdr, hdr1, head, done, rest[0].addr);
    SegmentFrame(hdr, hdr1, hdr[rest[1].addr].next, rest[2..], 0);
  }

  lemma StepOver(hdr: map<nat, Header>, head: nat, done: seq<Block>, rest: seq<Block>)
    requires |rest| >= 2 && Segment(hdr, head, done, rest[0].addr) && Segment(hdr, rest[0].addr, rest, 0)
    ensures rest[0].addr in hdr && Segment(hdr, head, done + [rest[0]], hdr[rest[0].addr].next)
    ensures Segment(hdr, hdr[rest[0].addr].next, rest[1..], 0)
  {
    var one := [rest[0]];
    assert one[1..] == [];
    SegmentConcat(hdr, head, done, rest[0].addr, one, hdr[rest[0].addr].next);
  }

  lemma StepOverBlocks(done: seq<Block>, rest: seq<Block>)
    requires |rest| >= 2
    ensures done + rest == done + [rest[0]] + rest[1..]
    ensures !(rest[0].free && rest[1].free) ==> done + Coalesce(rest) == done + [rest[0]] + Coalesce(rest[1..])
  {
    var one, more, after := [rest[0]], rest[1..], Coalesce(rest[1..]);
    assert rest == one + more;
    Regroup(done, one, more);
    Regroup(done, one, after);
  }

  lemma Regroup(a: seq<Block>, b: seq<Block>, c: seq<Block>)
    ensures a + (b + c) == a + b + c
  {
  }

  /** In a tiled heap headers are distinct and no header lies inside another
      block. */
  lemma {:induction false} TilesAreApart(bs: seq<Block>, lo: nat, hi: nat)
    requires Tiles(bs, lo, hi)
    ensures Distinct(bs) && Apart(bs)
    ensures forall i :: 0 <= i < |bs| ==> lo <= bs[i].addr && bs[i].End() <= hi
  {
    if bs != [] {
      var rest := bs[1..];
      TilesAreApart(rest, bs[0].End(), hi);
      UsedInRange(rest, bs[0].End(), hi);
      assert forall i :: 0 < i < |bs| ==> bs[i] == rest[i - 1];
    }
  }
}
