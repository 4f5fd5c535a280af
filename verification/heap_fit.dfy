/** How much of the heap a request takes (src/kernel/kheap.c:47-71): no block is
    given out that is larger than need be, the rest stays free, and which
    sequences of requests one free block serves. */
module HeapFit {
  import opened Options
  import opened KHeap

  /** The bytes in free blocks. */
  function FreeBytes(bs: seq<Block>): nat
  {
    if bs == [] then 0 else (if bs[0].free then bs[0].size else 0) + FreeBytes(bs[1..])
  }

  lemma {:induction false} FreeBytesConcat(a: seq<Block>, b: seq<Block>)
    ensures FreeBytes(a + b) == FreeBytes(a) + FreeBytes(b)
  {
    if a == [] {
      assert a + b == b;
    } else {
      assert (a + b)[1..] == a[1..] + b;
      FreeBytesConcat(a[1..], b);
    }
  }

  /** From bs to bs1 a block for n bytes was taken out of bs[k], the first one
      that had room; all before and behind it is as it was. */
  ghost predicate TakenAt(bs: seq<Block>, bs1: seq<Block>, n: nat, k: nat)
  {
    && k < |bs| && k < |bs1| && Fits(bs[k], n) && (forall i :: 0 <= i < k ==> !Fits(bs[i], n))
    && bs1[..k] == bs[..k] && |bs| <= |bs1| && bs1[|bs1| - (|bs| - k - 1)..] == bs[k + 1..]
    && bs1[k].addr == bs[k].addr && !bs1[k].free
  }

  lemma {:induction false} CarveTakes(bs: seq<Block>, n: nat) returns (k: nat)
    requires Carve(bs, n).Some?
    ensures var (bs1, p) := Carve(bs, n).value;
            && TakenAt(bs, bs1, n, k) && p == bs[k].Payload()
            && |bs1| == |bs| + (if bs[k].size > n + HEADER + 8 then 1 else 0)
            && bs1[k].size == (if bs[k].size > n + HEADER + 8 then n else bs[k].size)
            && (bs[k].size > n + HEADER + 8 ==>
                  bs1[k + 1] == Block(bs[k].addr + HEADER + n, bs[k].size - n - HEADER, true))
    decreases |bs|
  {
    if Fits(bs[0], n) {
      k := 0;
    } else {
      k := CarveTakes(bs[1..], n);
      var (bs1, rest) := (Carve(bs, n).value.0, Carve(bs[1..], n).value.0);
      assert bs1 == [bs[0]] + rest && bs1[1..] == rest;
      TakenBehind(bs, rest, n, k);
      k := k + 1;
    }
  }

  lemma TakenBehind(bs: seq<Block>, rest: seq<Block>, n: nat, k: nat)
    requires bs != [] && !Fits(bs[0], n) && TakenAt(bs[1..], rest, n, k)
    ensures TakenAt(bs, [bs[0]] + rest, n, k + 1)
  {
    var bs1, tail := [bs[0]] + rest, bs[1..];
    assert bs1[..k + 1] == [bs[0]] + rest[..k] && bs[..k + 1] == [bs[0]] + tail[..k];
    var m := |bs| - (k + 1) - 1;
    assert bs1[|bs1| - m..] == rest[|rest| - m..] && bs[k + 2..] == tail[k + 1..];
    forall i | 0 <= i < k + 1 ensures !Fits(bs[i], n) {
      assert i > 0 ==> bs[i] == tail[i - 1];
    }
  }

  /** A successful request takes at most eight bytes and a header more than it
      asks for, exactly what it asks for out of a block that is larger, and
      the free bytes go down by that and by the header of the rest. */
  lemma MallocTakes(bs: seq<Block>, n: nat, page: nat) returns (k: nat)
    requires Malloc(bs, n, page).1 != 0 && n > 0
    ensures var (bs1, p) := Malloc(bs, n, page);
            && TakenAt(bs, bs1, n, k) && p == bs1[k].Payload()
            && n <= bs1[k].size < n + HEADER + 9
            && (bs[k].size > n + HEADER + 8 ==> bs1[k].size == n)
            && FreeBytes(bs)
               == FreeBytes(bs1) + bs1[k].size + if bs[k].size > n + HEADER + 8 then HEADER else 0
  {
    k := CarveTakes(bs, n);
    TakenBytes(bs, Carve(bs, n).value.0, n, k);
  }

  lemma TakenBytes(bs: seq<Block>, bs1: seq<Block>, n: nat, k: nat)
    requires TakenAt(bs, bs1, n, k)
    requires if bs[k].size > n + HEADER + 8
             then |bs1| == |bs| + 1 && bs1[k].size == n
                  && bs1[k + 1].free && bs1[k + 1].size == bs[k].size - n - HEADER
             else |bs1| == |bs| && bs1[k].size == bs[k].size
    ensures FreeBytes(bs) == FreeBytes(bs1) + bs1[k].size + if bs[k].size > n + HEADER + 8 then HEADER else 0
  {
    var a, c := bs[..k], bs[k + 1..];
    var mid := bs1[k..|bs1| - |c|];
    assert bs == a + ([bs[k]] + c);
    assert bs1 == a + (mid + c);
    FreeBytesConcat(a, [bs[k]] + c);
    FreeBytesConcat([bs[k]], c);
    FreeBytesConcat(a, mid + c);
    FreeBytesConcat(mid, c);
    assert [bs[k]][1..] == [];
    if bs[k].size > n + HEADER + 8 {
      assert mid == [bs1[k], bs1[k + 1]] && mid[1..] == [bs1[k + 1]] && mid[1..][1..] == [];
    } else {
      assert mid == [bs1[k]] && mid[1..] == [];
    }
  }

  // ---------------------------------------------------------------------
  // Sequences of requests
  // ---------------------------------------------------------------------

  /** One request after the other, without any growth: the addresses. */
  function Requests(bs: seq<Block>, ns: seq<nat>): (ps: seq<nat>)
    ensures |ps| == |ns|
    decreases |ns|
  {
    if ns == [] then []
    else [Malloc(bs, ns[0], 0).1] + Requests(Malloc(bs, ns[0], 0).0, ns[1..])
  }

  /** What a free block of the given size can serve in a row: every request but
      the last has to leave more than a header and eight bytes behind, or else
      it takes the rest. */
  predicate Serves(size: nat, ns: seq<nat>)
    decreases |ns|
  {
    if ns == [] then true
    else if ns[0] == 0 || ns[0] > size then false
    else if size > ns[0] + HEADER + 8 then Serves(size - ns[0] - HEADER, ns[1..])
    else ns[1..] == []
  }

  ghost predicate NoneFree(bs: seq<Block>) { forall i :: 0 <= i < |bs| ==> !bs[i].free }

  lemma {:induction false} CarveBehindUsed(bs: seq<Block>, b: Block, n: nat)
    requires NoneFree(bs)
    ensures Carve(bs + [b], n) == if Fits(b, n) then Some((bs + Split(b, n), b.Payload())) else None
    decreases |bs|
  {
    if bs == [] {
      assert bs + [b] == [b] && [b][1..] == [] && bs + Split(b, n) == Split(b, n) == Split(b, n) + [];
    } else {
      assert (bs + [b])[1..] == bs[1..] + [b];
      CarveBehindUsed(bs[1..], b, n);
      assert [bs[0]] + (bs[1..] + Split(b, n)) == bs + Split(b, n);
    }
  }

  lemma {:induction false} NothingFreeServesNothing(bs: seq<Block>, n: nat)
    requires NoneFree(bs)
    ensures Carve(bs, n) == None
    decreases |bs|
  {
    if bs != [] {
      NothingFreeServesNothing(bs[1..], n);
    }
  }

  predicate AllServed(ps: seq<nat>) { forall i :: 0 <= i < |ps| ==> ps[i] != 0 }

  lemma ServedFirst(p: nat, rest: seq<nat>)
    ensures AllServed([p] + rest) <==> p != 0 && AllServed(rest)
  {
    var ps := [p] + rest;
    if AllServed(ps) {
      assert ps[0] == p;
      forall i | 0 <= i < |rest| ensures rest[i] != 0 {
        assert ps[i + 1] == rest[i];
      }
    }
  }

  /** All requests are served exactly if the one free block, at the end of a
      list of blocks in use, is large enough in that sense. */
  lemma {:induction false} RequestsServedExactly(bs: seq<Block>, b: Block, ns: seq<nat>)
    requires NoneFree(bs) && b.free
    ensures AllServed(Requests(bs + [b], ns)) <==> Serves(b.size, ns)
    decreases |ns|
  {
    if ns != [] {
      var n, list := ns[0], bs + [b];
      var rest := Requests(Malloc(list, n, 0).0, ns[1..]);
      ServedFirst(Malloc(list, n, 0).1, rest);
      CarveBehindUsed(bs, b, n);
      if n != 0 && n <= b.size {
        if b.size > n + HEADER + 8 {
          var used, left := bs + [Block(b.addr, n, false)], Block(b.addr + HEADER + n, b.size - n - HEADER, true);
          assert bs + Split(b, n) == used + [left];
          RequestsServedExactly(used, left, ns[1..]);
        } else if ns[1..] != [] {
          NothingFreeServesNothing(bs + Split(b, n), ns[1]);
          assert rest[0] == 0;
        }
      }
    }
  }

  /** From init_kheap on: two requests are both served exactly if the second
      fits behind the first with its header and the first leaves a block worth
      splitting off. */
  lemma TwoRequests(a: nat, n: nat, m: nat)
    requires n > 0 && m > 0
    ensures var ps := Requests([NewBlock(a)], [n, m]);
            && (ps[0] != 0 && ps[1] != 0 <==> n + HEADER + 8 < PAGE - HEADER && n + m + 2 * HEADER <= PAGE)
            && (ps[0] != 0 && ps[1] != 0 ==> ps[0] == a + HEADER && ps[1] == a + HEADER + n + HEADER)
  {
    var b, ns := NewBlock(a), [n, m];
    assert [] + [b] == [b] && ns[1..] == [m] && [m][1..] == [];
    RequestsServedExactly([], b, ns);
    CarveBehindUsed([], b, n);
    var ps := Requests([b], ns);
    assert ps[1] == Requests(Malloc([b], n, 0).0, [m])[0];
    if b.size > n + HEADER + 8 {
      var rest := Block(a + HEADER + n, b.size - n - HEADER, true);
      assert [] + Split(b, n) == [Block(a, n, false)] + [rest];
      CarveBehindUsed([Block(a, n, false)], rest, m);
    }
  }
}
