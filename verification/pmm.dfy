/** The physical frame allocator of src/kernel/pmm.c: one bit per 4096-byte
    block, kept in 32-bit words; a set bit means the block is in use.

    `FrameAllocator` is the code, working in place on the word array.  The
    functions over `seq<bool>` (one flag per block) are what it is proved
    against, and what the page-table builder, the loaders and the heap build on. */
module Pmm {

  const BLOCK_SIZE: nat := 4096
  /** Blocks of the first 32 MB, which are never handed out. */
  const RESERVED_BLOCKS: nat := 8192
  const TWO_64: nat := 0x1_0000_0000_0000_0000

  // ---------------------------------------------------------------------
  // Bits of a word
  // ---------------------------------------------------------------------

  /** word & (1 << k) != 0 */
  predicate TestBit(word: nat, k: nat)
    decreases k
  {
    if k == 0 then word % 2 == 1 else TestBit(word / 2, k - 1)
  }

  /** word | (1 << k) */
  function SetBit(word: nat, k: nat): nat
    decreases k
  {
    if k == 0 then word / 2 * 2 + 1 else 2 * SetBit(word / 2, k - 1) + word % 2
  }

  /** word & ~(1 << k) */
  function ClearBit(word: nat, k: nat): nat
    decreases k
  {
    if k == 0 then word / 2 * 2 else 2 * ClearBit(word / 2, k - 1) + word % 2
  }

  lemma {:induction false} TestAfterSet(word: nat, k: nat, j: nat)
    ensures TestBit(SetBit(word, k), j) <==> (j == k || TestBit(word, j))
    decreases k
  {
    if k > 0 && j > 0 {
      TestAfterSet(word / 2, k - 1, j - 1);
    }
  }

  lemma {:induction false} TestAfterClear(word: nat, k: nat, j: nat)
    ensures TestBit(ClearBit(word, k), j) <==> (j != k && TestBit(word, j))
    decreases k
  {
    if k > 0 && j > 0 {
      TestAfterClear(word / 2, k - 1, j - 1);
    }
  }

  // ---------------------------------------------------------------------
  // Allocation over one flag per block
  // ---------------------------------------------------------------------

  /** The bit of block b, counting 32 to a word. */
  predicate BlockBit(words: seq<nat>, b: nat)
    requires b < 32 * |words|
  {
    TestBit(words[b / 32], b % 32)
  }

  function Flags(words: seq<nat>, n: nat): (used: seq<bool>)
    requires n <= 32 * |words|
    ensures |used| == n
  {
    seq(n, b requires 0 <= b < n => BlockBit(words, b))
  }

  /** The lowest free block from i on, or |used| when there is none. */
  function FirstFree(used: seq<bool>, i: nat := 0): (r: nat)
    requires i <= |used|
    ensures i <= r <= |used|
    ensures r < |used| ==> !used[r]
    ensures forall j :: i <= j < r ==> used[j]
    decreases |used| - i
  {
    if i == |used| || !used[i] then i else FirstFree(used, i + 1)
  }

  /** The flags and the address that pmm_alloc_block leaves and returns. */
  function Alloc(used: seq<bool>): (r: (seq<bool>, nat))
    ensures |r.0| == |used|
  {
    var b := FirstFree(used);
    if b < |used| then (used[b := true], b * BLOCK_SIZE) else (used, 0)
  }

  function Release(used: seq<bool>, p: nat): (r: seq<bool>)
    ensures |r| == |used|
  {
    var b := p / BLOCK_SIZE;
    if b < |used| then used[b := false] else used
  }

  function FreeCount(used: seq<bool>): (n: nat)
    ensures n <= |used|
  {
    if used == [] then 0
    else FreeCount(used[..|used| - 1]) + if used[|used| - 1] then 0 else 1
  }

  lemma {:induction false} FreeCountTake(used: seq<bool>, b: nat)
    requires b < |used| && !used[b]
    ensures FreeCount(used) == FreeCount(used[b := true]) + 1
    decreases |used|
  {
    var n := |used| - 1;
    if b == n {
      assert used[b := true][..n] == used[..n];
    } else {
      FreeCountTake(used[..n], b);
      assert used[b := true][..n] == used[..n][b := true];
    }
  }

  lemma {:induction false} NoneFree(used: seq<bool>)
    ensures FreeCount(used) == 0 <==> FirstFree(used) == |used|
    decreases |used|
  {
    if used != [] {
      var n := |used| - 1;
      NoneFree(used[..n]);
      if FirstFree(used) == |used| {
        assert forall j :: 0 <= j < n ==> used[..n][j] == used[j];
        assert FirstFree(used[..n]) == n;
      } else if FirstFree(used) < n {
        assert !used[..n][FirstFree(used)];
      }
    }
  }

  /** An allocation fails exactly when nothing is free; otherwise it takes one
      block off the free count. Block 0 has to be in use, because its address
      is what the caller reads as failure. */
  lemma AllocCounts(used: seq<bool>)
    requires |used| > 0 ==> used[0]
    ensures Alloc(used).1 == 0 <==> FreeCount(used) == 0
    ensures Alloc(used).1 == 0 ==> Alloc(used).0 == used
    ensures Alloc(used).1 != 0 ==> FreeCount(Alloc(used).0) == FreeCount(used) - 1
  {
    NoneFree(used);
    if FirstFree(used) < |used| {
      FreeCountTake(used, FirstFree(used));
    }
  }

  // ---------------------------------------------------------------------
  // The memory map and what initialisation promises
  // ---------------------------------------------------------------------

  /** One E820 record; kind 1 is usable RAM. */
  datatype MapEntry = MapEntry(base: nat, length: nat, kind: nat) {
    predicate Usable() { kind == 1 }

    /** The sum is a 64-bit one in the code. */
    function End(): nat { (base + length) % TWO_64 }

    predicate Covers(b: nat)
    {
      Usable() && base / BLOCK_SIZE <= b < base / BLOCK_SIZE + length / BLOCK_SIZE
    }

    /** Block b lies in the entry from its first byte to its last. */
    predicate Inside(b: nat) { base <= b * BLOCK_SIZE && (b + 1) * BLOCK_SIZE <= base + length }
  }

  predicate NoWrap(entries: seq<MapEntry>)
  {
    forall i :: 0 <= i < |entries| ==> entries[i].base + entries[i].length < TWO_64
  }

  function MaxAddr(entries: seq<MapEntry>): (m: nat)
  {
    if entries == [] then 0
    else
      var last := entries[|entries| - 1];
      var rest := MaxAddr(entries[..|entries| - 1]);
      if last.Usable() && last.End() > rest then last.End() else rest
  }

  function TotalBlocks(entries: seq<MapEntry>): nat
  {
    MaxAddr(entries) / BLOCK_SIZE
  }

  predicate Covered(entries: seq<MapEntry>, b: nat)
  {
    exists i :: 0 <= i < |entries| && entries[i].Covers(b)
  }

  /** Whether block b is in use after initialisation, given the bit that the
      memory under the bitmap happened to hold. The memset stops at a whole
      byte, so the last total % 8 bits keep their old value. */
  predicate UsedAfterInit(entries: seq<MapEntry>, b: nat, before: bool)
  {
    b < RESERVED_BLOCKS || (!Covered(entries, b) && (b < TotalBlocks(entries) / 8 * 8 || before))
  }

  lemma {:induction false} MaxAddrBounds(entries: seq<MapEntry>, i: nat)
    requires i < |entries| && entries[i].Usable()
    ensures entries[i].End() <= MaxAddr(entries)
    decreases |entries|
  {
    if i < |entries| - 1 {
      MaxAddrBounds(entries[..|entries| - 1], i);
    }
  }

  /** The blocks that are freed for a usable entry are those that lie in it,
      exactly if it begins on a block boundary or holds no whole block; else
      the first of them begins before it. */
  lemma CoversExactly(e: MapEntry)
    requires e.Usable()
    ensures (forall b: nat :: e.Covers(b) <==> e.Inside(b)) <==> e.base % BLOCK_SIZE == 0 || e.length < BLOCK_SIZE
  {
    var first := e.base / BLOCK_SIZE;
    if e.base % BLOCK_SIZE == 0 {
      forall b: nat ensures e.Covers(b) <==> e.Inside(b) {
        assert e.base == first * BLOCK_SIZE;
        assert (b + 1) * BLOCK_SIZE <= e.base + e.length <==> (b + 1 - first) * BLOCK_SIZE <= e.length;
      }
    } else if e.length >= BLOCK_SIZE {
      assert e.Covers(first) && !e.Inside(first);
    }
  }

  /** Every bit that initialisation clears belongs to the bitmap. */
  lemma CoveredIsBelowTotal(entries: seq<MapEntry>, b: nat)
    requires NoWrap(entries) && Covered(entries, b)
    ensures b < TotalBlocks(entries)
  {
    var i :| 0 <= i < |entries| && entries[i].Covers(b);
    MaxAddrBounds(entries, i);
    assert entries[i].base / BLOCK_SIZE + entries[i].length / BLOCK_SIZE
        <= (entries[i].base + entries[i].length) / BLOCK_SIZE;
  }

  /** The documented outcome (free exactly when usable and above 32 MB)
      whatever the memory held before, and exactly when it is reached: the
      bits the truncated memset misses must be reserved or usable anyway. */
  lemma InitPromise(entries: seq<MapEntry>)
    ensures (forall b: nat, before :: b < TotalBlocks(entries) ==>
               (UsedAfterInit(entries, b, before) <==> !(RESERVED_BLOCKS <= b && Covered(entries, b))))
       <==> (forall b: nat :: TotalBlocks(entries) / 8 * 8 <= b < TotalBlocks(entries) ==>
               b < RESERVED_BLOCKS || Covered(entries, b))
  {
    var total := TotalBlocks(entries);
    if b: nat :| total / 8 * 8 <= b < total && !(b < RESERVED_BLOCKS || Covered(entries, b)) {
      assert !UsedAfterInit(entries, b, false);
    }
  }

  /** A map for which the promise fails: one usable entry, and above it a
      one-megabyte hole closed by a second entry too short to hold a block. */
  lemma InitPromiseCanFail()
    ensures var entries := [MapEntry(0, 0x4000000, 1), MapEntry(0x4100FFF, 2, 1)];
            NoWrap(entries) && TotalBlocks(entries) == 16641
            && !UsedAfterInit(entries, 16640, false) && !Covered(entries, 16640)
  {
    var e0, e1 := MapEntry(0, 0x4000000, 1), MapEntry(0x4100FFF, 2, 1);
    var entries := [e0, e1];
    assert entries[..1] == [e0] && [e0][..0] == [];
    assert MaxAddr([e0]) == 0x4000000;
    assert MaxAddr(entries) == 0x4101001;
  }

  /** The memory map of a machine with 512 MB: the block at 64 MB, where exec
      puts the file it is about to load, is free for anybody. */
  lemma LoadAreaIsFree(before: bool)
    ensures var entries := [MapEntry(0x100000, 0x1FF00000, 1)];
            NoWrap(entries) && 0x4000 < TotalBlocks(entries) && !UsedAfterInit(entries, 0x4000, before)
  {
    var e := MapEntry(0x100000, 0x1FF00000, 1);
    var entries := [e];
    assert entries[..0] == [];
    assert MaxAddr(entries) == 0x20000000;
    assert e.Covers(0x4000);
    assert entries[0].Covers(0x4000);
  }

  // ---------------------------------------------------------------------
  // Ownership over whole runs
  // ---------------------------------------------------------------------

  /** The flags, and the blocks handed out and not yet given back. */
  datatype Ledger = Ledger(used: seq<bool>, live: seq<nat>)

  /** A request for a block, or the return of the k-th live one. */
  datatype Op = AllocOp | FreeOp(k: nat)

  predicate Legal(s: Ledger, op: Op)
  {
    op.FreeOp? ==> op.k < |s.live|
  }

  function Step(s: Ledger, op: Op): Ledger
    requires Legal(s, op)
  {
    match op
    case AllocOp =>
      var (used, p) := Alloc(s.used);
      Ledger(used, if p == 0 then s.live else s.live + [p / BLOCK_SIZE])
    case FreeOp(k) =>
      Ledger(Release(s.used, s.live[k] * BLOCK_SIZE), s.live[..k] + s.live[k + 1..])
  }

  predicate LegalRun(s: Ledger, ops: seq<Op>)
    decreases |ops|
  {
    ops == [] || (Legal(s, ops[0]) && LegalRun(Step(s, ops[0]), ops[1..]))
  }

  function Run(s: Ledger, ops: seq<Op>): Ledger
    requires LegalRun(s, ops)
    decreases |ops|
  {
    if ops == [] then s else Run(Step(s, ops[0]), ops[1..])
  }

  /** The flags the machine starts from: everything below 32 MB is in use. */
  predicate Booted(init: seq<bool>)
  {
    forall b :: 0 <= b < |init| && b < RESERVED_BLOCKS ==> init[b]
  }

  /** Who owns what: a block is in use exactly when it was never free or has
      one live owner, and no block has two. */
  ghost predicate Owned(init: seq<bool>, s: Ledger)
  {
    && |s.used| == |init|
    && (forall i :: 0 <= i < |s.live| ==> s.live[i] < |init| && !init[s.live[i]])
    && (forall i, j :: 0 <= i < j < |s.live| ==> s.live[i] != s.live[j])
    && (forall b :: 0 <= b < |init| ==> (s.used[b] <==> init[b] || b in s.live))
  }

  lemma {:induction false} AllocKeepsOwnership(init: seq<bool>, s: Ledger)
    requires Booted(init) && Owned(init, s)
    ensures Owned(init, Step(s, AllocOp))
  {
    var b := FirstFree(s.used);
    if b < |s.used| {
      assert !init[b] && b !in s.live && 0 < b;
      assert Step(s, AllocOp) == Ledger(s.used[b := true], s.live + [b]);
      assert forall c :: c in s.live + [b] <==> c in s.live || c == b;
    } else {
      assert Step(s, AllocOp) == s;
    }
  }

  lemma DropOne(live: seq<nat>, k: nat, b: nat)
    requires k < |live|
    requires forall i, j :: 0 <= i < j < |live| ==> live[i] != live[j]
    ensures b in live[..k] + live[k + 1..] <==> b in live && b != live[k]
  {
    var rest := live[..k] + live[k + 1..];
    if b in live && b != live[k] {
      var i :| 0 <= i < |live| && live[i] == b;
      assert b == rest[if i < k then i else i - 1];
    }
  }

  lemma {:induction false} FreeKeepsOwnership(init: seq<bool>, s: Ledger, k: nat)
    requires Owned(init, s) && k < |s.live|
    ensures Owned(init, Step(s, FreeOp(k)))
  {
    var live := s.live[..k] + s.live[k + 1..];
    assert Step(s, FreeOp(k)) == Ledger(s.used[s.live[k] := false], live);
    forall b ensures b in live <==> b in s.live && b != s.live[k] {
      DropOne(s.live, k, b);
    }
  }

  /** In every run from a booted allocator the ownership account balances and
      no live block lies below 32 MB. */
  lemma {:induction false} RunKeepsOwnership(init: seq<bool>, s: Ledger, ops: seq<Op>)
    requires Booted(init) && Owned(init, s) && LegalRun(s, ops)
    ensures Owned(init, Run(s, ops))
    ensures forall b :: b in Run(s, ops).live ==> 0x200_0000 <= b * BLOCK_SIZE && b < |init|
    decreases |ops|
  {
    if ops != [] {
      if ops[0].AllocOp? {
        AllocKeepsOwnership(init, s);
      } else {
        FreeKeepsOwnership(init, s, ops[0].k);
      }
      RunKeepsOwnership(init, Step(s, ops[0]), ops[1..]);
    }
  }

  /** The address returned in any reachable state: 0 exactly when every block
      is in use, otherwise the lowest block that is neither reserved nor live. */
  lemma AllocReturnsLowestFree(init: seq<bool>, s: Ledger)
    requires Booted(init) && Owned(init, s)
    ensures Alloc(s.used).1 == 0 <==> forall b :: 0 <= b < |init| ==> init[b] || b in s.live
    ensures var b := Alloc(s.used).1 / BLOCK_SIZE;
            Alloc(s.used).1 != 0 ==>
              && RESERVED_BLOCKS <= b < |init| && Alloc(s.used).1 == b * BLOCK_SIZE
              && !init[b] && b !in s.live
              && forall j :: 0 <= j < b ==> init[j] || j in s.live
  {
    var b := FirstFree(s.used);
    if b < |s.used| {
      assert !init[b] && b !in s.live;
    }
  }

  // ---------------------------------------------------------------------
  // The code
  // ---------------------------------------------------------------------

  class FrameAllocator {
    const bitmap: array<nat>
    var totalBlocks: nat

    ghost predicate Valid()
      reads this
    {
      totalBlocks <= 32 * bitmap.Length
    }

    ghost function Used(): (used: seq<bool>)
      requires Valid()
      reads this, bitmap
      ensures |used| == totalBlocks
    {
      Flags(bitmap[..], totalBlocks)
    }

    /** The bitmap lies over whatever memory is found at its fixed address. */
    constructor (region: array<nat>)
      ensures Valid() && bitmap == region && totalBlocks == 0
    {
      bitmap := region;
      totalBlocks := 0;
    }

    method SetBlock(b: nat)
      requires b < 32 * bitmap.Length
      modifies bitmap
      ensures forall c :: 0 <= c < 32 * bitmap.Length ==>
                (BlockBit(bitmap[..], c) <==> c == b || BlockBit(old(bitmap[..]), c))
    {
      ghost var before := bitmap[..];
      bitmap[b / 32] := SetBit(bitmap[b / 32], b % 32);
      forall c | 0 <= c < 32 * bitmap.Length
        ensures BlockBit(bitmap[..], c) <==> c == b || BlockBit(before, c)
      {
        TestAfterSet(before[b / 32], b % 32, c % 32);
      }
    }

    method ClearBlock(b: nat)
      requires b < 32 * bitmap.Length
      modifies bitmap
      ensures forall c :: 0 <= c < 32 * bitmap.Length ==>
                (BlockBit(bitmap[..], c) <==> c != b && BlockBit(old(bitmap[..]), c))
    {
      ghost var before := bitmap[..];
      bitmap[b / 32] := ClearBit(bitmap[b / 32], b % 32);
      forall c | 0 <= c < 32 * bitmap.Length
        ensures BlockBit(bitmap[..], c) <==> c != b && BlockBit(before, c)
      {
        TestAfterClear(before[b / 32], b % 32, c % 32);
      }
    }

    method FindMaxAddr(entries: seq<MapEntry>) returns (maxAddr: nat)
      ensures maxAddr == MaxAddr(entries)
    {
      maxAddr := 0;
      for i := 0 to |entries|
        invariant maxAddr == MaxAddr(entries[..i])
      {
        assert entries[..i + 1][..i] == entries[..i];
        if entries[i].Usable() {
          var end := entries[i].End();
          if end > maxAddr {
            maxAddr := end;
          }
        }
      }
      assert entries[..|entries|] == entries;
    }

    /** memset of the bitmap with 0xff over a whole number of bytes. */
    method FillOnes(bytes: nat)
      requires 8 * bytes <= 32 * bitmap.Length
      modifies bitmap
      ensures forall c :: 0 <= c < 32 * bitmap.Length ==>
                (BlockBit(bitmap[..], c) <==> c < 8 * bytes || BlockBit(old(bitmap[..]), c))
    {
      for b := 0 to 8 * bytes
        invariant forall c :: 0 <= c < 32 * bitmap.Length ==>
                    (BlockBit(bitmap[..], c) <==> c < b || BlockBit(old(bitmap[..]), c))
      {
        SetBlock(b);
      }
    }

    /** Clears the blocks of one usable entry. */
    method ClearRange(start: nat, count: nat)
      requires start + count <= 32 * bitmap.Length
      modifies bitmap
      ensures forall c :: 0 <= c < 32 * bitmap.Length ==>
                (BlockBit(bitmap[..], c) <==> !(start <= c < start + count) && BlockBit(old(bitmap[..]), c))
    {
      for j := 0 to count
        invariant forall c :: 0 <= c < 32 * bitmap.Length ==>
                    (BlockBit(bitmap[..], c) <==> !(start <= c < start + j) && BlockBit(old(bitmap[..]), c))
      {
        ClearBlock(start + j);
      }
    }

    /** init_pmm: the bit of every block, in terms of the memory map. */
    method Init(entries: seq<MapEntry>)
      requires NoWrap(entries)
      requires TotalBlocks(entries) <= 32 * bitmap.Length && RESERVED_BLOCKS <= 32 * bitmap.Length
      modifies this, bitmap
      ensures Valid() && totalBlocks == TotalBlocks(entries)
      ensures forall b :: 0 <= b < totalBlocks ==>
                (Used()[b] <==> UsedAfterInit(entries, b, BlockBit(old(bitmap[..]), b)))
    {
      var maxAddr := FindMaxAddr(entries);
      totalBlocks := maxAddr / BLOCK_SIZE;
      FillOnes(totalBlocks / 8);
      ghost var filled := bitmap[..];
      for i := 0 to |entries|
        invariant totalBlocks == TotalBlocks(entries)
        invariant forall c :: 0 <= c < 32 * bitmap.Length ==>
                    (BlockBit(bitmap[..], c) <==> !Covered(entries[..i], c) && BlockBit(filled, c))
      {
        ghost var before := bitmap[..];
        if entries[i].Usable() {
          assert entries[i].base / BLOCK_SIZE + entries[i].length / BLOCK_SIZE <= totalBlocks by {
            MaxAddrBounds(entries, i);
          }
          ClearRange(entries[i].base / BLOCK_SIZE, entries[i].length / BLOCK_SIZE);
        }
        forall c: nat
          ensures Covered(entries[..i + 1], c) <==> entries[i].Covers(c) || Covered(entries[..i], c)
        {
          CoveredSplit(entries, i, c);
        }
      }
      assert entries[..|entries|] == entries;
      for b := 0 to RESERVED_BLOCKS
        invariant totalBlocks == TotalBlocks(entries)
        invariant forall c :: 0 <= c < 32 * bitmap.Length ==>
                    (BlockBit(bitmap[..], c) <==> c < b || (!Covered(entries, c) && BlockBit(filled, c)))
      {
        SetBlock(b);
      }
    }

    /** pmm_alloc_block */
    method AllocBlock() returns (p: nat)
      requires Valid()
      modifies bitmap
      ensures Valid() && totalBlocks == old(totalBlocks)
      ensures (Used(), p) == Alloc(old(Used()))
    {
      ghost var used := Used();
      for i := 0 to totalBlocks
        invariant bitmap[..] == old(bitmap[..])
        invariant forall j :: 0 <= j < i ==> used[j]
      {
        if !TestBit(bitmap[i / 32], i % 32) {
          assert !used[i];
          assert FirstFree(used) == i;
          SetBlock(i);
          assert Used() == used[i := true];
          return i * BLOCK_SIZE;
        }
      }
      p := 0;
    }

    /** pmm_free_block; it checks nothing, so the caller's address must lie
        under the bitmap. */
    method FreeBlock(p: nat)
      requires Valid() && p / BLOCK_SIZE < 32 * bitmap.Length
      modifies bitmap
      ensures Valid() && totalBlocks == old(totalBlocks)
      ensures Used() == Release(old(Used()), p)
    {
      ClearBlock(p / BLOCK_SIZE);
      assert Used() == Release(old(Used()), p);
    }
  }

  lemma CoveredSplit(entries: seq<MapEntry>, i: nat, c: nat)
    requires i < |entries|
    ensures Covered(entries[..i + 1], c) <==> entries[i].Covers(c) || Covered(entries[..i], c)
  {
    if Covered(entries[..i + 1], c) {
      var k :| 0 <= k < i + 1 && entries[..i + 1][k].Covers(c);
      assert k < i ==> entries[..i][k].Covers(c);
    }
    if Covered(entries[..i], c) {
      var k :| 0 <= k < i && entries[..i][k].Covers(c);
      assert entries[..i + 1][k].Covers(c);
    }
    if entries[i].Covers(c) {
      assert entries[..i + 1][i].Covers(c);
    }
  }
}
