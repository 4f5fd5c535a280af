/** ELF64 images (src/kernel/elf.c) on top of the page loader: what the
    header check accepts, which pages a file asks for, and the virtual image
    that a load leaves behind. */
module Elf {
  import opened Options
  import opened Pmm
  import opened Paging
  import opened Mapping
  import opened Loading
  import opened LoadArea

  const EHDR_SIZE: nat := 64
  const PHDR_SIZE: nat := 56
  const PT_LOAD: nat := 1
  const MAGIC: seq<nat> := [0x7F, 0x45, 0x4C, 0x46]

  /** The little-endian number in n bytes at off. */
  function Le(file: seq<nat>, off: nat, n: nat): nat
    requires off + n <= |file|
    decreases n
  {
    if n == 0 then 0 else file[off] + 256 * Le(file, off + 1, n - 1)
  }

  /** The fields of a program header that the loader reads. */
  datatype Segment = Segment(vaddr: nat, memsz: nat, filesz: nat, offset: nat)

  // ---------------------------------------------------------------------
  // Headers
  // ---------------------------------------------------------------------

  /** The file header. */
  function Ehdr(file: seq<nat>): (h: seq<nat>)
    requires EHDR_SIZE <= |file|
    ensures |h| == EHDR_SIZE
  {
    file[..EHDR_SIZE]
  }

  /** elf_check_file, which looks at the first four bytes and no more. */
  predicate IsElf(file: seq<nat>)
  {
    4 <= |file| && file[..4] == MAGIC
  }

  /** The file's own bytes decide about that: there are four of them, or one
      that does not belong to the mark. */
  predicate Decided(file: seq<nat>)
  {
    4 <= |file| || !(file <= MAGIC)
  }

  /** Whatever comes behind the file in memory, the answer is then that for the
      file. */
  lemma DecidedByFile(frames: seq<Frame>, file: seq<nat>)
    requires AreaBytes(frames, 0, |file|) == file && Decided(file)
    ensures IsElf(AreaBytes(frames, 0, 4)) <==> IsElf(file)
  {
    var mark := AreaBytes(frames, 0, 4);
    assert mark[..4] == mark;
    if 4 <= |file| {
      BufferedSlice(frames, file, 0, 4);
    } else {
      assert file == mark[..|file|];
    }
  }

  /** elf_check_supported: 64-bit, little endian, x86-64, EXEC or DYN. */
  predicate Supported(file: seq<nat>)
    requires EHDR_SIZE <= |file|
  {
    var h := Ehdr(file);
    && IsElf(file) && h[4] == 2 && h[5] == 1
    && Le(h, 18, 2) == 62 && (Le(h, 16, 2) == 2 || Le(h, 16, 2) == 3)
  }

  function EntryPoint(file: seq<nat>): nat
    requires EHDR_SIZE <= |file|
  {
    Le(Ehdr(file), 24, 8)
  }

  /** A 16-bit number. */
  function HeaderCount(file: seq<nat>): (n: nat)
    requires EHDR_SIZE <= |file|
    ensures n < 0x1_0000
  {
    Le(Ehdr(file), 56, 2) % 0x1_0000
  }

  function HeaderOffset(file: seq<nat>, i: nat): nat
    requires EHDR_SIZE <= |file|
  {
    Le(Ehdr(file), 32, 8) + i * PHDR_SIZE
  }

  /** All of this can be told from the header alone. */
  lemma HeaderTells(file: seq<nat>, i: nat)
    requires EHDR_SIZE <= |file|
    ensures var h := Ehdr(file);
            && (IsElf(h) <==> IsElf(file)) && (Supported(h) <==> Supported(file)) && EntryPoint(h) == EntryPoint(file)
            && HeaderCount(h) == HeaderCount(file) && HeaderOffset(h, i) == HeaderOffset(file, i)
  {
    assert Ehdr(Ehdr(file)) == Ehdr(file) && Ehdr(file)[..4] == file[..4];
  }

  /** The header and the program headers it announces are in the buffer. */
  predicate HeadersInside(file: seq<nat>)
  {
    EHDR_SIZE <= |file| && HeaderOffset(file, HeaderCount(file)) <= |file|
  }

  /** The bytes of program header i. */
  function Phdr(file: seq<nat>, i: nat): (h: seq<nat>)
    requires HeadersInside(file) && i < HeaderCount(file)
    ensures |h| == PHDR_SIZE
  {
    assert HeaderOffset(file, i) + PHDR_SIZE <= HeaderOffset(file, HeaderCount(file));
    file[HeaderOffset(file, i)..HeaderOffset(file, i) + PHDR_SIZE]
  }

  predicate AsksForLoad(h: seq<nat>)
    requires |h| == PHDR_SIZE
  {
    Le(h, 0, 4) == PT_LOAD
  }

  function SegmentOf(h: seq<nat>): Segment
    requires |h| == PHDR_SIZE
  {
    Segment(Le(h, 16, 8), Le(h, 40, 8), Le(h, 32, 8), Le(h, 8, 8))
  }

  predicate IsLoad(file: seq<nat>, i: nat)
    requires HeadersInside(file) && i < HeaderCount(file)
  {
    AsksForLoad(Phdr(file, i))
  }

  function SegmentAt(file: seq<nat>, i: nat): Segment
    requires HeadersInside(file) && i < HeaderCount(file)
  {
    SegmentOf(Phdr(file, i))
  }

  // ---------------------------------------------------------------------
  // Pages of a segment
  // ---------------------------------------------------------------------

  function PageStart(s: Segment): nat { s.vaddr / 4096 * 4096 }

  /** The rounded-up end, in 64-bit arithmetic. */
  function PageEnd(s: Segment): nat { (s.vaddr + s.memsz + 4095) % TWO_64 / 4096 * 4096 }

  /** The segment's addresses do not overflow and its bytes are in the buffer. */
  predicate Sane(file: seq<nat>, s: Segment)
  {
    s.vaddr + s.memsz + 4095 < TWO_64 && s.vaddr + s.filesz < TWO_64 && s.offset + s.filesz <= |file|
  }

  /** The byte that the segment promises at a virtual address of its pages. */
  function ImageByte(file: seq<nat>, s: Segment, x: nat): nat
    requires Sane(file, s)
  {
    if s.vaddr <= x < s.vaddr + s.filesz then file[s.offset + (x - s.vaddr)] else 0
  }

  function PageImage(file: seq<nat>, s: Segment, va: nat): (r: seq<nat>)
    requires Sane(file, s)
  {
    seq<nat>(4096, k requires 0 <= k < 4096 => ImageByte(file, s, va + k))
  }

  function Zeros(n: nat): seq<nat> { seq<nat>(n, i requires 0 <= i < n => 0) }

  /** One page of a segment: cleared, then the overlap of the page with the
      segment's file bytes copied in from the load area
      (src/kernel/elf.c:101-123). */
  method FillPage(frames: array<Frame>, s: Segment, va: nat, ghost file: seq<nat>) returns (bytes: seq<nat>)
    ensures |bytes| == 4096
    ensures Sane(file, s) && AreaBytes(frames[..], 0, |file|) == file ==> bytes == PageImage(file, s, va)
  {
    bytes := Zeros(4096);
    var dataStart, dataEnd := s.vaddr, (s.vaddr + s.filesz) % TWO_64;
    var pageEnd := va + 4096;
    var copyStart := if va < dataStart then dataStart else va;
    var copyEnd := if pageEnd > dataEnd then dataEnd else pageEnd;
    if copyStart < copyEnd {
      var len := copyEnd - copyStart;
      var src := s.offset + (copyStart - s.vaddr);
      var dst := copyStart - va;
      bytes := bytes[..dst] + Peek(frames, src, len) + bytes[dst + len..];
      if Sane(file, s) && AreaBytes(frames[..], 0, |file|) == file {
        BufferedSlice(frames[..], file, src, len);
      }
    }
    if Sane(file, s) && AreaBytes(frames[..], 0, |file|) == file {
      ImageIsOverlap(file, s, va, copyStart, copyEnd);
    }
  }

  lemma Spliced(z: seq<nat>, mid: seq<nat>, at: nat, k: nat)
    requires at + |mid| <= |z| && k < |z|
    ensures (z[..at] + mid + z[at + |mid|..])[k] == if at <= k < at + |mid| then mid[k - at] else z[k]
  {
  }

  /** The promised page, put together from the overlap and zeros around it. */
  lemma ImageIsOverlap(file: seq<nat>, s: Segment, va: nat, start: nat, end: nat)
    requires Sane(file, s) && start == (if va < s.vaddr then s.vaddr else va)
    requires end == if va + 4096 > s.vaddr + s.filesz then s.vaddr + s.filesz else va + 4096
    ensures start >= end ==> PageImage(file, s, va) == Zeros(4096)
    ensures start < end ==>
              var src := s.offset + (start - s.vaddr);
              var len := end - start;
              var dst := start - va;
              && src + len <= |file| && dst + len <= 4096
              && PageImage(file, s, va) == Zeros(4096)[..dst] + file[src..src + len] + Zeros(4096)[dst + len..]
  {
    if start < end {
      var src, len, dst := s.offset + (start - s.vaddr), end - start, start - va;
      var r := Zeros(4096)[..dst] + file[src..src + len] + Zeros(4096)[dst + len..];
      forall k | 0 <= k < 4096 ensures r[k] == ImageByte(file, s, va + k) {
        Spliced(Zeros(4096), file[src..src + len], dst, k);
      }
    } else {
      forall k | 0 <= k < 4096 ensures PageImage(file, s, va)[k] == Zeros(4096)[k] {
        var x := va + k;
        assert !(s.vaddr <= x < s.vaddr + s.filesz);
        assert PageImage(file, s, va)[k] == ImageByte(file, s, x);
      }
    }
  }

  function LoadOf(file: seq<nat>, s: Segment, va: nat): PageLoad
    requires Sane(file, s)
  {
    PageLoad(PathOf(va), PageImage(file, s, va))
  }

  function PageCount(s: Segment): nat
  {
    if PageStart(s) < PageEnd(s) then (PageEnd(s) - PageStart(s)) / 4096 else 0
  }

  /** The pages of s, in the order they are loaded. */
  function Pages(file: seq<nat>, s: Segment): (r: seq<PageLoad>)
    requires Sane(file, s)
  {
    seq(PageCount(s), i requires 0 <= i < PageCount(s) => LoadOf(file, s, PageStart(s) + i * 4096))
  }

  /** The page loop's guard, in terms of the number of pages done. */
  lemma MorePages(s: Segment, j: nat)
    ensures PageStart(s) + j * 4096 < PageEnd(s) <==> j < PageCount(s)
  {
    var a, b := s.vaddr / 4096, (s.vaddr + s.memsz + 4095) % TWO_64 / 4096;
    assert PageStart(s) == a * 4096 && PageEnd(s) == b * 4096;
    assert PageCount(s) == if a < b then b - a else 0;
  }

  /** The PT_LOAD segments from header i on. */
  function Loadable(file: seq<nat>, i: nat := 0): seq<Segment>
    requires HeadersInside(file) && i <= HeaderCount(file)
    decreases HeaderCount(file) - i
  {
    if i == HeaderCount(file) then []
    else if IsLoad(file, i) then [SegmentAt(file, i)] + Loadable(file, i + 1)
    else Loadable(file, i + 1)
  }

  predicate AllSane(file: seq<nat>, segs: seq<Segment>)
  {
    forall i :: 0 <= i < |segs| ==> Sane(file, segs[i])
  }

  /** All pages that a list of segments asks for, in loading order. */
  function Plan(file: seq<nat>, segs: seq<Segment>): (r: seq<PageLoad>)
    requires AllSane(file, segs)
    ensures forall k :: 0 <= k < |r| ==> FullPath(r[k].path)
  {
    if segs == [] then [] else Pages(file, segs[0]) + Plan(file, segs[1..])
  }

  // ---------------------------------------------------------------------
  // The image
  // ---------------------------------------------------------------------

  /** The byte a program sees at virtual address x, on a page that is open to
      user mode. */
  function VirtualByte(ph: Phys, root: nat, x: nat): Option<nat>
  {
    match Lookup(ph, root, PathOf(x))
    case None => None
    case Some(e) =>
      var f := EntryFrame(e);
      if Open(e) && f < |ph.frames| && ph.frames[f].Page? && x % 4096 < |ph.frames[f].bytes|
      then Some(ph.frames[f].bytes[x % 4096]) else None
  }

  /** The byte lies where the address is translated to. */
  lemma SeenIsTranslated(ph: Phys, root: nat, x: nat)
    requires VirtualByte(ph, root, x).Some?
    ensures var a := Translate(ph, root, x);
            && a.Some? && a.value / 4096 < |ph.frames| && ph.frames[a.value / 4096].Page?
            && a.value % 4096 < |ph.frames[a.value / 4096].bytes|
            && VirtualByte(ph, root, x) == Some(ph.frames[a.value / 4096].bytes[a.value % 4096])
  {
    var f := EntryFrame(Lookup(ph, root, PathOf(x)).value);
    assert (f * BLOCK_SIZE + x % BLOCK_SIZE) / 4096 == f;
  }

  /** The page of address x reaches into [vaddr, vaddr + memsz), or has its
      empty place strictly inside. */
  predicate Meets(s: Segment, x: nat)
  {
    var va := x / 4096 * 4096;
    va < s.vaddr + s.memsz && s.vaddr < va + 4096
  }

  /** Every byte of every page that a segment meets is as the file says: file
      contents inside [vaddr, vaddr + filesz), zero around them. */
  ghost predicate ImageLoaded(ph: Phys, root: nat, file: seq<nat>, segs: seq<Segment>)
    requires AllSane(file, segs)
  {
    forall i, x: nat :: 0 <= i < |segs| && Meets(segs[i], x) ==>
                          VirtualByte(ph, root, x) == Some(ImageByte(file, segs[i], x))
  }

  /** The loop's bounds are the pages that the segment meets, and no others. */
  lemma MeetsExactly(file: seq<nat>, s: Segment, x: nat)
    requires Sane(file, s)
    ensures Meets(s, x) <==> PageStart(s) <= x < PageEnd(s)
  {
    var p, end := x / 4096, s.vaddr + s.memsz;
    assert PageEnd(s) == (end + 4095) / 4096 * 4096;
    assert p * 4096 < end <==> p < (end + 4095) / 4096;
    assert s.vaddr < p * 4096 + 4096 <==> s.vaddr / 4096 <= p;
  }

  /** A page is planned for a segment exactly if the segment meets it. */
  lemma PlannedExactly(file: seq<nat>, s: Segment, va: nat)
    requires Sane(file, s) && va % 4096 == 0
    ensures (exists j :: 0 <= j < |Pages(file, s)| && va == PageStart(s) + j * 4096) <==> Meets(s, va)
    ensures forall j :: 0 <= j < |Pages(file, s)| ==> Pages(file, s)[j].path == PathOf(PageStart(s) + j * 4096)
  {
    MeetsExactly(file, s, va);
    if Meets(s, va) {
      var j := PageIndex(s, va);
      assert va == PageStart(s) + j * 4096;
    }
    if j :| 0 <= j < |Pages(file, s)| && va == PageStart(s) + j * 4096 {
      MorePages(s, j);
    }
  }

  /** What a program sees of its segment, in terms of the header alone: the
      file's bytes first, then zeros to the end of its memory. */
  lemma SegmentIsSeen(ph: Phys, root: nat, file: seq<nat>, segs: seq<Segment>, i: nat, x: nat)
    requires AllSane(file, segs) && ImageLoaded(ph, root, file, segs) && i < |segs|
    requires segs[i].vaddr <= x < segs[i].vaddr + segs[i].memsz
    ensures var s := segs[i];
            && (x < s.vaddr + s.filesz ==>
                  s.offset + (x - s.vaddr) < |file|
                  && VirtualByte(ph, root, x) == Some(file[s.offset + (x - s.vaddr)]))
            && (s.vaddr + s.filesz <= x ==> VirtualByte(ph, root, x) == Some(0))
  {
    assert Meets(segs[i], x);
  }

  /** A page in place shows the bytes of its segment, and no other way. */
  lemma HoldsShowsByte(ph: Phys, root: nat, file: seq<nat>, s: Segment, va: nat, k: nat)
    requires Sane(file, s) && va % 4096 == 0 && k < 4096
    requires Holds(ph, root, LoadOf(file, s, va))
    ensures VirtualByte(ph, root, va + k) == Some(ImageByte(file, s, va + k))
  {
    SamePage(va, k);
  }

  lemma SamePage(va: nat, k: nat)
    requires va % 4096 == 0 && k < 4096
    ensures PathOf(va + k) == PathOf(va) && (va + k) % 4096 == k
  {
    assert (va + k) / 0x1000 == va / 0x1000;
    PathNamesPage(va, va + k);
  }

  lemma {:induction false} PageInPlan(file: seq<nat>, segs: seq<Segment>, i: nat, j: nat) returns (k: nat)
    requires AllSane(file, segs) && i < |segs| && j < PageCount(segs[i])
    ensures k < |Plan(file, segs)| && Plan(file, segs)[k] == Pages(file, segs[i])[j]
    decreases |segs|
  {
    if i == 0 {
      k := j;
    } else {
      k := PageInPlan(file, segs[1..], i - 1, j);
      k := k + |Pages(file, segs[0])|;
    }
  }

  lemma {:induction false} PlanPage(file: seq<nat>, segs: seq<Segment>, k: nat) returns (i: nat, j: nat)
    requires AllSane(file, segs) && k < |Plan(file, segs)|
    ensures i < |segs| && j < PageCount(segs[i])
    ensures Plan(file, segs)[k] == Pages(file, segs[i])[j]
    decreases |segs|
  {
    var n := |Pages(file, segs[0])|;
    if k < n {
      i, j := 0, k;
    } else {
      i, j := PlanPage(file, segs[1..], k - n);
      i := i + 1;
    }
  }

  /** Where an address of a segment's pages falls. */
  lemma PageIndex(s: Segment, x: nat) returns (j: nat)
    requires PageStart(s) <= x < PageEnd(s)
    ensures j < PageCount(s)
    ensures var va := PageStart(s) + j * 4096; va % 4096 == 0 && va <= x < va + 4096
  {
    j := (x - PageStart(s)) / 4096;
  }

  lemma PagesHeldShowByte(ph: Phys, root: nat, file: seq<nat>, s: Segment, x: nat, j: nat)
    requires Sane(file, s) && j < PageCount(s) && Holds(ph, root, Pages(file, s)[j])
    requires var va := PageStart(s) + j * 4096; va % 4096 == 0 && va <= x < va + 4096
    ensures VirtualByte(ph, root, x) == Some(ImageByte(file, s, x))
  {
    var va := PageStart(s) + j * 4096;
    assert Pages(file, s)[j] == LoadOf(file, s, va);
    HoldsShowsByte(ph, root, file, s, va, x - va);
  }

  lemma PlanHeldShowsImage(ph: Phys, root: nat, file: seq<nat>, segs: seq<Segment>)
    requires AllSane(file, segs)
    requires forall k :: 0 <= k < |Plan(file, segs)| ==> Holds(ph, root, Plan(file, segs)[k])
    ensures ImageLoaded(ph, root, file, segs)
  {
    forall i, x: nat | 0 <= i < |segs| && Meets(segs[i], x)
      ensures VirtualByte(ph, root, x) == Some(ImageByte(file, segs[i], x))
    {
      MeetsExactly(file, segs[i], x);
      var j := PageIndex(segs[i], x);
      var k := PageInPlan(file, segs, i, j);
      PagesHeldShowByte(ph, root, file, segs[i], x, j);
    }
  }

  lemma LostPageSpoilsImage(ph: Phys, root: nat, file: seq<nat>, segs: seq<Segment>, k: nat)
    requires AllSane(file, segs) && k < |Plan(file, segs)| && Lookup(ph, root, Plan(file, segs)[k].path) == None
    ensures !ImageLoaded(ph, root, file, segs)
  {
    var i, j := PlanPage(file, segs, k);
    PageWithin(segs[i], j);
    MeetsExactly(file, segs[i], PageStart(segs[i]) + j * 4096);
    assert VirtualByte(ph, root, PageStart(segs[i]) + j * 4096) == None;
  }

  lemma PageWithin(s: Segment, j: nat)
    requires j < PageCount(s)
    ensures PageStart(s) <= PageStart(s) + j * 4096 < PageEnd(s)
  {
    MorePages(s, j);
  }

  /** For segments that share no page: when the loader reports success, the
      virtual image equals the file's segments exactly if the free frames
      covered its pages and missing tables. */
  lemma ElfImageExactly(trace: seq<Phys>, places: map<nat, Place>, root: nat, file: seq<nat>, segs: seq<Segment>)
    requires AllSane(file, segs) && DistinctPages(Plan(file, segs))
    requires Loads(trace, root, Plan(file, segs)) && |trace| == |Plan(file, segs)| + 1
    requires Separated(trace[0], places) && IsRoot(places, root)
    ensures ImageLoaded(trace[|trace| - 1], root, file, segs)
            <==> Demand(trace[0], root, Plan(file, segs)) <= FreeCount(trace[0].used)
  {
    var plan := Plan(file, segs);
    if Demand(trace[0], root, plan) <= FreeCount(trace[0].used) {
      LoadedExactly(trace, places, root, plan);
      PlanHeldShowsImage(trace[|plan|], root, file, segs);
    } else {
      var k := TooFewFrames(trace, places, root, plan);
      LostPageSpoilsImage(trace[|plan|], root, file, segs, k);
    }
  }

  /** The plan of a file, header by header. */
  lemma PlanOfHeader(file: seq<nat>, i: nat)
    requires HeadersInside(file) && i < HeaderCount(file) && AllSane(file, Loadable(file, i))
    ensures AllSane(file, Loadable(file, i + 1))
    ensures IsLoad(file, i) ==> Sane(file, SegmentAt(file, i))
    ensures Plan(file, Loadable(file, i)) ==
            if IsLoad(file, i) then Pages(file, SegmentAt(file, i)) + Plan(file, Loadable(file, i + 1))
            else Plan(file, Loadable(file, i + 1))
  {
    if IsLoad(file, i) {
      var segs, rest := Loadable(file, i), Loadable(file, i + 1);
      assert segs == [SegmentAt(file, i)] + rest && segs[1..] == rest && segs[0] == SegmentAt(file, i);
      assert forall j :: 0 <= j < |rest| ==> rest[j] == segs[j + 1];
    }
  }
}
