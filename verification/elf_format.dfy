/** The ELF64 structures of includes/elf.h:19-73 written out field by field, and
    that the loader reads from such bytes what was written. */
module ElfFormat {
  import opened Pmm
  import opened LoadArea
  import opened Elf

  /** Elf64_Ehdr; ident are the bytes of e_ident behind EI_DATA. */
  datatype FileHeader = FileHeader(
    wordSize: nat, data: nat, ident: seq<nat>, kind: nat, machine: nat, version: nat,
    entry: nat, phoff: nat, shoff: nat, flags: nat,
    ehsize: nat, phentsize: nat, phnum: nat, shentsize: nat, shnum: nat, shstrndx: nat)

  /** Elf64_Phdr */
  datatype ProgramHeader = ProgramHeader(
    kind: nat, flags: nat, offset: nat, vaddr: nat, paddr: nat, filesz: nat, memsz: nat, align: nat)

  // ---------------------------------------------------------------------
  // Numbers
  // ---------------------------------------------------------------------

  /** v in n bytes, lowest first. */
  function LeBytes(v: nat, n: nat): (r: seq<nat>)
    ensures |r| == n
  {
    if n == 0 then [] else [v % 256] + LeBytes(v / 256, n - 1)
  }

  lemma {:induction false} NumberReadsBack(file: seq<nat>, off: nat, v: nat, n: nat)
    requires off + n <= |file| && file[off..off + n] == LeBytes(v, n) && v < Pow256(n)
    ensures Le(file, off, n) == v
    decreases n
  {
    if n > 0 {
      assert file[off] == file[off..off + n][0] == v % 256;
      assert file[off + 1..off + n] == file[off..off + n][1..] == LeBytes(v / 256, n - 1);
      NumberReadsBack(file, off + 1, v / 256, n - 1);
    }
  }

  lemma Widths()
    ensures Pow256(2) == 0x1_0000 && Pow256(4) == 0x1_0000_0000 && Pow256(8) == TWO_64
  {
    assert Pow256(1) == 256 && Pow256(3) == 0x100_0000 && Pow256(5) == 0x100_0000_0000;
    assert Pow256(6) == 0x1_0000_0000_0000 && Pow256(7) == 0x100_0000_0000_0000;
  }

  // ---------------------------------------------------------------------
  // The file header
  // ---------------------------------------------------------------------

  predicate HeaderInRange(h: FileHeader)
  {
    && |h.ident| == 10 && h.kind < 0x1_0000 && h.machine < 0x1_0000 && h.entry < TWO_64 && h.phoff < TWO_64
    && h.phnum < 0x1_0000
  }

  /** e_ident */
  function Ident(h: FileHeader): (r: seq<nat>)
    requires HeaderInRange(h)
    ensures |r| == 16
  {
    [0x7F, 0x45, 0x4C, 0x46, h.wordSize, h.data] + h.ident
  }

  /** From e_type to e_shoff. */
  function Middle(h: FileHeader): (r: seq<nat>)
    ensures |r| == 32
  {
    LeBytes(h.kind, 2) + LeBytes(h.machine, 2) + LeBytes(h.version, 4)
    + LeBytes(h.entry, 8) + LeBytes(h.phoff, 8) + LeBytes(h.shoff, 8)
  }

  /** From e_flags to e_shstrndx. */
  function Rest(h: FileHeader): (r: seq<nat>)
    ensures |r| == 16
  {
    LeBytes(h.flags, 4) + LeBytes(h.ehsize, 2) + LeBytes(h.phentsize, 2) + LeBytes(h.phnum, 2)
    + LeBytes(h.shentsize, 2) + LeBytes(h.shnum, 2) + LeBytes(h.shstrndx, 2)
  }

  function EncodeHeader(h: FileHeader): (r: seq<nat>)
    requires HeaderInRange(h)
    ensures |r| == EHDR_SIZE
  {
    Ident(h) + Middle(h) + Rest(h)
  }

  /** Where the fields lie that the loader looks at. */
  lemma MiddleLayout(h: FileHeader)
    ensures var r := Middle(h);
            && r[0..2] == LeBytes(h.kind, 2) && r[2..4] == LeBytes(h.machine, 2)
            && r[8..16] == LeBytes(h.entry, 8) && r[16..24] == LeBytes(h.phoff, 8)
  {
  }

  lemma RestLayout(h: FileHeader)
    ensures Rest(h)[8..10] == LeBytes(h.phnum, 2)
  {
  }

  lemma HeaderLayout(h: FileHeader)
    requires HeaderInRange(h)
    ensures var r := EncodeHeader(h);
            && r[..4] == MAGIC && r[4] == h.wordSize && r[5] == h.data
            && r[16..18] == LeBytes(h.kind, 2) && r[18..20] == LeBytes(h.machine, 2)
            && r[24..32] == LeBytes(h.entry, 8) && r[32..40] == LeBytes(h.phoff, 8)
            && r[56..58] == LeBytes(h.phnum, 2)
  {
    MiddleLayout(h);
    RestLayout(h);
    Parts(Ident(h), Middle(h), Rest(h));
    assert Ident(h)[..4] == MAGIC;
  }

  lemma Parts(a: seq<nat>, b: seq<nat>, c: seq<nat>)
    requires |a| == 16 && |b| == 32 && |c| == 16
    ensures var r := a + b + c;
            && r[..4] == a[..4] && r[4] == a[4] && r[5] == a[5]
            && r[16..18] == b[0..2] && r[18..20] == b[2..4] && r[24..32] == b[8..16] && r[32..40] == b[16..24]
            && r[56..58] == c[8..10]
  {
  }

  /** The loader's view of a file that begins with the header. */
  lemma HeaderReadsBack(h: FileHeader, rest: seq<nat>, i: nat)
    requires HeaderInRange(h)
    ensures var file := EncodeHeader(h) + rest;
            && IsElf(file) && EHDR_SIZE <= |file|
            && (Supported(file) <==> h.wordSize == 2 && h.data == 1 && h.machine == 62 && (h.kind == 2 || h.kind == 3))
            && EntryPoint(file) == h.entry && HeaderCount(file) == h.phnum
            && HeaderOffset(file, i) == h.phoff + i * PHDR_SIZE
  {
    var r := EncodeHeader(h);
    var file := r + rest;
    assert Ehdr(file) == r;
    HeaderLayout(h);
    Widths();
    assert file[..4] == r[..4];
    NumberReadsBack(r, 16, h.kind, 2);
    NumberReadsBack(r, 18, h.machine, 2);
    NumberReadsBack(r, 24, h.entry, 8);
    NumberReadsBack(r, 32, h.phoff, 8);
    NumberReadsBack(r, 56, h.phnum, 2);
  }

  // ---------------------------------------------------------------------
  // Program headers
  // ---------------------------------------------------------------------

  predicate InRange(p: ProgramHeader)
  {
    && p.kind < 0x1_0000_0000 && p.offset < TWO_64 && p.vaddr < TWO_64 && p.filesz < TWO_64 && p.memsz < TWO_64
  }

  /** From p_type to p_vaddr. */
  function Front(p: ProgramHeader): (r: seq<nat>)
    ensures |r| == 24
  {
    LeBytes(p.kind, 4) + LeBytes(p.flags, 4) + LeBytes(p.offset, 8) + LeBytes(p.vaddr, 8)
  }

  /** From p_paddr to p_align. */
  function Back(p: ProgramHeader): (r: seq<nat>)
    ensures |r| == 32
  {
    LeBytes(p.paddr, 8) + LeBytes(p.filesz, 8) + LeBytes(p.memsz, 8) + LeBytes(p.align, 8)
  }

  function Encode(p: ProgramHeader): (r: seq<nat>)
    ensures |r| == PHDR_SIZE
  {
    Front(p) + Back(p)
  }

  lemma FrontLayout(p: ProgramHeader)
    ensures var r := Front(p);
            r[0..4] == LeBytes(p.kind, 4) && r[8..16] == LeBytes(p.offset, 8) && r[16..24] == LeBytes(p.vaddr, 8)
  {
  }

  lemma BackLayout(p: ProgramHeader)
    ensures Back(p)[8..16] == LeBytes(p.filesz, 8) && Back(p)[16..24] == LeBytes(p.memsz, 8)
  {
  }

  lemma Halves(a: seq<nat>, b: seq<nat>)
    requires |a| == 24 && |b| == 32
    ensures var r := a + b;
            && r[0..4] == a[0..4] && r[8..16] == a[8..16] && r[16..24] == a[16..24]
            && r[32..40] == b[8..16] && r[40..48] == b[16..24]
  {
  }

  lemma SegmentReadsBack(p: ProgramHeader)
    requires InRange(p)
    ensures SegmentOf(Encode(p)) == Segment(p.vaddr, p.memsz, p.filesz, p.offset)
    ensures AsksForLoad(Encode(p)) <==> p.kind == 1
  {
    var r := Encode(p);
    FrontLayout(p);
    BackLayout(p);
    Halves(Front(p), Back(p));
    Widths();
    NumberReadsBack(r, 0, p.kind, 4);
    NumberReadsBack(r, 8, p.offset, 8);
    NumberReadsBack(r, 16, p.vaddr, 8);
    NumberReadsBack(r, 32, p.filesz, 8);
    NumberReadsBack(r, 40, p.memsz, 8);
  }

  // ---------------------------------------------------------------------
  // Whole files
  // ---------------------------------------------------------------------

  function EncodeAll(ps: seq<ProgramHeader>): (r: seq<nat>)
    ensures |r| == |ps| * PHDR_SIZE
  {
    if ps == [] then [] else Encode(ps[0]) + EncodeAll(ps[1..])
  }

  lemma {:induction false} HeaderAt(ps: seq<ProgramHeader>, i: nat)
    requires i < |ps|
    ensures i * PHDR_SIZE + PHDR_SIZE <= |EncodeAll(ps)|
    ensures EncodeAll(ps)[i * PHDR_SIZE..i * PHDR_SIZE + PHDR_SIZE] == Encode(ps[i])
    decreases |ps|
  {
    if i > 0 {
      HeaderAt(ps[1..], i - 1);
      var a, at := EncodeAll(ps), i * PHDR_SIZE;
      assert a[at..at + PHDR_SIZE] == EncodeAll(ps[1..])[at - PHDR_SIZE..at];
    }
  }

  /** A file with its program headers somewhere behind the file header. */
  predicate WellMade(h: FileHeader, gap: seq<nat>, ps: seq<ProgramHeader>)
  {
    && HeaderInRange(h) && h.phoff == EHDR_SIZE + |gap| && h.phnum == |ps|
    && forall i :: 0 <= i < |ps| ==> InRange(ps[i])
  }

  function FileOf(h: FileHeader, gap: seq<nat>, ps: seq<ProgramHeader>, body: seq<nat>): seq<nat>
    requires WellMade(h, gap, ps)
  {
    EncodeHeader(h) + (gap + EncodeAll(ps) + body)
  }

  lemma FileHeaderAt(h: FileHeader, gap: seq<nat>, ps: seq<ProgramHeader>, body: seq<nat>, i: nat)
    requires WellMade(h, gap, ps) && i < |ps|
    ensures var file := FileOf(h, gap, ps, body);
            HeadersInside(file) && i < HeaderCount(file) && Phdr(file, i) == Encode(ps[i])
  {
    var file := FileOf(h, gap, ps, body);
    HeaderReadsBack(h, gap + EncodeAll(ps) + body, i);
    HeaderReadsBack(h, gap + EncodeAll(ps) + body, |ps|);
    HeaderAt(ps, i);
    var at, a := i * PHDR_SIZE, EncodeAll(ps);
    assert file[h.phoff + at..h.phoff + at + PHDR_SIZE] == a[at..at + PHDR_SIZE];
  }

  /** The segments that a list of program headers asks for. */
  function Wanted(ps: seq<ProgramHeader>, i: nat): (segs: seq<Segment>)
    requires i <= |ps|
    decreases |ps| - i
  {
    if i == |ps| then []
    else if ps[i].kind == 1 then
      [Segment(ps[i].vaddr, ps[i].memsz, ps[i].filesz, ps[i].offset)] + Wanted(ps, i + 1)
    else Wanted(ps, i + 1)
  }

  lemma {:induction false} SegmentsReadBack(h: FileHeader, gap: seq<nat>, ps: seq<ProgramHeader>, body: seq<nat>,
                                            i: nat)
    requires WellMade(h, gap, ps) && i <= |ps|
    ensures var file := FileOf(h, gap, ps, body);
            HeadersInside(file) && i <= HeaderCount(file) && Loadable(file, i) == Wanted(ps, i)
    decreases |ps| - i
  {
    HeaderReadsBack(h, gap + EncodeAll(ps) + body, |ps|);
    if i < |ps| {
      FileHeaderAt(h, gap, ps, body, i);
      SegmentReadsBack(ps[i]);
      SegmentsReadBack(h, gap, ps, body, i + 1);
    }
  }

  /** What was written into the headers is what will be loaded, and where the
      program will start. */
  lemma FileReadsBack(h: FileHeader, gap: seq<nat>, ps: seq<ProgramHeader>, body: seq<nat>)
    requires WellMade(h, gap, ps)
    ensures var file := FileOf(h, gap, ps, body);
            && HeadersInside(file) && IsElf(file) && EntryPoint(file) == h.entry && Loadable(file) == Wanted(ps, 0)
            && (Supported(file) <==> h.wordSize == 2 && h.data == 1 && h.machine == 62 && (h.kind == 2 || h.kind == 3))
  {
    HeaderReadsBack(h, gap + EncodeAll(ps) + body, 0);
    SegmentsReadBack(h, gap, ps, body, 0);
  }
}
