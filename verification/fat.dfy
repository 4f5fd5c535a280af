/** The FAT16 driver (src/fs/fat.c) over a disk of 512-byte sectors, and the
    shell commands that use it (src/kernel/kernel.c:379-494). Every method is
    proved against the functions on volumes and directories. */
module Fat16 {
  import opened Options
  import opened FatTable
  import opened Names
  import opened Directory
  import opened Volume
  import opened FileTree
  import opened Mount
  import opened Sessions

  // ---------------------------------------------------------------------
  // Sectors and tables
  // ---------------------------------------------------------------------

  /** A write outside the first FAT copy leaves the table as it is. */
  lemma TableFrame(disk: seq<Sector>, at: nat, s: Sector, first: nat, n: nat)
    requires WellFormed(disk) && first + n <= at < |disk| && |s| == 512
    ensures WellFormed(disk[at := s]) && Table(disk[at := s], first, n) == Table(disk, first, n)
  {
  }

  /** Where sector idx of a directory lies: in which cluster of its chain, and
      where in that cluster. */
  function StepsTo(idx: nat, spc: nat): nat
    requires spc >= 1
  {
    idx / spc
  }

  function OffsetIn(idx: nat, spc: nat): nat
    requires spc >= 1
  {
    idx % spc
  }

  lemma StepsAndOffset(idx: nat, spc: nat)
    requires spc >= 1
    ensures idx == StepsTo(idx, spc) * spc + OffsetIn(idx, spc) && OffsetIn(idx, spc) < spc
  {
  }

  lemma StepsExactly(q: nat, spc: nat)
    requires spc >= 1
    ensures q * spc % spc == 0 && q * spc / spc == q
  {
    StepsAndOffset(q * spc, spc);
    var p := StepsTo(q * spc, spc);
    if p < q {
      MulGrows(p, q, spc);
    } else if q < p {
      MulGrows(q, p, spc);
    }
  }

  lemma StepsWithin(idx: nat, spc: nat, n: nat)
    requires spc >= 1
    ensures StepsTo(idx, spc) < n <==> idx < n * spc
  {
    StepsAndOffset(idx, spc);
    var q := StepsTo(idx, spc);
    if q < n {
      MulGrows(q, n, spc);
    } else if n < q {
      MulGrows(n, q, spc);
    }
  }

  /** Where the walk along a chain ends up: sector idx of the directory. */
  lemma WalkReaches(v: Vol, cs: seq<nat>, idx: nat)
    requires v.spc >= 1 && StepsTo(idx, v.spc) < |cs|
    ensures idx < |cs| * v.spc
    ensures ChainSectors(v, cs)[idx] == ClusterStart(v, cs[StepsTo(idx, v.spc)]) + OffsetIn(idx, v.spc)
  {
    StepsAndOffset(idx, v.spc);
    ChainSectorAt(v, cs, StepsTo(idx, v.spc), OffsetIn(idx, v.spc));
  }

  /** Slot k of sector i of a directory is its entry 16 i + k. */
  lemma EntryAt(v: Vol, ss: seq<nat>, i: nat, k: nat)
    requires OnVolume(v, ss) && i < |ss| && k < 16
    ensures Entries(v, ss)[16 * i + k] == Slot(v.sec[ss[i]], k)
  {
  }

  /** Creating an entry, seen from the sector that takes it. */
  lemma CreateInIs(v: Vol, ss: seq<nat>, i: nat, k: nat, f: seq<nat>, attr: nat, c: nat, size: nat)
    requires OnVolume(v, ss) && i < |ss| && k < 16 && FreeSlot(Entries(v, ss)) == 16 * i + k
    ensures var buf := v.sec[ss[i]];
            CreateIn(v, ss, f, attr, c, size)
            == (v.(sec := v.sec[ss[i] := Volume.PutSlot(buf, k, NewEntry(Slot(buf, k), f, attr, c, size))]), true)
  {
    EntryAt(v, ss, i, k);
    WriteSlotIs(v, ss, i, k, NewEntry(Slot(v.sec[ss[i]], k), f, attr, c, size));
  }

  lemma WriteSlotIs(v: Vol, ss: seq<nat>, i: nat, k: nat, e: Entry)
    requires OnVolume(v, ss) && i < |ss| && k < 16
    ensures WriteSlot(v, ss, 16 * i + k, e) == v.(sec := v.sec[ss[i] := Volume.PutSlot(v.sec[ss[i]], k, e)])
  {
  }

  // ---------------------------------------------------------------------
  // One sector of a directory
  // ---------------------------------------------------------------------

  /** buf holds the 16 entries of es from base on. */
  ghost predicate Holds16(es: seq<Entry>, base: nat, buf: Sector)
  {
    |buf| == 512 && base + 16 <= |es| && base % 16 == 0 && forall k :: 0 <= k < 16 ==> es[base + k] == Slot(buf, k)
  }

  /** One slot of a search by name. */
  method IsWanted(e: Entry, g: seq<nat>, volumes: bool) returns (wanted: bool)
    requires CString(g)
    ensures wanted <==> Live(e) && (volumes || !IsVolume(e)) && Named(e, g)
  {
    wanted := false;
    if e[0] != 0 && e[0] != DELETED && (volumes || !IsVolume(e)) {
      wanted := FilenameMatch(e[..8], e[8..11], g);
    }
  }

  method FindInSector(buf: Sector, g: seq<nat>, ghost es: seq<Entry>, ghost base: nat)
    returns (hit: bool, stop: bool, k: nat)
    requires Holds16(es, base, buf) && CString(g)
    ensures hit ==> k < 16 && Find(es, g, base).Some? && Find(es, g, base).value == base + k
    ensures !hit && stop ==> Find(es, g, base) == None
    ensures !hit && !stop ==> Find(es, g, base) == Find(es, g, base + 16)
  {
    k := 0;
    ghost var r := Find(es, g, base);
    while k < 16
      invariant 0 <= k <= 16
      invariant r == Find(es, g, base + k)
    {
      var e := Slot(buf, k);
      assert es[base + k] == e;
      if e[0] == 0 {
        return false, true, k;
      }
      var found := IsWanted(e, g, false);
      if found {
        return true, false, k;
      }
      k := k + 1;
    }
    return false, false, 16;
  }

  /** The rest of a sector with an end marker is skipped. */
  lemma EndSkips(es: seq<Entry>, g: seq<nat>, volumes: bool, base: nat, k: nat)
    requires base % 16 == 0 && k < 16 && base + k < |es| && IsEnd(es[base + k])
    ensures FindToDelete(es, g, volumes, base + k) == FindToDelete(es, g, volumes, base + 16)
  {
    assert (base + k) % PER_SECTOR == k;
  }

  method FindToDeleteInSector(buf: Sector, g: seq<nat>, volumes: bool,
                              ghost es: seq<Entry>, ghost base: nat, ghost r: Option<nat>)
    returns (hit: bool, k: nat)
    requires Holds16(es, base, buf) && CString(g) && r == FindToDelete(es, g, volumes, base)
    ensures hit ==> k < 16 && r.Some? && r.value == base + k
    ensures !hit ==> r == FindToDelete(es, g, volumes, base + 16)
  {
    k := 0;
    while k < 16
      invariant 0 <= k <= 16
      invariant r == FindToDelete(es, g, volumes, base + k)
    {
      var e := Slot(buf, k);
      assert es[base + k] == e;
      if e[0] == 0 {
        EndSkips(es, g, volumes, base, k);
        return false, k;
      }
      hit := IsWanted(e, g, volumes);
      if hit {
        return;
      }
      k := k + 1;
    }
    return false, 16;
  }

  method FreeSlotInSector(buf: Sector, ghost es: seq<Entry>, ghost base: nat) returns (k: nat)
    requires Holds16(es, base, buf)
    ensures k <= 16 && FreeSlot(es, base) == FreeSlot(es, base + k)
    ensures k < 16 ==> FreeSlot(es, base) == base + k
  {
    k := 0;
    while k < 16
      invariant 0 <= k <= 16
      invariant FreeSlot(es, base) == FreeSlot(es, base + k)
    {
      var e := Slot(buf, k);
      assert es[base + k] == e;
      if e[0] == 0 || e[0] == DELETED {
        return;
      }
      k := k + 1;
    }
  }

  /** Whether the sector settles the question if the directory is empty. */
  method EmptyInSector(buf: Sector, ghost es: seq<Entry>, ghost base: nat) returns (settled: bool, empty: bool)
    requires Holds16(es, base, buf)
    ensures settled ==> (empty <==> IsEmpty(es, base))
    ensures !settled ==> (IsEmpty(es, base) <==> IsEmpty(es, base + 16))
  {
    var k := 0;
    while k < 16
      invariant 0 <= k <= 16
      invariant IsEmpty(es, base) <==> IsEmpty(es, base + k)
    {
      var e := Slot(buf, k);
      assert es[base + k] == e;
      if e[0] == 0 {
        return true, true;
      }
      if e[0] != DELETED && !(e[0] == DOT && (e[1] == SPACE || (e[1] == DOT && e[2] == SPACE))) {
        return true, false;
      }
      k := k + 1;
    }
    return false, false;
  }

  /** The first cluster and the size, the last six bytes of an entry. */
  method PutData(e: Entry, cluster: nat, size: nat) returns (r: Entry)
    ensures r == e[..26] + [cluster % 256, cluster / 256]
                 + [size % 256, size / 256 % 256, size / 0x1_0000 % 256, size / 0x100_0000]
  {
    var s: seq<nat> := e[26 := cluster % 256][27 := cluster / 256];
    s := s[28 := size % 256][29 := size / 256 % 256][30 := size / 0x1_0000 % 256][31 := size / 0x100_0000];
    r := s;
  }

  /** The slot that fat_create_entry fills in, field by field. */
  method FillEntry(slot: Entry, f: seq<nat>, attr: nat, cluster: nat, size: nat) returns (e: Entry)
    ensures e == NewEntry(slot, f, attr, cluster, size)
  {
    var name, ext := EncodeName(f);
    e := PutName(slot, name, ext, attr);
    e := PutData(e, cluster, size);
  }

  /** Its beginning: the name, the attributes and the stamps that are cleared. */
  method PutName(slot: Entry, name: seq<nat>, ext: seq<nat>, attr: nat) returns (r: Entry)
    requires |name| == 8 && |ext| == 3
    ensures r[..26] == name + ext + [attr, 0, slot[13], 0, 0, 0, 0, slot[18], slot[19], 0, 0]
                       + [slot[22], slot[23], slot[24], slot[25]]
  {
    var s: seq<nat> := name + ext + slot[11..];
    s := s[11 := attr][12 := 0];
    s := s[14 := 0][15 := 0][16 := 0][17 := 0];
    r := s[20 := 0][21 := 0];
  }

  // ---------------------------------------------------------------------
  // Directories
  // ---------------------------------------------------------------------

  /** cs is the chain of the directory that starts at cluster d. */
  ghost predicate DirAt(v: Vol, d: nat, cs: seq<nat>)
  {
    (d != 0 ==> IsChain(v.fat, cs) && cs[0] == d) && OnVolume(v, DirSectors(v, d, cs))
  }

  ghost function DirEntries(v: Vol, d: nat, cs: seq<nat>): seq<Entry>
    requires DirAt(v, d, cs)
  {
    Entries(v, DirSectors(v, d, cs))
  }

  lemma SectorHolds(v: Vol, d: nat, cs: seq<nat>, idx: nat, buf: Sector)
    requires DirAt(v, d, cs) && idx < |DirSectors(v, d, cs)| && buf == v.sec[DirSectors(v, d, cs)[idx]]
    ensures Holds16(DirEntries(v, d, cs), 16 * idx, buf)
  {
    forall k | 0 <= k < 16 ensures DirEntries(v, d, cs)[16 * idx + k] == Slot(buf, k) {
      EntryAt(v, DirSectors(v, d, cs), idx, k);
    }
  }

  // ---------------------------------------------------------------------
  // The driver
  // ---------------------------------------------------------------------

  class Driver {
    var disk: seq<Sector>
    var cwd: nat
    const fatStart: nat
    const fatSize: nat
    const rootSector: nat
    const rootEntries: nat
    const dataStart: nat
    const spc: nat

    ghost predicate Valid()
      reads this
    {
      && WellFormed(disk) && spc >= 1 && fatSize <= 256
      && fatStart + fatSize <= rootSector && dataStart == rootSector + rootEntries * 32 / 512 <= |disk|
    }

    /** The first FAT copy as a table and the sectors from the root directory
        on. */
    ghost function Abs(): (v: Vol)
      requires Valid()
      reads this
    {
      Vol(spc, dataStart - rootSector, Table(disk, fatStart, fatSize), disk[rootSector..])
    }

    /** fat_init, from the fields of the boot sector. */
    constructor (disk: seq<Sector>, reserved: nat, fatCount: nat, fatSize: nat, rootEntries: nat, spc: nat)
      requires WellFormed(disk) && spc >= 1 && fatCount >= 1 && fatSize <= 256
      requires reserved + fatCount * fatSize + rootEntries * 32 / 512 <= |disk|
      ensures Valid() && this.disk == disk && cwd == 0 && this.spc == spc
      ensures fatStart == reserved && rootSector == reserved + fatCount * fatSize
      ensures dataStart == rootSector + rootEntries * 32 / 512
    {
      this.disk, this.cwd, this.spc := disk, 0, spc;
      this.fatStart, this.fatSize := reserved, fatSize;
      this.rootSector, this.rootEntries := reserved + fatCount * fatSize, rootEntries;
      this.dataStart := reserved + fatCount * fatSize + rootEntries * 32 / 512;
      assert fatSize <= fatCount * fatSize by { MulGrows(0, fatCount, fatSize); }
    }

    // ----- the table

    method NextCluster(c: nat) returns (next: nat)
      requires Valid() && c < 256 * fatSize
      ensures next == Abs().fat[c]
    {
      var offset := c * 2;
      var buf := disk[fatStart + offset / 512];
      next := buf[offset % 512] + 256 * buf[offset % 512 + 1];
    }

    method WriteFatEntry(c: nat, v: nat)
      requires Valid() && c < 256 * fatSize && v < 0x1_0000
      modifies this`disk
      ensures Valid() && Abs() == old(Abs()).(fat := old(Abs()).fat[c := v])
    {
      var offset := c * 2;
      var at := fatStart + offset / 512;
      var buf := disk[at];
      EntryWriteRefines(disk, fatStart, fatSize, c, v);
      buf := buf[offset % 512 := v % 256][offset % 512 + 1 := v / 256];
      disk := disk[at := buf];
      assert disk[rootSector..] == old(disk)[rootSector..];
    }

    /** The inner loop of fat_allocate_cluster over sector i of the FAT. */
    method FreeInSector(i: nat) returns (j: nat)
      requires Valid() && i < fatSize
      ensures j <= 256
      ensures forall c :: 256 * i <= c < 256 * i + j && c >= 2 ==> Abs().fat[c] != 0
      ensures j < 256 ==> 256 * i + j >= 2 && Abs().fat[256 * i + j] == 0
    {
      var buf := disk[fatStart + i];
      ghost var fat := Abs().fat;
      j := 0;
      while j < 256
        invariant 0 <= j <= 256
        invariant forall c :: 256 * i <= c < 256 * i + j && c >= 2 ==> fat[c] != 0
      {
        ghost var c := 256 * i + j;
        assert SectorOf(c) == i && OffsetOf(c) == 2 * j;
        if i * 256 + j >= 2 && buf[j * 2] + 256 * buf[j * 2 + 1] == 0 {
          return;
        }
        j := j + 1;
      }
    }

    method FindFreeCluster() returns (c: nat)
      requires Valid()
      ensures c == Allocate(Abs().fat).1
      ensures c < 256 * fatSize || c == 0
    {
      ghost var fat := Abs().fat;
      var i := 0;
      while i < fatSize
        invariant 0 <= i <= fatSize
        invariant forall d :: 2 <= d < 256 * i ==> fat[d] != 0
      {
        var j := FreeInSector(i);
        if j < 256 {
          LowestIs(fat, 256 * i + j);
          return i * 256 + j;
        }
        forall d | 2 <= d < 256 * (i + 1) ensures fat[d] != 0 {
          assert d >= 256 * i ==> Abs().fat[d] != 0;
        }
        i := i + 1;
      }
      AllocateClaimsLowest(fat);
      return 0;
    }

    /** fat_allocate_cluster */
    method AllocateCluster() returns (c: nat)
      requires Valid()
      modifies this`disk
      ensures Valid() && Abs() == old(Abs()).(fat := Allocate(old(Abs()).fat).0)
      ensures c == Allocate(old(Abs()).fat).1
    {
      c := FindFreeCluster();
      AllocateClaimsLowest(Abs().fat);
      if c != 0 {
        WriteFatEntry(c, 0xFFFF);
      }
    }

    /** fat_free_cluster_chain: ends because every step uses up a link. */
    method FreeClusterChain(c: nat, ghost cs: seq<nat>)
      requires Valid() && (c >= 2 ==> IsChain(Abs().fat, cs) && cs[0] == c)
      modifies this`disk
      ensures Valid() && Abs() == old(Abs()).(fat := Freed(old(Abs()).fat, if c < 2 then [] else cs))
    {
      ghost var v := Abs();
      if c < 2 {
        FreeNothing(v);
        return;
      }
      var curr := c;
      ghost var i := 0;
      assert Freed(v.fat, cs[..0]) == v.fat;
      while curr < END_MARK
        invariant Valid() && i <= |cs|
        invariant Abs() == v.(fat := Freed(v.fat, cs[..i]))
        invariant if i < |cs| then curr == cs[i] else curr >= END_MARK
        decreases |cs| - i
      {
        FreedNext(v.fat, cs, i);
        var next := NextCluster(curr);
        WriteFatEntry(curr, 0);
        curr := next;
        i := i + 1;
      }
      assert cs[..i] == cs;
    }

    // ----- the directory walk

    /** fat_lba_of_cluster */
    function LbaOfCluster(c: nat): (lba: nat)
      requires Valid() && c >= 2
      reads this
      ensures lba >= dataStart && lba - rootSector == ClusterStart(Abs(), c)
      ensures (lba - dataStart) % spc == 0 && (lba - dataStart) / spc == c - 2
    {
      StepsExactly(c - 2, spc);
      MulGrows(c - 2, c - 1, spc);
      dataStart + (c - 2) * spc
    }

    /** The walk along the chain in fat_read_dir_sector: the cluster after the
        given number of steps, if the chain is long enough. */
    method WalkChain(d: nat, steps: nat, ghost cs: seq<nat>) returns (ok: bool, curr: nat)
      requires Valid() && IsChain(Abs().fat, cs) && cs[0] == d
      ensures ok <==> steps < |cs|
      ensures ok ==> curr == cs[steps]
    {
      curr := d;
      var i := 0;
      while i < steps
        invariant 0 <= i <= steps && i <= |cs|
        invariant if i < |cs| then curr == cs[i] else curr >= END_MARK
      {
        if curr >= END_MARK {
          return false, curr;
        }
        curr := NextCluster(curr);
        i := i + 1;
      }
      ok := curr < END_MARK;
    }

    /** fat_read_dir_sector: with index 0, 1, 2, ... it reads the directory's
        sectors one by one and then stops. */
    method ReadDirSector(d: nat, idx: nat, ghost v: Vol, ghost cs: seq<nat>) returns (ok: bool, buf: Sector)
      requires Valid() && v == Abs() && DirAt(v, d, cs)
      ensures ok <==> idx < |DirSectors(v, d, cs)|
      ensures ok ==> buf == v.sec[DirSectors(v, d, cs)[idx]] && |buf| == 512
    {
      if d == 0 {
        if idx >= rootEntries * 32 / 512 {
          return false, [];
        }
        return true, disk[rootSector + idx];
      }
      var steps, offset := StepsTo(idx, spc), OffsetIn(idx, spc);
      StepsWithin(idx, spc, |cs|);
      var curr;
      ok, curr := WalkChain(d, steps, cs);
      if !ok {
        return false, [];
      }
      WalkReaches(v, cs, idx);
      var lba := LbaOfCluster(curr) + offset;
      return true, disk[lba];
    }

    /** The address recomputed for writing a sector back: the one just read,
        never in the FATs and, for a subdirectory, behind the root. */
    method DirLba(d: nat, idx: nat, ghost v: Vol, ghost cs: seq<nat>) returns (lba: nat)
      requires Valid() && v == Abs() && DirAt(v, d, cs) && idx < |DirSectors(v, d, cs)|
      ensures rootSector <= lba < |disk| && lba - rootSector == DirSectors(v, d, cs)[idx]
      ensures d != 0 ==> lba >= dataStart
    {
      if d == 0 {
        return rootSector + idx;
      }
      var steps, offset := StepsTo(idx, spc), OffsetIn(idx, spc);
      StepsWithin(idx, spc, |cs|);
      var curr, s := d, 0;
      while s < steps
        invariant 0 <= s <= steps && curr == cs[s]
      {
        curr := NextCluster(curr);
        s := s + 1;
      }
      WalkReaches(v, cs, idx);
      lba := LbaOfCluster(curr) + offset;
    }

    /** What fat_find_file does with sector i. */
    method FindAt(d: nat, i: nat, g: seq<nat>,
                  ghost v: Vol, ghost cs: seq<nat>, ghost es: seq<Entry>, ghost base: nat)
      returns (done: bool, found: bool, e: Entry)
      requires Valid() && v == Abs() && DirAt(v, d, cs) && CString(g) && es == DirEntries(v, d, cs)
      requires i <= |DirSectors(v, d, cs)| && base == 16 * i
      ensures !done ==> i < |DirSectors(v, d, cs)| && Find(es, g, base) == Find(es, g, base + 16)
      ensures done ==> (found <==> Find(es, g, base).Some?)
      ensures done && found ==> e == es[Find(es, g, base).value]
    {
      e := seq<nat>(32, k requires 0 <= k < 32 => 0);
      var ok, buf := ReadDirSector(d, i, v, cs);
      if !ok {
        return true, false, e;
      }
      SectorHolds(v, d, cs, i, buf);
      var hit, stop, k := FindInSector(buf, g, es, base);
      if hit {
        e := Slot(buf, k);
      }
      return hit || stop, hit, e;
    }

    /** fat_find_file in directory d */
    method FindFile(d: nat, g: seq<nat>, ghost v: Vol, ghost cs: seq<nat>) returns (found: bool, e: Entry)
      requires Valid() && v == Abs() && DirAt(v, d, cs) && CString(g)
      ensures found <==> Find(DirEntries(v, d, cs), g).Some?
      ensures found ==> e == DirEntries(v, d, cs)[Find(DirEntries(v, d, cs), g).value]
    {
      ghost var es := DirEntries(v, d, cs);
      var i := 0;
      ghost var base := 0;
      while true
        invariant 0 <= i <= |DirSectors(v, d, cs)| && base == 16 * i
        invariant Find(es, g) == Find(es, g, base)
        decreases |DirSectors(v, d, cs)| - i
      {
        var done;
        done, found, e := FindAt(d, i, g, v, cs, es, base);
        if done {
          return;
        }
        i, base := i + 1, base + 16;
      }
    }

    /** What fat_delete_file and fat_delete_dir do with sector idx; r is what
        the search from there on finds. */
    method SearchAt(d: nat, idx: nat, g: seq<nat>, volumes: bool,
                    ghost v: Vol, ghost cs: seq<nat>, ghost base: nat, ghost r: Option<nat>)
      returns (ok: bool, hit: bool, k: nat, buf: Sector)
      requires Valid() && v == Abs() && DirAt(v, d, cs) && CString(g) && base == 16 * idx
      requires r == FindToDelete(DirEntries(v, d, cs), g, volumes, base)
      ensures ok <==> idx < |DirSectors(v, d, cs)|
      ensures hit ==> ok && k < 16 && buf == v.sec[DirSectors(v, d, cs)[idx]] && r.Some? && r.value == base + k
      ensures !hit ==> r == if ok then FindToDelete(DirEntries(v, d, cs), g, volumes, base + 16) else None
    {
      hit, k := false, 0;
      ok, buf := ReadDirSector(d, idx, v, cs);
      if ok {
        SectorHolds(v, d, cs, idx, buf);
        hit, k := FindToDeleteInSector(buf, g, volumes, DirEntries(v, d, cs), base, r);
      }
    }

    /** The search loop of fat_delete_file and fat_delete_dir. */
    method SearchToDelete(d: nat, g: seq<nat>, volumes: bool, ghost v: Vol, ghost cs: seq<nat>)
        returns (hit: bool, idx: nat, k: nat, buf: Sector)
      requires Valid() && v == Abs() && DirAt(v, d, cs) && CString(g)
      ensures hit <==> FindToDelete(DirEntries(v, d, cs), g, volumes).Some?
      ensures hit ==> idx < |DirSectors(v, d, cs)| && k < 16 && buf == v.sec[DirSectors(v, d, cs)[idx]]
                      && FindToDelete(DirEntries(v, d, cs), g, volumes).value == 16 * idx + k
    {
      idx := 0;
      ghost var base, r := 0, FindToDelete(DirEntries(v, d, cs), g, volumes);
      while true
        invariant 0 <= idx <= |DirSectors(v, d, cs)| && base == 16 * idx
        invariant r == FindToDelete(DirEntries(v, d, cs), g, volumes, base)
        decreases |DirSectors(v, d, cs)| - idx
      {
        var ok;
        ok, hit, k, buf := SearchAt(d, idx, g, volumes, v, cs, base, r);
        if hit || !ok {
          return;
        }
        idx, base := idx + 1, base + 16;
      }
    }

    /** The search loop of fat_create_entry. */
    method SearchFree(d: nat, ghost v: Vol, ghost cs: seq<nat>) returns (hit: bool, idx: nat, k: nat, buf: Sector)
      requires Valid() && v == Abs() && DirAt(v, d, cs)
      ensures hit <==> FreeSlot(DirEntries(v, d, cs)) < 16 * |DirSectors(v, d, cs)|
      ensures hit ==> idx < |DirSectors(v, d, cs)| && k < 16 && buf == v.sec[DirSectors(v, d, cs)[idx]]
                      && FreeSlot(DirEntries(v, d, cs)) == 16 * idx + k
    {
      ghost var es := DirEntries(v, d, cs);
      idx, k := 0, 0;
      while true
        invariant 0 <= idx <= |DirSectors(v, d, cs)|
        invariant FreeSlot(es) == FreeSlot(es, 16 * idx)
        decreases |DirSectors(v, d, cs)| - idx
      {
        var ok;
        ok, buf := ReadDirSector(d, idx, v, cs);
        if !ok {
          return false, idx, 0, buf;
        }
        SectorHolds(v, d, cs, idx, buf);
        k := FreeSlotInSector(buf, es, 16 * idx);
        if k < 16 {
          return true, idx, k, buf;
        }
        idx := idx + 1;
      }
    }

    /** fat_is_dir_empty */
    method IsDirEmpty(d: nat, ghost v: Vol, ghost cs: seq<nat>) returns (empty: bool)
      requires Valid() && v == Abs() && DirAt(v, d, cs)
      ensures empty <==> IsEmpty(DirEntries(v, d, cs))
    {
      ghost var es := DirEntries(v, d, cs);
      var i := 0;
      ghost var base := 0;
      while true
        invariant 0 <= i <= |DirSectors(v, d, cs)| && base == 16 * i
        invariant IsEmpty(es) <==> IsEmpty(es, base)
        decreases |DirSectors(v, d, cs)| - i
      {
        var ok, buf := ReadDirSector(d, i, v, cs);
        if !ok {
          return true;
        }
        SectorHolds(v, d, cs, i, buf);
        var settled;
        settled, empty := EmptyInSector(buf, es, base);
        if settled {
          return;
        }
        i, base := i + 1, base + 16;
      }
    }

    // ----- changes

    method WriteSector(lba: nat, buf: Sector)
      requires Valid() && rootSector <= lba < |disk| && |buf| == 512
      modifies this`disk
      ensures Valid() && Abs() == old(Abs()).(sec := old(Abs()).sec[lba - rootSector := buf])
    {
      TableFrame(disk, lba, buf, fatStart, fatSize);
      disk := disk[lba := buf];
    }

    /** fat_create_entry */
    method CreateEntry(f: seq<nat>, attr: nat, c: nat, size: nat, ghost cs: seq<nat>) returns (ok: bool)
      requires Valid() && DirAt(Abs(), cwd, cs)
      modifies this`disk
      ensures Valid() && (Abs(), ok) == CreateIn(old(Abs()), DirSectors(old(Abs()), cwd, cs), f, attr, c, size)
    {
      ghost var v, ss := Abs(), DirSectors(Abs(), cwd, cs);
      var idx, k, buf;
      ok, idx, k, buf := SearchFree(cwd, v, cs);
      if ok {
        CreateInIs(v, ss, idx, k, f, attr, c, size);
        var e := FillEntry(Slot(buf, k), f, attr, c, size);
        var lba := DirLba(cwd, idx, v, cs);
        WriteSector(lba, Volume.PutSlot(buf, k, e));
        assert Abs() == CreateIn(v, ss, f, attr, c, size).0;
      } else {
        assert CreateIn(v, ss, f, attr, c, size) == (v, false);
      }
    }

    /** What fat_delete_file and fat_delete_dir do with the entry they found:
        the chain is freed, then the entry marked. */
    method DeleteAt(idx: nat, k: nat, buf: Sector, ghost n: nat, ghost fs: Fs)
      requires Valid() && Good(Abs(), fs) && cwd == fs.cwd
      requires idx < |SectorsOf(Abs(), fs, cwd)| && k < 16 && n == 16 * idx + k
               && OnVolume(Abs(), SectorsOf(Abs(), fs, cwd))
      requires buf == Abs().sec[SectorsOf(Abs(), fs, cwd)[idx]]
      requires Cluster(Slot(buf, k)) < 2 || Cluster(Slot(buf, k)) in fs.chains
      modifies this`disk
      ensures Valid() && Abs() == DeleteSlot(old(Abs()), fs, n)
    {
      ghost var v := Abs();
      GoodDirAt(v, fs, cwd);
      DeleteSlotIs(v, fs, idx, k, n);
      var lba := DirLba(cwd, idx, v, ChainOf(fs, cwd));
      var c := Cluster(Slot(buf, k));
      GoodChain(v, fs, c);
      FreeClusterChain(c, ChainAt(fs, c));
      WriteSector(lba, Volume.PutSlot(buf, k, Slot(buf, k)[0 := 0xE5]));
    }

    /** fat_delete_file */
    method DeleteFile(g: seq<nat>, ghost fs: Fs) returns (ok: bool)
      requires Valid() && Good(Abs(), fs) && cwd == fs.cwd && CString(g) && OnVolume(Abs(), SectorsOf(Abs(), fs, cwd))
      modifies this`disk
      ensures Valid() && ok == RmTarget(old(Abs()), fs, g).Some?
      ensures Abs() == if ok then DeleteSlot(old(Abs()), fs, RmTarget(old(Abs()), fs, g).value) else old(Abs())
    {
      ghost var v := Abs();
      GoodDirAt(v, fs, cwd);
      var idx, k, buf;
      ok, idx, k, buf := SearchToDelete(cwd, g, false, v, ChainOf(fs, cwd));
      if ok {
        var e := Slot(buf, k);
        ghost var n := 16 * idx + k;
        EntryAt(v, SectorsOf(v, fs, cwd), idx, k);
        FileFound(v, fs, g, n, e);
        if IsDir(e) {
          return false;
        }
        DeleteAt(idx, k, buf, n, fs);
      }
    }

    /** fat_delete_dir */
    method DeleteDir(g: seq<nat>, ghost fs: Fs) returns (ok: bool)
      requires Valid() && Good(Abs(), fs) && cwd == fs.cwd && CString(g) && OnVolume(Abs(), SectorsOf(Abs(), fs, cwd))
      modifies this`disk
      ensures Valid() && ok == RmdirTarget(old(Abs()), fs, g).Some?
      ensures Abs() == if ok then DeleteSlot(old(Abs()), fs, RmdirTarget(old(Abs()), fs, g).value) else old(Abs())
    {
      ghost var v := Abs();
      GoodDirAt(v, fs, cwd);
      var idx, k, buf;
      ok, idx, k, buf := SearchToDelete(cwd, g, true, v, ChainOf(fs, cwd));
      if ok {
        var e := Slot(buf, k);
        ghost var n := 16 * idx + k;
        EntryAt(v, SectorsOf(v, fs, cwd), idx, k);
        DirFound(v, fs, g, n, e);
        if !IsDir(e) {
          return false;
        }
        var empty := IsDirEmpty(Cluster(e), v, ChainOf(fs, Cluster(e)));
        if !empty {
          return false;
        }
        DeleteAt(idx, k, buf, n, fs);
      }
    }

    /** fat_change_dir, without the path string */
    method ChangeDir(g: seq<nat>, ghost fs: Fs)
      requires Valid() && Good(Abs(), fs) && cwd == fs.cwd && CString(g) && OnVolume(Abs(), SectorsOf(Abs(), fs, cwd))
      modifies this`cwd
      ensures Valid() && Abs() == old(Abs()) && cwd == CdTo(old(Abs()), fs, g)
    {
      ghost var v := Abs();
      GoodDirAt(v, fs, cwd);
      var found, e := FindFile(cwd, g, v, ChainOf(fs, cwd));
      if found && IsDir(e) {
        cwd := Cluster(e);
      }
    }

    /** The mkdir sequence of the shell. */
    method MakeDir(f: seq<nat>, ghost fs: Fs) returns (ok: bool)
      requires Valid() && Good(Abs(), fs) && cwd == fs.cwd && OnVolume(Abs(), SectorsOf(Abs(), fs, cwd))
      modifies this`disk
      ensures Valid() && (Abs(), ok) == MkdirOn(old(Abs()), SectorsOf(old(Abs()), fs, cwd), cwd, f)
    {
      ghost var v := Abs();
      AllocateClaimsLowest(v.fat);
      var c := AllocateCluster();
      if c == 0 {
        return false;
      }
      FormattedDirAt(v, fs, c);
      var buf := DirSector(c, cwd);
      var lba := LbaOfCluster(c);
      WriteSector(lba, buf);
      assert Abs() == FormatOn(v, c, cwd);
      ok := CreateEntry(f, ATTR_DIRECTORY, c, 0, ChainOf(fs, cwd));
    }

    /** A command of the shell: the driver does to the disk what Next says,
        and the disk still holds a healthy file system. */
    method Command(op: Op, ghost fs: Fs) returns (ghost fs1: Fs)
      requires Valid() && Good(Abs(), fs) && cwd == fs.cwd && Allowed(State(Abs(), fs), op)
      requires OnVolume(Abs(), SectorsOf(Abs(), fs, cwd)) && |fs.dir[cwd]| == |Here(Abs(), fs)|
      modifies this
      ensures Valid() && Good(Abs(), fs1) && cwd == fs1.cwd
      ensures State(Abs(), fs1) == Next(State(old(Abs()), fs), op)
    {
      ghost var s := State(Abs(), fs);
      NextIsSound(s, op);
      NextCwd(s, op);
      fs1 := Next(s, op).fs;
      match op {
        case Touch(f) =>
          GoodDirAt(s.v, fs, cwd);
          var ok := CreateEntry(f, 0, 0, 0, ChainOf(fs, cwd));
        case Mkdir(f) =>
          var ok := MakeDir(f, fs);
        case Rm(g) =>
          var ok := DeleteFile(g, fs);
        case Rmdir(g) =>
          var ok := DeleteDir(g, fs);
        case Cd(g) =>
          ChangeDir(g, fs);
      }
    }
  }

  // ---------------------------------------------------------------------
  // The sector of a new directory
  // ---------------------------------------------------------------------

  /** memset on part of a buffer */
  method MemSet(buf: Sector, at: nat, n: nat, b: nat) returns (r: Sector)
    requires at + n <= |buf|
    ensures |r| == |buf| && forall i :: 0 <= i < |buf| ==> r[i] == if at <= i < at + n then b else buf[i]
  {
    r := buf;
    var k := 0;
    while k < n
      invariant 0 <= k <= n && |r| == |buf|
      invariant forall i :: 0 <= i < |buf| ==> r[i] == if at <= i < at + k then b else buf[i]
    {
      r := r[at + k := b];
      k := k + 1;
    }
  }

  /** One of the two entries, at offset at of the buffer. */
  method PutDots(buf: Sector, at: nat, dots: nat, c: nat) returns (r: Sector)
    requires at + 32 <= |buf| && 1 <= dots <= 2 && forall i :: at <= i < |buf| ==> buf[i] == 0
    ensures |r| == |buf|
    ensures forall i :: 0 <= i < |buf| ==> r[i] == if at <= i < at + 32 then DotsEntry(dots, c)[i - at] else buf[i]
  {
    r := MemSet(buf, at, 11, SPACE);
    r := r[at := DOT];
    if dots == 2 {
      r := r[at + 1 := DOT];
    }
    r := r[at + 11 := ATTR_DIRECTORY];
    r := r[at + 26 := c % 256];
    r := r[at + 27 := c / 256];
  }

  method DirSector(c: nat, parent: nat) returns (buf: Sector)
    ensures buf == NewDirSector(c, parent)
  {
    buf := seq<nat>(512, i requires 0 <= i < 512 => 0);
    buf := PutDots(buf, 0, 1, c);
    buf := PutDots(buf, 32, 2, parent);
    assert forall i :: 0 <= i < 512 ==> buf[i] == NewDirSector(c, parent)[i];
  }

  // ---------------------------------------------------------------------
  // Healthy volumes as the driver walks them
  // ---------------------------------------------------------------------

  ghost function ChainOf(fs: Fs, d: nat): seq<nat> { if d in fs.chains then fs.chains[d] else [] }

  /** Only cd moves to another directory. */
  lemma NextCwd(s: State, op: Op)
    requires Sound(s) && Legal(op) && OnVolume(s.v, SectorsOf(s.v, s.fs, s.fs.cwd))
             && |s.fs.dir[s.fs.cwd]| == |Here(s.v, s.fs)|
    ensures Next(s, op).fs.cwd == if op.Cd? then CdTo(s.v, s.fs, op.name) else s.fs.cwd
  {
    match op
    case Touch(f) =>
    case Mkdir(f) => MadeCwd(s.fs, Here(s.v, s.fs), f, s.v.spc);
    case Rm(g) =>
    case Rmdir(g) =>
    case Cd(g) =>
  }

  lemma MadeCwd(fs: Fs, es: seq<Entry>, f: seq<nat>, spc: nat)
    requires fs.cwd in fs.dir && |fs.dir[fs.cwd]| == |es| && f != []
    ensures Made(fs, es, f, spc).cwd == fs.cwd
  {
  }

  lemma GoodDirAt(v: Vol, fs: Fs, d: nat)
    requires Good(v, fs) && d in fs.dir
    ensures DirAt(v, d, ChainOf(fs, d)) && DirSectors(v, d, ChainOf(fs, d)) == SectorsOf(v, fs, d)
  {
    assert DirMounted(v, fs, d);
    if d != 0 {
      assert ChainOk(fs, d);
    }
  }

  lemma GoodChain(v: Vol, fs: Fs, c: nat)
    requires Good(v, fs) && (c < 2 || c in fs.chains)
    ensures c >= 2 ==> IsChain(v.fat, ChainAt(fs, c)) && ChainAt(fs, c)[0] == c
    ensures c < 2 ==> ChainAt(fs, c) == []
  {
    if c >= 2 {
      assert ChainOk(fs, c);
    }
  }

  /** Claiming and formatting a cluster leaves the current directory where it
      was. */
  lemma FormattedDirAt(v: Vol, fs: Fs, c: nat)
    requires Good(v, fs) && 2 <= c < |v.fat| && v.fat[c] == 0
    ensures ClusterStart(v, c) < |v.sec| && c < END_MARK
    ensures DirAt(FormatOn(v, c, fs.cwd), fs.cwd, ChainOf(fs, fs.cwd))
    ensures DirSectors(FormatOn(v, c, fs.cwd), fs.cwd, ChainOf(fs, fs.cwd)) == SectorsOf(v, fs, fs.cwd)
  {
    assert c < fs.limit;
    FormatIsGood(v, fs, c, fs.cwd);
    FormatKeepsHere(v, fs, c);
    GoodDirAt(FormatOn(v, c, fs.cwd), Claim(fs, c), fs.cwd);
    assert ChainOf(Claim(fs, c), fs.cwd) == ChainOf(fs, fs.cwd);
  }

  lemma FileFound(v: Vol, fs: Fs, g: seq<nat>, n: nat, e: Entry)
    requires Good(v, fs) && OnVolume(v, SectorsOf(v, fs, fs.cwd)) && n < |Here(v, fs)| && e == Here(v, fs)[n]
    requires FindToDelete(Here(v, fs), g, false).Some? && FindToDelete(Here(v, fs), g, false).value == n
    ensures RmTarget(v, fs, g) == if IsDir(e) then None else Some(n)
    ensures !IsDir(e) ==> Cluster(e) < 2 || Cluster(e) in fs.chains
  {
    SlotOf(v, fs, n);
  }

  lemma DirFound(v: Vol, fs: Fs, g: seq<nat>, n: nat, e: Entry)
    requires Good(v, fs) && OnVolume(v, SectorsOf(v, fs, fs.cwd)) && n < |Here(v, fs)| && e == Here(v, fs)[n]
    requires FindToDelete(Here(v, fs), g, true).Some? && FindToDelete(Here(v, fs), g, true).value == n
    ensures !IsDir(e) ==> RmdirTarget(v, fs, g) == None
    ensures IsDir(e) ==> (Cluster(e) < 2 || Cluster(e) in fs.chains) && DirAt(v, Cluster(e), ChainOf(fs, Cluster(e)))
    ensures IsDir(e) ==>
              RmdirTarget(v, fs, g)
              == if IsEmpty(DirEntries(v, Cluster(e), ChainOf(fs, Cluster(e)))) then Some(n) else None
  {
    if IsDir(e) {
      SlotOf(v, fs, n);
      if fs.cwd in fs.owner {
        assert OwnerOk(fs, fs.cwd);
      }
      GoodDirAt(v, fs, Cluster(e));
    }
  }

  /** Deleting an entry, seen from the sector that holds it. */
  lemma DeleteSlotIs(v: Vol, fs: Fs, i: nat, k: nat, n: nat)
    requires OnVolume(v, SectorsOf(v, fs, fs.cwd)) && i < |SectorsOf(v, fs, fs.cwd)| && k < 16 && n == 16 * i + k
    ensures var at := SectorsOf(v, fs, fs.cwd)[i];
            var e := Slot(v.sec[at], k);
            DeleteSlot(v, fs, n)
            == v.(fat := Freed(v.fat, ChainAt(fs, Cluster(e))),
                  sec := v.sec[at := Volume.PutSlot(v.sec[at], k, e[0 := DELETED])])
  {
    var ss := SectorsOf(v, fs, fs.cwd);
    EntryAt(v, ss, i, k);
    WriteSlotIs(v, ss, i, k, Slot(v.sec[ss[i]], k)[0 := DELETED]);
  }

  lemma LowestIs(fat: seq<nat>, c: nat)
    requires 2 <= c < |fat| && fat[c] == 0 && forall d :: 2 <= d < c ==> fat[d] != 0
    ensures Allocate(fat).1 == c
  {
  }

  lemma FreedNext(fat: seq<nat>, cs: seq<nat>, i: nat)
    requires IsChain(fat, cs) && i < |cs|
    ensures Freed(fat, cs[..i])[cs[i] := 0] == Freed(fat, cs[..i + 1])
    ensures Freed(fat, cs[..i])[cs[i]] == fat[cs[i]]
  {
    assert cs[..i + 1] == cs[..i] + [cs[i]];
    assert cs[i] !in cs[..i];
  }
}
