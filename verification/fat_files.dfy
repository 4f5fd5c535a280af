/** Reading files (src/kernel/kernel.c:237-250, 292-306): the loops of cat and
    exec along a cluster chain, and what they deliver. */
module Files {
  import opened FatTable
  import opened Volume
  import opened Fat16
  import opened Pmm
  import opened Paging
  import LoadArea

  // ---------------------------------------------------------------------
  // The bytes of a chain
  // ---------------------------------------------------------------------

  /** The sectors ss one after the other. */
  function Bytes(v: Vol, ss: seq<nat>): (r: seq<nat>)
    requires OnVolume(v, ss)
    ensures |r| == 512 * |ss|
  {
    if ss == [] then [] else v.sec[ss[0]] + Bytes(v, ss[1..])
  }

  /** The first sector of every cluster, which is all that the loops read. */
  function FirstSectors(v: Vol, cs: seq<nat>): (r: seq<nat>)
    ensures |r| == |cs|
  {
    seq<nat>(|cs|, i requires 0 <= i < |cs| => ClusterStart(v, cs[i]))
  }

  /** All of the data in the clusters cs, cut off at size. */
  function Contents(v: Vol, cs: seq<nat>, size: nat): seq<nat>
    requires OnVolume(v, ChainSectors(v, cs))
  {
    Cut(Bytes(v, ChainSectors(v, cs)), size)
  }

  function Cut(s: seq<nat>, n: nat): (r: seq<nat>)
    ensures |r| == if |s| <= n then |s| else n
    ensures r == s[..|r|]
  {
    if |s| <= n then s else s[..n]
  }

  lemma {:induction false} SectorInBytes(v: Vol, ss: seq<nat>, i: nat)
    requires OnVolume(v, ss) && i < |ss|
    ensures Bytes(v, ss)[512 * i..512 * i + 512] == v.sec[ss[i]]
    decreases |ss|
  {
    if i > 0 {
      SectorInBytes(v, ss[1..], i - 1);
      var all, rest := Bytes(v, ss), Bytes(v, ss[1..]);
      assert all[512 * i..512 * i + 512] == rest[512 * (i - 1)..512 * (i - 1) + 512];
    }
  }

  /** Where the bytes of a file are on the volume: byte o of sector r of its
      cluster q, all clusters in the order of the chain. */
  lemma ByteOfFile(v: Vol, cs: seq<nat>, size: nat, q: nat, r: nat, s: nat, o: nat)
    requires OnVolume(v, ChainSectors(v, cs)) && q < |cs| && r < v.spc && o < 512
    requires s == q * v.spc + r && 512 * s + o < size
    ensures var at := ClusterStart(v, cs[q]) + r;
            && at < |v.sec| && |v.sec[at]| == 512
            && 512 * s + o < |Contents(v, cs, size)| && Contents(v, cs, size)[512 * s + o] == v.sec[at][o]
  {
    var ss := ChainSectors(v, cs);
    ChainSectorAt(v, cs, q, r);
    SectorInBytes(v, ss, s);
    var all := Bytes(v, ss);
    assert all[512 * s + o] == all[512 * s..512 * s + 512][o];
  }

  /** With one sector per cluster the first sectors are all sectors. */
  lemma {:induction false} OneSectorPerCluster(v: Vol, cs: seq<nat>)
    requires v.spc == 1
    ensures ChainSectors(v, cs) == FirstSectors(v, cs)
    decreases |cs|
  {
    if cs != [] {
      OneSectorPerCluster(v, cs[1..]);
      assert SectorRange(ClusterStart(v, cs[0]), 1) == [ClusterStart(v, cs[0])];
      assert FirstSectors(v, cs) == [ClusterStart(v, cs[0])] + FirstSectors(v, cs[1..]);
    }
  }

  /** A chain whose clusters can be read from the disk. */
  ghost predicate Readable(v: Vol, cs: seq<nat>)
  {
    IsChain(v.fat, cs) && OnVolume(v, FirstSectors(v, cs))
  }

  // ---------------------------------------------------------------------
  // cat
  // ---------------------------------------------------------------------

  /** The inner loop of cat: up to 512 bytes of the buffer are printed. */
  method PrintSector(buf: seq<nat>, left: nat, out: seq<nat>) returns (left1: nat, out1: seq<nat>)
    requires |buf| == 512
    ensures var n := if left < 512 then left else 512; out1 == out + buf[..n] && left1 == left - n
  {
    left1, out1 := left, out;
    var i := 0;
    while i < 512 && left1 > 0
      invariant 0 <= i <= 512 && left1 == left - i && out1 == out + buf[..i]
    {
      assert buf[..i + 1] == buf[..i] + [buf[i]];
      out1 := out1 + [buf[i]];
      i, left1 := i + 1, left1 - 1;
    }
  }

  /** What has been delivered after i clusters. */
  ghost predicate Delivered(all: seq<nat>, size: nat, i: nat, left: nat, out: seq<nat>)
  {
    && |out| <= |Cut(all, size)| && out == Cut(all, size)[..|out|] && left + |out| == size
    && |out| == if 512 * i <= size then 512 * i else size
  }

  lemma DeliverNext(all: seq<nat>, size: nat, i: nat, left: nat, out: seq<nat>, buf: seq<nat>)
    requires left > 0 && 512 * i + 512 <= |all| && buf == all[512 * i..512 * i + 512]
    requires Delivered(all, size, i, left, out)
    ensures var n := if left < 512 then left else 512;
            Delivered(all, size, i + 1, left - n, out + buf[..n])
  {
    var n := if left < 512 then left else 512;
    var cut := Cut(all, size);
    assert |out| == 512 * i;
    assert cut[..|out| + n] == cut[..|out|] + cut[|out|..|out| + n];
    assert cut[|out|..|out| + n] == all[512 * i..512 * i + n] == buf[..n];
  }

  lemma AllDelivered(all: seq<nat>, size: nat, i: nat, left: nat, out: seq<nat>)
    requires Delivered(all, size, i, left, out) && (left == 0 || 512 * i == |all|)
    ensures out == Cut(all, size)
  {
    assert |out| == |Cut(all, size)|;
  }

  /** cat: prints the first size bytes of the first sectors of the chain, or
      all of them if the chain is shorter. */
  method Cat(fat: Driver, c: nat, size: nat, ghost cs: seq<nat>) returns (out: seq<nat>)
    requires fat.Valid() && (size > 0 ==> Readable(fat.Abs(), cs) && cs[0] == c)
    ensures size == 0 ==> out == []
    ensures size > 0 ==> out == Cut(Bytes(fat.Abs(), FirstSectors(fat.Abs(), cs)), size)
  {
    out := [];
    if size == 0 {
      return;
    }
    ghost var v := fat.Abs();
    ghost var all := Bytes(v, FirstSectors(v, cs));
    var left, cluster := size, c;
    ghost var i := 0;
    while left > 0 && cluster < END_MARK
      invariant i <= |cs| && if i < |cs| then cluster == cs[i] else cluster >= END_MARK
      invariant Delivered(all, size, i, left, out)
      decreases |cs| - i
    {
      SectorInBytes(v, FirstSectors(v, cs), i);
      var buf := ReadCluster(fat, cluster, v, cs, i);
      DeliverNext(all, size, i, left, out, buf);
      left, out := PrintSector(buf, left, out);
      cluster := fat.NextCluster(cluster);
      i := i + 1;
    }
    AllDelivered(all, size, i, left, out);
  }

  /** The first sector of a cluster. */
  method ReadCluster(fat: Driver, cluster: nat, ghost v: Vol, ghost cs: seq<nat>, ghost i: nat) returns (buf: seq<nat>)
    requires fat.Valid() && v == fat.Abs() && Readable(v, cs) && i < |cs| && cluster == cs[i]
    ensures |buf| == 512 && buf == v.sec[FirstSectors(v, cs)[i]]
  {
    var lba := fat.LbaOfCluster(cluster);
    assert lba - fat.rootSector == FirstSectors(v, cs)[i];
    buf := fat.disk[lba];
  }

  // ---------------------------------------------------------------------
  // exec
  // ---------------------------------------------------------------------

  /** The frame of the load area that byte ptr of the file goes to. */
  function TargetFrame(ptr: nat): nat { LoadArea.AREA + ptr / BLOCK_SIZE }

  /** A frame with data written over its bytes from o on. */
  function Overwritten(fr: Frame, o: nat, data: seq<nat>): Frame
    requires o + |data| <= BLOCK_SIZE
  {
    Page(LoadArea.FrameBytes(fr)[..o] + data + LoadArea.FrameBytes(fr)[o + |data|..])
  }

  /** Sectors do not straddle frames. */
  lemma SectorInFrame(ptr: nat)
    requires ptr % 512 == 0
    ensures ptr % BLOCK_SIZE + 512 <= BLOCK_SIZE
  {
    assert ptr % BLOCK_SIZE % 512 == 0;
  }

  /** The inner loop of exec: bytes of the buffer are copied to memory. */
  method CopySector(buf: seq<nat>, frames: array<Frame>, ptr: nat, n: nat)
    requires |buf| == 512 && 0 < n <= 512 && ptr % 512 == 0 && TargetFrame(ptr) < frames.Length
    requires ptr % BLOCK_SIZE + 512 <= BLOCK_SIZE
    modifies frames
    ensures var f := TargetFrame(ptr);
            frames[..] == old(frames[..])[f := Overwritten(old(frames[f]), ptr % BLOCK_SIZE, buf[..n])]
  {
    var f, o := TargetFrame(ptr), ptr % BLOCK_SIZE;
    ghost var before := frames[..];
    frames[f] := Overwritten(frames[f], o, [buf[0]]);
    assert buf[..1] == [buf[0]];
    var i := 1;
    while i < n
      invariant 1 <= i <= n
      invariant frames[f] == Overwritten(before[f], o, buf[..i])
      invariant forall g :: 0 <= g < frames.Length && g != f ==> frames[g] == before[g]
    {
      OneMoreByte(before[f], o, buf, i);
      frames[f] := Overwritten(frames[f], o + i, [buf[i]]);
      i := i + 1;
    }
  }

  lemma OneMoreByte(fr: Frame, o: nat, buf: seq<nat>, i: nat)
    requires i < |buf| && o + i < BLOCK_SIZE
    ensures Overwritten(Overwritten(fr, o, buf[..i]), o + i, [buf[i]]) == Overwritten(fr, o, buf[..i + 1])
  {
    assert buf[..i + 1] == buf[..i] + [buf[i]];
  }

  /** What that does to the load area: it grows by the bytes written. */
  lemma AreaGrows(frames: seq<Frame>, ptr: nat, data: seq<nat>)
    requires ptr % 512 == 0 && 0 < |data| <= 512 && TargetFrame(ptr) < |frames| && ptr % BLOCK_SIZE + 512 <= BLOCK_SIZE
    ensures var frames1 := frames[TargetFrame(ptr) := Overwritten(frames[TargetFrame(ptr)], ptr % BLOCK_SIZE, data)];
            LoadArea.AreaBytes(frames1, 0, ptr + |data|) == LoadArea.AreaBytes(frames, 0, ptr) + data
  {
    var f, o := TargetFrame(ptr), ptr % BLOCK_SIZE;
    var frames1 := frames[f := Overwritten(frames[f], o, data)];
    forall k | 0 <= k < ptr + |data|
      ensures LoadArea.AreaByte(frames1, k) == if k < ptr then LoadArea.AreaByte(frames, k) else data[k - ptr]
    {
      ByteOfArea(frames, ptr, data, k);
    }
  }

  lemma ByteOfArea(frames: seq<Frame>, ptr: nat, data: seq<nat>, k: nat)
    requires 0 < |data| && TargetFrame(ptr) < |frames| && ptr % BLOCK_SIZE + |data| <= BLOCK_SIZE && k < ptr + |data|
    ensures var frames1 := frames[TargetFrame(ptr) := Overwritten(frames[TargetFrame(ptr)], ptr % BLOCK_SIZE, data)];
            LoadArea.AreaByte(frames1, k) == if k < ptr then LoadArea.AreaByte(frames, k) else data[k - ptr]
  {
    var f, o := TargetFrame(ptr), ptr % BLOCK_SIZE;
    var was, now := LoadArea.FrameBytes(frames[f]), Overwritten(frames[f], o, data).bytes;
    PlaceInFrame(ptr, |data|, k);
    if k >= ptr {
      assert now[o + (k - ptr)] == data[k - ptr];
    } else if k / BLOCK_SIZE == ptr / BLOCK_SIZE {
      assert now[k % BLOCK_SIZE] == was[k % BLOCK_SIZE];
    }
  }

  lemma PlaceInFrame(ptr: nat, n: nat, k: nat)
    requires ptr % BLOCK_SIZE + n <= BLOCK_SIZE && k < ptr + n
    ensures k >= ptr ==> k / BLOCK_SIZE == ptr / BLOCK_SIZE && k % BLOCK_SIZE == ptr % BLOCK_SIZE + (k - ptr)
    ensures k < ptr && k / BLOCK_SIZE == ptr / BLOCK_SIZE ==> k % BLOCK_SIZE < ptr % BLOCK_SIZE
  {
  }

  /** The load area holds out, and no other frame has changed. */
  ghost predicate Filled(before: seq<Frame>, now: seq<Frame>, out: seq<nat>)
  {
    && |now| == |before| && LoadArea.AreaBytes(now, 0, |out|) == out
    && forall g :: 0 <= g < |now| && !LoadArea.InArea(g, |out|) ==> now[g] == before[g]
  }

  lemma FilledNext(before: seq<Frame>, now: seq<Frame>, out: seq<nat>, data: seq<nat>)
    requires Filled(before, now, out) && |out| % 512 == 0 && 0 < |data| <= 512 && TargetFrame(|out|) < |now|
    ensures |out| % BLOCK_SIZE + 512 <= BLOCK_SIZE
    ensures var f := TargetFrame(|out|);
            Filled(before, now[f := Overwritten(now[f], |out| % BLOCK_SIZE, data)], out + data)
  {
    SectorInFrame(|out|);
    AreaGrows(now, |out|, data);
    assert LoadArea.InArea(TargetFrame(|out|), |out + data|);
  }

  /** The same copy, with the bytes delivered so far. */
  method CopyNext(buf: seq<nat>, frames: array<Frame>, ptr: nat, n: nat, ghost before: seq<Frame>, ghost out: seq<nat>)
    requires |buf| == 512 && 0 < n <= 512 && ptr == |out| && ptr % 512 == 0 && TargetFrame(ptr) < frames.Length
    requires Filled(before, frames[..], out)
    modifies frames
    ensures Filled(before, frames[..], out + buf[..n])
  {
    SectorInFrame(ptr);
    FilledNext(before, frames[..], out, buf[..n]);
    CopySector(buf, frames, ptr, n);
  }

  /** The reading loop of exec: the same bytes as cat's, put to the beginning
      of the load area. No frame outside it changes; those inside do, whoever
      they belong to. */
  method ReadToArea(fat: Driver, c: nat, size: nat, frames: array<Frame>, ghost cs: seq<nat>)
    requires fat.Valid() && (size > 0 ==> Readable(fat.Abs(), cs) && cs[0] == c)
    requires LoadArea.AREA * BLOCK_SIZE + size <= frames.Length * BLOCK_SIZE
    modifies frames
    ensures size == 0 ==> frames[..] == old(frames[..])
    ensures size > 0 ==> Filled(old(frames[..]), frames[..], Cut(Bytes(fat.Abs(), FirstSectors(fat.Abs(), cs)), size))
  {
    if size == 0 {
      return;
    }
    ghost var v, before := fat.Abs(), frames[..];
    ghost var all := Bytes(v, FirstSectors(v, cs));
    var left, cluster, ptr := size, c, 0;
    ghost var i, out := 0, [];
    while left > 0 && cluster < END_MARK
      invariant i <= |cs| && if i < |cs| then cluster == cs[i] else cluster >= END_MARK
      invariant Delivered(all, size, i, left, out) && ptr == 512 * i
      invariant Filled(before, frames[..], out)
      decreases |cs| - i
    {
      SectorInBytes(v, FirstSectors(v, cs), i);
      var buf := ReadCluster(fat, cluster, v, cs, i);
      var n := if left > 512 then 512 else left;
      DeliverNext(all, size, i, left, out, buf);
      FrameForByte(i, ptr, size, frames.Length);
      CopyNext(buf, frames, ptr, n, before, out);
      out := out + buf[..n];
      ptr, left := ptr + 512, left - n;
      cluster := fat.NextCluster(cluster);
      i := i + 1;
    }
    AllDelivered(all, size, i, left, out);
  }

  lemma FrameForByte(i: nat, ptr: nat, size: nat, n: nat)
    requires ptr == 512 * i < size && LoadArea.AREA * BLOCK_SIZE + size <= n * BLOCK_SIZE
    ensures TargetFrame(ptr) < n && ptr % 512 == 0
  {
  }

  /** Whatever frame f of the area held, page table or data of a process, the
      file's bytes are there afterwards. */
  lemma AreaIsOverwritten(before: seq<Frame>, now: seq<Frame>, out: seq<nat>, f: nat, o: nat)
    requires Filled(before, now, out) && LoadArea.AREA <= f < |now| && o < BLOCK_SIZE
    requires (f - LoadArea.AREA) * BLOCK_SIZE + o < |out|
    ensures LoadArea.FrameBytes(now[f])[o] == out[(f - LoadArea.AREA) * BLOCK_SIZE + o]
  {
    var k := (f - LoadArea.AREA) * BLOCK_SIZE + o;
    assert k / BLOCK_SIZE == f - LoadArea.AREA && k % BLOCK_SIZE == o;
    assert LoadArea.AreaBytes(now, 0, |out|)[k] == LoadArea.AreaByte(now, k);
  }

  // ---------------------------------------------------------------------
  // What is delivered
  // ---------------------------------------------------------------------

  /** With one sector per cluster and a chain that is long enough, what is
      read is the file: exactly its first size bytes. */
  lemma ReadsTheFile(v: Vol, cs: seq<nat>, size: nat)
    requires v.spc == 1 && OnVolume(v, ChainSectors(v, cs)) && size <= 512 * |cs|
    ensures OnVolume(v, FirstSectors(v, cs))
    ensures var out := Cut(Bytes(v, FirstSectors(v, cs)), size); |out| == size && out == Contents(v, cs, size)
  {
    OneSectorPerCluster(v, cs);
  }

  /** cs has exactly the clusters that size bytes need. */
  predicate FitsExactly(v: Vol, cs: seq<nat>, size: nat)
  {
    size > 0 && cs != [] && 512 * ((|cs| - 1) * v.spc) < size <= 512 * (|cs| * v.spc)
  }

  lemma MoreSectorsThanClusters(m: nat, n: nat)
    requires m >= 2 && n >= 2
    ensures (m - 1) * n >= m
  {
    MulGrows(0, m - 1, n - 2);
    assert (m - 1) * n == (m - 1) * (n - 2) + 2 * (m - 1);
  }

  /** In general, for a file whose chain is as long as its size asks for, what
      is read is the file exactly if clusters have one sector or the file is
      no longer than one. */
  lemma ReadsTheFileExactly(v: Vol, cs: seq<nat>, size: nat)
    requires v.spc >= 1 && OnVolume(v, ChainSectors(v, cs)) && OnVolume(v, FirstSectors(v, cs))
             && FitsExactly(v, cs, size)
    ensures Cut(Bytes(v, FirstSectors(v, cs)), size) == Contents(v, cs, size) <==> v.spc == 1 || size <= 512
  {
    if v.spc == 1 {
      OneSectorPerCluster(v, cs);
    } else if |cs| >= 2 {
      MoreSectorsThanClusters(|cs|, v.spc);
    } else if size <= 512 {
      ChainSectorAt(v, cs, 0, 0);
      SectorInBytes(v, ChainSectors(v, cs), 0);
      SectorInBytes(v, FirstSectors(v, cs), 0);
      SamePrefix(Bytes(v, ChainSectors(v, cs)), Bytes(v, FirstSectors(v, cs)), size);
    }
  }

  lemma SamePrefix(a: seq<nat>, b: seq<nat>, n: nat)
    requires n <= 512 <= |a| && 512 <= |b| && a[0..512] == b[0..512]
    ensures Cut(a, n) == Cut(b, n)
  {
    assert Cut(a, n) == a[0..512][..n] && Cut(b, n) == b[0..512][..n];
  }
}
