/** The part of a FAT16 volume behind its FATs: the root directory, the data
    clusters, and directories as lists of sectors (src/fs/fat.c:79-83,
    156-195).  Sectors are numbered from the start of the root directory. */
module Volume {
  import opened FatTable
  import opened Directory

  /** The first FAT copy as a table, and the sectors that follow the FATs. */
  datatype Vol = Vol(spc: nat, rootSectors: nat, fat: seq<nat>, sec: seq<Sector>)

  // ---------------------------------------------------------------------
  // Slots of a sector
  // ---------------------------------------------------------------------

  function Slot(s: Sector, k: nat): Entry
    requires |s| == 512 && k < PER_SECTOR
  {
    s[32 * k..32 * k + 32]
  }

  function PutSlot(s: Sector, k: nat, e: Entry): (r: Sector)
    requires |s| == 512 && k < PER_SECTOR
    ensures |r| == 512
  {
    s[..32 * k] + e + s[32 * k + 32..]
  }

  lemma SlotReadsBack(s: Sector, k: nat, e: Entry, j: nat)
    requires |s| == 512 && k < PER_SECTOR && j < PER_SECTOR
    ensures Slot(PutSlot(s, k, e), j) == if j == k then e else Slot(s, j)
  {
    var r := PutSlot(s, k, e);
    if j == k {
      assert r[32 * k..32 * k + 32] == e;
    } else if j < k {
      assert r[32 * j..32 * j + 32] == s[32 * j..32 * j + 32];
    } else {
      assert r[32 * j..32 * j + 32] == s[32 * j..32 * j + 32];
    }
  }

  // ---------------------------------------------------------------------
  // Clusters
  // ---------------------------------------------------------------------

  /** fat_lba_of_cluster, relative to the root directory. */
  function ClusterStart(v: Vol, c: nat): nat
  {
    if c < 2 then v.rootSectors else v.rootSectors + (c - 2) * v.spc
  }

  lemma MulGrows(a: nat, b: nat, n: nat)
    requires a < b
    ensures a * n + n <= b * n
  {
    assert b * n == (a + 1) * n + (b - a - 1) * n;
  }

  /** Clusters come behind the root directory and do not overlap. */
  lemma ClusterOrder(v: Vol, c: nat, d: nat)
    requires 2 <= c < d
    ensures v.rootSectors <= ClusterStart(v, c) && ClusterStart(v, c) + v.spc <= ClusterStart(v, d)
  {
    MulGrows(c - 2, d - 2, v.spc);
  }

  lemma ClustersApart(v: Vol, c: nat, i: nat, d: nat, j: nat)
    requires c >= 2 && d >= 2 && i < v.spc && j < v.spc && (c != d || i != j)
    ensures ClusterStart(v, c) + i != ClusterStart(v, d) + j
  {
    if c < d {
      ClusterOrder(v, c, d);
    } else if d < c {
      ClusterOrder(v, d, c);
    }
  }

  /** The cluster that the k-th sector behind the root directory belongs to. */
  function ClusterOf(v: Vol, k: nat): (c: nat)
    requires v.spc >= 1
  {
    2 + k / v.spc
  }

  /** Clusters of spc sectors each follow one another behind the root, the
      first being number 2: every data sector is in exactly one cluster, at
      exactly one place. */
  lemma ClusterOfExactly(v: Vol, k: nat, c: nat, i: nat)
    requires v.spc >= 1 && c >= 2 && i < v.spc
    ensures ClusterStart(v, c) + i == v.rootSectors + k <==> c == ClusterOf(v, k) && i == k % v.spc
  {
    var q := k / v.spc;
    assert k == q * v.spc + k % v.spc;
    if c - 2 < q {
      MulGrows(c - 2, q, v.spc);
    } else if q < c - 2 {
      MulGrows(q, c - 2, v.spc);
    }
  }

  lemma ClustersFollow(v: Vol, c: nat)
    requires c >= 2
    ensures ClusterStart(v, 2) == v.rootSectors && ClusterStart(v, c + 1) == ClusterStart(v, c) + v.spc
  {
    assert (c + 1 - 2) * v.spc == (c - 2) * v.spc + v.spc;
  }

  // ---------------------------------------------------------------------
  // Directories as lists of sectors
  // ---------------------------------------------------------------------

  function SectorRange(first: nat, n: nat): (r: seq<nat>)
    ensures |r| == n && forall i :: 0 <= i < n ==> r[i] == first + i
  {
    seq<nat>(n, i requires 0 <= i < n => first + i)
  }

  function ChainSectors(v: Vol, cs: seq<nat>): (r: seq<nat>)
    ensures |r| == |cs| * v.spc
  {
    if cs == [] then [] else SectorRange(ClusterStart(v, cs[0]), v.spc) + ChainSectors(v, cs[1..])
  }

  /** The sectors of the directory that starts at cluster d, 0 being the root;
      cs is its cluster chain. */
  function DirSectors(v: Vol, d: nat, cs: seq<nat>): (r: seq<nat>)
  {
    if d == 0 then SectorRange(0, v.rootSectors) else ChainSectors(v, cs)
  }

  /** The k-th sector of a chain is sector k % spc of its cluster k / spc. */
  lemma {:induction false} ChainSectorAt(v: Vol, cs: seq<nat>, q: nat, r: nat)
    requires q < |cs| && r < v.spc
    ensures q * v.spc + r < |cs| * v.spc
    ensures ChainSectors(v, cs)[q * v.spc + r] == ClusterStart(v, cs[q]) + r
    decreases |cs|
  {
    var rest := cs[1..];
    assert |cs| * v.spc == v.spc + |rest| * v.spc;
    if q > 0 {
      ChainSectorAt(v, rest, q - 1, r);
      assert q * v.spc == (q - 1) * v.spc + v.spc;
    }
  }

  /** Where a sector of a chain comes from. */
  lemma {:induction false} SectorOrigin(v: Vol, cs: seq<nat>, k: nat) returns (q: nat, r: nat)
    requires k < |cs| * v.spc
    ensures q < |cs| && r < v.spc && k == q * v.spc + r && ChainSectors(v, cs)[k] == ClusterStart(v, cs[q]) + r
    decreases |cs|
  {
    var rest := cs[1..];
    assert |cs| * v.spc == v.spc + |rest| * v.spc;
    if k < v.spc {
      q, r := 0, k;
    } else {
      q, r := SectorOrigin(v, rest, k - v.spc);
      assert (q + 1) * v.spc == q * v.spc + v.spc;
      q := q + 1;
    }
  }

  ghost predicate Distinct(ss: seq<nat>)
  {
    forall i, j :: 0 <= i < j < |ss| ==> ss[i] != ss[j]
  }

  ghost predicate Disjoint(ss: seq<nat>, tt: seq<nat>)
  {
    forall i, j :: 0 <= i < |ss| && 0 <= j < |tt| ==> ss[i] != tt[j]
  }

  /** Chains without common clusters have no common sectors. */
  lemma ChainsApart(v: Vol, a: seq<nat>, b: seq<nat>)
    requires (forall i :: 0 <= i < |a| ==> a[i] >= 2) && (forall i :: 0 <= i < |b| ==> b[i] >= 2)
    requires forall i, j :: 0 <= i < |a| && 0 <= j < |b| ==> a[i] != b[j]
    ensures Disjoint(ChainSectors(v, a), ChainSectors(v, b))
  {
    forall i, j | 0 <= i < |ChainSectors(v, a)| && 0 <= j < |ChainSectors(v, b)|
      ensures ChainSectors(v, a)[i] != ChainSectors(v, b)[j]
    {
      var p, x := SectorOrigin(v, a, i);
      var q, y := SectorOrigin(v, b, j);
      ClustersApart(v, a[p], x, b[q], y);
    }
  }

  lemma ChainSectorsDistinct(v: Vol, cs: seq<nat>)
    requires (forall i :: 0 <= i < |cs| ==> cs[i] >= 2) && forall i, j :: 0 <= i < j < |cs| ==> cs[i] != cs[j]
    ensures Distinct(ChainSectors(v, cs))
  {
    forall i, j | 0 <= i < j < |ChainSectors(v, cs)| ensures ChainSectors(v, cs)[i] != ChainSectors(v, cs)[j] {
      var p, x := SectorOrigin(v, cs, i);
      var q, y := SectorOrigin(v, cs, j);
      if p == q {
        assert x != y;
      }
      ClustersApart(v, cs[p], x, cs[q], y);
    }
  }

  /** No cluster shares a sector with the root directory. */
  lemma ChainClearOfRoot(v: Vol, cs: seq<nat>)
    requires forall i :: 0 <= i < |cs| ==> cs[i] >= 2
    ensures Disjoint(SectorRange(0, v.rootSectors), ChainSectors(v, cs))
  {
    forall i, j | 0 <= i < v.rootSectors && 0 <= j < |ChainSectors(v, cs)|
      ensures SectorRange(0, v.rootSectors)[i] != ChainSectors(v, cs)[j]
    {
      var q, r := SectorOrigin(v, cs, j);
      ClusterOrder(v, cs[q], cs[q] + 1);
    }
  }

  // ---------------------------------------------------------------------
  // Entries of a directory
  // ---------------------------------------------------------------------

  predicate OnVolume(v: Vol, ss: seq<nat>)
  {
    forall i :: 0 <= i < |ss| ==> ss[i] < |v.sec| && |v.sec[ss[i]]| == 512
  }

  function Entries(v: Vol, ss: seq<nat>): (es: seq<Entry>)
    requires OnVolume(v, ss)
    ensures |es| == 16 * |ss|
  {
    seq<Entry>(16 * |ss|, n requires 0 <= n < 16 * |ss| => Slot(v.sec[ss[n / 16]], n % 16))
  }

  /** Rewriting slot n of the directory, sector by sector. */
  function WriteSlot(v: Vol, ss: seq<nat>, n: nat, e: Entry): (r: Vol)
    requires OnVolume(v, ss) && n < 16 * |ss|
  {
    var at := ss[n / 16];
    v.(sec := v.sec[at := PutSlot(v.sec[at], n % 16, e)])
  }

  lemma WriteSlotHere(v: Vol, ss: seq<nat>, n: nat, e: Entry)
    requires OnVolume(v, ss) && Distinct(ss) && n < 16 * |ss|
    ensures OnVolume(WriteSlot(v, ss, n, e), ss)
    ensures Entries(WriteSlot(v, ss, n, e), ss) == Entries(v, ss)[n := e]
  {
    var v1 := WriteSlot(v, ss, n, e);
    forall m | 0 <= m < 16 * |ss| ensures Entries(v1, ss)[m] == Entries(v, ss)[n := e][m] {
      if m / 16 == n / 16 {
        SlotReadsBack(v.sec[ss[n / 16]], n % 16, e, m % 16);
      }
    }
  }

  lemma WriteSlotElsewhere(v: Vol, ss: seq<nat>, n: nat, e: Entry, tt: seq<nat>)
    requires OnVolume(v, ss) && n < 16 * |ss| && OnVolume(v, tt) && Disjoint(ss, tt)
    ensures OnVolume(WriteSlot(v, ss, n, e), tt)
    ensures Entries(WriteSlot(v, ss, n, e), tt) == Entries(v, tt)
  {
    assert forall j :: 0 <= j < |tt| ==> tt[j] != ss[n / 16];
  }
}
