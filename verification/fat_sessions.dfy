/** mkdir and whole sessions (src/kernel/kernel.c:393-494): every run of touch,
    mkdir, rm, rmdir and cd keeps the file system healthy. */
module Sessions {
  import opened Options
  import opened FatTable
  import opened Names
  import opened Directory
  import opened Volume
  import T = FileTree
  import opened FileTree
  import opened Mount

  // ---------------------------------------------------------------------
  // The first sector of a new directory
  // ---------------------------------------------------------------------

  /** An entry whose name is the given number of dots. */
  function DotsEntry(dots: nat, c: nat): Entry
  {
    seq<nat>(32, i requires 0 <= i < 32 =>
      if i < dots then DOT else if i < 11 then SPACE else if i == 11 then ATTR_DIRECTORY
      else if i == 26 then c % 256 else if i == 27 then c / 256 else 0)
  }

  function NewDirSector(c: nat, parent: nat): (s: Sector)
    ensures |s| == 512
  {
    seq<nat>(512, i requires 0 <= i < 512 =>
      if i < 32 then DotsEntry(1, c)[i] else if i < 64 then DotsEntry(2, parent)[i - 32] else 0)
  }

  /** The slots of a new directory of n slots. */
  function FreshKinds(c: nat, parent: nat, n: nat): seq<Kind>
  {
    seq<Kind>(n, i requires 0 <= i < n => if i == 0 then Self(c) else if i == 1 then Up(parent) else End)
  }

  lemma NewDirSlots(c: nat, parent: nat, k: nat)
    requires k < PER_SECTOR
    ensures KindOf(Slot(NewDirSector(c, parent), k)) == FreshKinds(c, parent, 16)[k]
  {
    var e := Slot(NewDirSector(c, parent), k);
    if k == 0 {
      assert e == DotsEntry(1, c);
    } else if k == 1 {
      assert e == DotsEntry(2, parent);
    } else {
      assert e[0] == NewDirSector(c, parent)[32 * k];
    }
  }

  // ---------------------------------------------------------------------
  // Claiming and formatting a cluster
  // ---------------------------------------------------------------------

  /** The volume with cluster c claimed and formatted as a directory. */
  function FormatOn(v: Vol, c: nat, parent: nat): Vol
    requires c < |v.fat| && ClusterStart(v, c) < |v.sec|
  {
    v.(fat := v.fat[c := LAST], sec := v.sec[ClusterStart(v, c) := NewDirSector(c, parent)])
  }

  /** The sectors of one cluster. */
  function ClusterSectors(v: Vol, c: nat): (r: seq<nat>)
    ensures |r| == v.spc
  {
    SectorRange(ClusterStart(v, c), v.spc)
  }

  /** A free cluster has no sector in common with any directory. */
  lemma FreeClusterIsNoDirs(v: Vol, fs: Fs, c: nat, b: nat)
    requires ChainsOk(fs) && v.spc >= 1 && 2 <= c < |fs.fat| && fs.fat[c] == 0 && b in fs.dir
    ensures Disjoint(ClusterSectors(v, c), SectorsOf(v, fs, b))
  {
    var ss := SectorsOf(v, fs, b);
    forall i, j | 0 <= i < v.spc && 0 <= j < |ss| ensures ClusterSectors(v, c)[i] != ss[j] {
      if b == 0 {
        ClusterOrder(v, c, c + 1);
      } else {
        assert ChainOk(fs, b);
        FreeIsUnclaimed(fs, c, b);
        var q, r := SectorOrigin(v, fs.chains[b], j);
        assert fs.chains[b][q] in fs.chains[b];
        ClustersApart(v, c, i, fs.chains[b][q], r);
      }
    }
  }

  lemma FormatMountsDir(v: Vol, fs: Fs, c: nat, parent: nat, b: nat)
    requires Mounted(v, fs) && ChainsOk(fs) && 2 <= c < fs.limit && fs.fat[c] == 0 && b in fs.dir
    ensures ClusterStart(v, c) < |v.sec|
    ensures DirMounted(FormatOn(v, c, parent), Claim(fs, c), b)
  {
    assert ClusterStart(v, c) + v.spc <= |v.sec|;
    assert DirMounted(v, fs, b);
    var v1, fs1 := FormatOn(v, c, parent), Claim(fs, c);
    var ss := SectorsOf(v, fs, b);
    FreeClusterIsNoDirs(v, fs, c, b);
    SameSectors(v, v1, fs, fs1, b);
    assert forall j :: 0 <= j < |ss| ==> ClusterSectors(v, c)[0] != ss[j];
    assert Entries(v1, ss) == Entries(v, ss);
  }

  lemma FormatIsGood(v: Vol, fs: Fs, c: nat, parent: nat)
    requires Good(v, fs) && 2 <= c < fs.limit && fs.fat[c] == 0
    ensures ClusterStart(v, c) < |v.sec|
    ensures Good(FormatOn(v, c, parent), Claim(fs, c))
  {
    assert ClusterStart(v, c) + v.spc <= |v.sec|;
    var v1, fs1 := FormatOn(v, c, parent), Claim(fs, c);
    ClaimIsHealthy(fs, c);
    forall a | 2 <= a < fs.limit ensures ClusterStart(v1, a) + v1.spc <= |v1.sec| {
      assert ClusterStart(v1, a) == ClusterStart(v, a);
    }
    forall b | b in fs1.dir ensures DirMounted(v1, fs1, b) {
      FormatMountsDir(v, fs, c, parent, b);
    }
  }

  /** Slot n of cluster c is an end marker. */
  ghost predicate Blank(v: Vol, c: nat, n: nat)
    requires Geometry(v, c + 1) && 2 <= c && n < 16 * v.spc
  {
    assert ClusterStart(v, c) + v.spc <= |v.sec|;
    IsEnd(Slot(v.sec[ClusterStart(v, c) + n / 16], n % 16))
  }

  lemma FreshFrom16(ks: seq<Kind>, c: nat, parent: nat)
    requires |ks| >= 16 && forall n :: 0 <= n < 16 ==> ks[n] == FreshKinds(c, parent, 16)[n]
    ensures FreshDir(ks, c, parent) <==> forall n :: 16 <= n < |ks| ==> ks[n] == End
  {
  }

  /** Behind its first sector the cluster holds nothing but end markers. */
  ghost predicate RestBlank(v: Vol, c: nat)
    requires Geometry(v, c + 1) && 2 <= c
  {
    forall n {:trigger Blank(v, c, n)} :: 16 <= n < 16 * v.spc ==> Blank(v, c, n)
  }

  lemma WholeCluster(v: Vol, c: nat)
    ensures ChainSectors(v, [c]) == ClusterSectors(v, c)
  {
    assert [c][1..] == [];
  }

  lemma FormattedSlot(v: Vol, c: nat, parent: nat, n: nat)
    requires Geometry(v, c + 1) && 2 <= c < |v.fat| && n < 16 * v.spc && ClusterStart(v, c) + v.spc <= |v.sec|
    ensures OnVolume(FormatOn(v, c, parent), ClusterSectors(v, c))
    ensures var k := Kinds(Entries(FormatOn(v, c, parent), ClusterSectors(v, c)))[n];
            if n < 16 then k == FreshKinds(c, parent, 16)[n]
            else k == End <==> Blank(v, c, n)
  {
    if n < 16 {
      NewDirSlots(c, parent, n);
    }
  }

  /** What mkdir's one formatted sector makes of the whole cluster. */
  lemma FormattedKinds(v: Vol, c: nat, parent: nat)
    requires Geometry(v, c + 1) && 2 <= c < |v.fat|
    ensures ClusterStart(v, c) < |v.sec| && OnVolume(FormatOn(v, c, parent), ClusterSectors(v, c))
    ensures var ks := Kinds(Entries(FormatOn(v, c, parent), ClusterSectors(v, c)));
            && (FreshDir(ks, c, parent) <==> RestBlank(v, c))
            && (RestBlank(v, c) ==> ks == FreshKinds(c, parent, 16 * v.spc))
  {
    assert ClusterStart(v, c) + v.spc <= |v.sec|;
    FormattedSlot(v, c, parent, 0);
    var ks := Kinds(Entries(FormatOn(v, c, parent), ClusterSectors(v, c)));
    forall n | 0 <= n < 16 ensures ks[n] == FreshKinds(c, parent, 16)[n] {
      FormattedSlot(v, c, parent, n);
    }
    forall n | 16 <= n < 16 * v.spc ensures ks[n] == End <==> Blank(v, c, n) {
      FormattedSlot(v, c, parent, n);
    }
    FreshFrom16(ks, c, parent);
    if RestBlank(v, c) {
      forall n | 0 <= n < |ks| ensures ks[n] == FreshKinds(c, parent, 16 * v.spc)[n] {
        assert n >= 16 ==> Blank(v, c, n);
      }
    }
  }

  /** mkdir formats one sector only, however large the cluster: the new
      directory is as it should be exactly if the other sectors held nothing
      but end markers before. */
  lemma FormattedIsFreshExactly(v: Vol, c: nat, parent: nat)
    requires Geometry(v, c + 1) && 2 <= c < |v.fat|
    ensures ClusterStart(v, c) < |v.sec|
    ensures var v1 := FormatOn(v, c, parent);
            && OnVolume(v1, ChainSectors(v1, [c]))
            && (FreshDir(Kinds(Entries(v1, ChainSectors(v1, [c]))), c, parent) <==> RestBlank(v, c))
  {
    FormattedKinds(v, c, parent);
    WholeCluster(FormatOn(v, c, parent), c);
    assert ClusterStart(FormatOn(v, c, parent), c) == ClusterStart(v, c);
  }

  /** A volume with two sectors per cluster, one cluster, and old data in it. */
  function StaleVolume(): (v: Vol)
  {
    Vol(2, 0, [0, 0, 0], [seq<nat>(512, i requires 0 <= i < 512 => 1), seq<nat>(512, i requires 0 <= i < 512 => 1)])
  }

  /** There mkdir leaves a directory whose slots behind the first end marker
      are not end markers. */
  lemma StaleDirectory(parent: nat)
    ensures Geometry(StaleVolume(), 3) && Allocate(StaleVolume().fat).1 == 2
    ensures var v1 := FormatOn(StaleVolume(), 2, parent);
            OnVolume(v1, ChainSectors(v1, [2])) && !FreshDir(Kinds(Entries(v1, ChainSectors(v1, [2]))), 2, parent)
            && !TailClean(Entries(v1, ChainSectors(v1, [2])))
  {
    var v := StaleVolume();
    FormattedIsFreshExactly(v, 2, parent);
    FormattedKinds(v, 2, parent);
    FormattedSlot(v, 2, parent, 15);
    FormattedSlot(v, 2, parent, 16);
    assert !Blank(v, 2, 16);
    var v1 := FormatOn(v, 2, parent);
    WholeCluster(v1, 2);
    var es := Entries(v1, ClusterSectors(v, 2));
    assert Kinds(es)[15] == End && Kinds(es)[16] != End;
    assert IsEnd(es[15]) && !IsEnd(es[16]);
  }

  // ---------------------------------------------------------------------
  // mkdir
  // ---------------------------------------------------------------------

  /** The mkdir sequence in the current directory cwd with sectors ss. */
  function MkdirOn(v: Vol, ss: seq<nat>, cwd: nat, f: seq<nat>): (r: (Vol, bool))
    requires OnVolume(v, ss)
  {
    var c := Allocate(v.fat).1;
    if c == 0 then (v, false)
    else if c >= |v.fat| || ClusterStart(v, c) >= |v.sec| then (v, false)
    else
      var v1 := FormatOn(v, c, cwd);
      assert OnVolume(v1, ss);
      CreateIn(v1, ss, f, ATTR_DIRECTORY, c, 0)
  }

  /** The tree afterwards; es are the current directory's entries, spc the
      sectors of a cluster. A name that starts with the deletion mark loses
      the directory, a full directory loses the cluster. */
  function Made(fs: Fs, es: seq<Entry>, f: seq<nat>, spc: nat): Fs
    requires fs.cwd in fs.dir && |fs.dir[fs.cwd]| == |es| && f != []
  {
    var c := Allocate(fs.fat).1;
    var n := FreeSlot(es);
    if c == 0 || c >= |fs.fat| then fs
    else if n == |es| then Claim(fs, c)
    else if UpperChar(f[0]) == DELETED then T.PutSlot(Claim(fs, c), fs.cwd, n, Gone)
    else Adopt(Claim(fs, c), fs.cwd, n, c, FreshKinds(c, fs.cwd, 16 * spc))
  }

  /** Formatting a free cluster does not show in the current directory. */
  lemma FormatKeepsHere(v: Vol, fs: Fs, c: nat)
    requires Good(v, fs) && 2 <= c < fs.limit && fs.fat[c] == 0
    ensures ClusterStart(v, c) < |v.sec|
    ensures var v1, ss := FormatOn(v, c, fs.cwd), SectorsOf(v, fs, fs.cwd);
            OnVolume(v, ss) && OnVolume(v1, ss) && Entries(v1, ss) == Entries(v, ss)
                && SectorsOf(v1, Claim(fs, c), fs.cwd) == ss
  {
    assert ClusterStart(v, c) + v.spc <= |v.sec|;
    assert DirMounted(v, fs, fs.cwd);
    var v1, ss := FormatOn(v, c, fs.cwd), SectorsOf(v, fs, fs.cwd);
    FreeClusterIsNoDirs(v, fs, c, fs.cwd);
    SameSectors(v, v1, fs, Claim(fs, c), fs.cwd);
    assert forall j :: 0 <= j < |ss| ==> ClusterSectors(v, c)[0] != ss[j];
  }

  /** Entering the formatted cluster c under slot n: every directory is read
      off the volume as before, and the new one as it was formatted. */
  lemma AdoptMountsDir(v: Vol, fs: Fs, n: nat, c: nat, e: Entry, b: nat)
    requires Good(v, fs) && n < |fs.dir[fs.cwd]| && KindOf(e) == Sub(c) && c !in fs.dir && b in fs.dir
    ensures OnVolume(v, SectorsOf(v, fs, fs.cwd)) && n < 16 * |SectorsOf(v, fs, fs.cwd)|
    ensures DirMounted(PutOn(v, fs, fs.cwd, n, e), Adopt(fs, fs.cwd, n, c, FreshKinds(c, fs.cwd, 16 * v.spc)), b)
  {
    PutMountsDir(v, fs, fs.cwd, n, e, b);
    var v1, fs1 := PutOn(v, fs, fs.cwd, n, e), T.PutSlot(fs, fs.cwd, n, Sub(c));
    SameSectors(v1, v1, fs1, Adopt(fs, fs.cwd, n, c, FreshKinds(c, fs.cwd, 16 * v.spc)), b);
  }

  lemma AdoptMountsNew(v: Vol, fs: Fs, n: nat, c: nat, e: Entry)
    requires Good(v, fs) && n < |fs.dir[fs.cwd]| && c >= 2 && c !in fs.dir
    requires OnVolume(v, ClusterSectors(v, c))
             && Kinds(Entries(v, ClusterSectors(v, c))) == FreshKinds(c, fs.cwd, 16 * v.spc)
    requires Disjoint(SectorsOf(v, fs, fs.cwd), ClusterSectors(v, c))
    ensures OnVolume(v, SectorsOf(v, fs, fs.cwd)) && n < 16 * |SectorsOf(v, fs, fs.cwd)|
    ensures DirMounted(PutOn(v, fs, fs.cwd, n, e), Adopt(fs, fs.cwd, n, c, FreshKinds(c, fs.cwd, 16 * v.spc)), c)
  {
    CurrentDir(v, fs);
    var v1 := PutOn(v, fs, fs.cwd, n, e);
    WholeCluster(v1, c);
    assert ClusterStart(v1, c) == ClusterStart(v, c);
    WriteSlotElsewhere(v, SectorsOf(v, fs, fs.cwd), n, e, ClusterSectors(v, c));
  }

  lemma AdoptIsMounted(v: Vol, fs: Fs, n: nat, c: nat, e: Entry)
    requires Good(v, fs) && n < |fs.dir[fs.cwd]| && c >= 2 && c !in fs.dir && KindOf(e) == Sub(c)
    requires OnVolume(v, ClusterSectors(v, c))
             && Kinds(Entries(v, ClusterSectors(v, c))) == FreshKinds(c, fs.cwd, 16 * v.spc)
    requires Disjoint(SectorsOf(v, fs, fs.cwd), ClusterSectors(v, c))
    ensures OnVolume(v, SectorsOf(v, fs, fs.cwd)) && n < 16 * |SectorsOf(v, fs, fs.cwd)|
    ensures Mounted(PutOn(v, fs, fs.cwd, n, e), Adopt(fs, fs.cwd, n, c, FreshKinds(c, fs.cwd, 16 * v.spc)))
  {
    CurrentDir(v, fs);
    var v1, fs1 := PutOn(v, fs, fs.cwd, n, e), Adopt(fs, fs.cwd, n, c, FreshKinds(c, fs.cwd, 16 * v.spc));
    PutKeepsGeometry(v, fs.limit, SectorsOf(v, fs, fs.cwd), n, e);
    AdoptMountsNew(v, fs, n, c, e);
    forall b | b in fs1.dir ensures DirMounted(v1, fs1, b) {
      if b != c {
        AdoptMountsDir(v, fs, n, c, e, b);
      }
    }
  }

  /** A new entry in a free slot leaves the directory's tail clean and is
      booked under no chain. */
  lemma NewSlot(v: Vol, fs: Fs, n: nat, e: Entry)
    requires Good(v, fs) && OnVolume(v, SectorsOf(v, fs, fs.cwd)) && n == FreeSlot(Here(v, fs)) < |Here(v, fs)|
             && e[0] != 0
    ensures n < |fs.dir[fs.cwd]| && CleanTail(fs.dir[fs.cwd][n := KindOf(e)])
    ensures forall a :: a in fs.owner ==> fs.owner[a] != (fs.cwd, n)
  {
    var es := Here(v, fs);
    CurrentDir(v, fs);
    SlotOf(v, fs, n);
    CreateKeepsTail(es, e);
    KindsOfTail(es[n := e]);
    KindsOfUpdate(es, n, e);
    forall a | a in fs.owner ensures fs.owner[a] != (fs.cwd, n) {
      NotBooked(fs, fs.cwd, n, a);
    }
  }

  lemma GoneIsGood(v: Vol, fs: Fs, n: nat, e: Entry)
    requires Good(v, fs) && OnVolume(v, SectorsOf(v, fs, fs.cwd)) && n == FreeSlot(Here(v, fs)) < |Here(v, fs)|
             && KindOf(e) == Gone
    ensures n < |fs.dir[fs.cwd]| && n < 16 * |SectorsOf(v, fs, fs.cwd)|
    ensures Good(PutOn(v, fs, fs.cwd, n, e), T.PutSlot(fs, fs.cwd, n, Gone))
  {
    NewSlot(v, fs, n, e);
    PutIsHealthy(fs, fs.cwd, n, Gone);
    PutIsMounted(v, fs, fs.cwd, n, e);
  }

  lemma AdoptIsGood(v: Vol, fs: Fs, n: nat, c: nat, e: Entry)
    requires Good(v, fs) && OnVolume(v, SectorsOf(v, fs, fs.cwd)) && n == FreeSlot(Here(v, fs)) < |Here(v, fs)|
    requires KindOf(e) == Sub(c)
    requires 2 <= c < fs.limit && c < |fs.fat| && fs.fat[c] == LAST && c !in fs.dir
    requires forall b :: b in fs.chains ==> b != c && c !in fs.chains[b]
    requires OnVolume(v, ClusterSectors(v, c))
             && Kinds(Entries(v, ClusterSectors(v, c))) == FreshKinds(c, fs.cwd, 16 * v.spc)
    requires Disjoint(SectorsOf(v, fs, fs.cwd), ClusterSectors(v, c))
    ensures n < |fs.dir[fs.cwd]| && n < 16 * |SectorsOf(v, fs, fs.cwd)|
    ensures Good(PutOn(v, fs, fs.cwd, n, e), Adopt(fs, fs.cwd, n, c, FreshKinds(c, fs.cwd, 16 * v.spc)))
  {
    NewSlot(v, fs, n, e);
    AdoptIsHealthy(fs, fs.cwd, n, c, FreshKinds(c, fs.cwd, 16 * v.spc));
    AdoptIsMounted(v, fs, n, c, e);
  }

  /** What there is to see of a claimed and formatted cluster. */
  lemma FormattedCluster(v: Vol, fs: Fs, c: nat)
    requires Good(v, fs) && 2 <= c < fs.limit && fs.fat[c] == 0 && RestBlank(v, c)
    ensures ClusterStart(v, c) < |v.sec|
    ensures var v1 := FormatOn(v, c, fs.cwd);
            && OnVolume(v1, ClusterSectors(v1, c)) && v1.spc == v.spc
            && Kinds(Entries(v1, ClusterSectors(v1, c))) == FreshKinds(c, fs.cwd, 16 * v1.spc)
            && Disjoint(SectorsOf(v1, Claim(fs, c), fs.cwd), ClusterSectors(v1, c))
  {
    FormattedKinds(v, c, fs.cwd);
    FreeClusterIsNoDirs(v, fs, c, fs.cwd);
    FormatKeepsHere(v, fs, c);
    assert ClusterStart(FormatOn(v, c, fs.cwd), c) == ClusterStart(v, c);
  }

  /** The formatted cluster c entered under slot n. */
  lemma NewDirIsGood(v: Vol, fs: Fs, n: nat, c: nat, e: Entry)
    requires Good(v, fs) && 2 <= c < fs.limit && fs.fat[c] == 0 && KindOf(e) == Sub(c) && RestBlank(v, c)
    requires OnVolume(v, SectorsOf(v, fs, fs.cwd)) && n == FreeSlot(Here(v, fs)) < |Here(v, fs)|
    ensures n < |fs.dir[fs.cwd]| && n < 16 * |SectorsOf(v, fs, fs.cwd)| && ClusterStart(v, c) < |v.sec|
    ensures OnVolume(FormatOn(v, c, fs.cwd), SectorsOf(v, fs, fs.cwd))
    ensures Good(WriteSlot(FormatOn(v, c, fs.cwd), SectorsOf(v, fs, fs.cwd), n, e),
                 Adopt(Claim(fs, c), fs.cwd, n, c, FreshKinds(c, fs.cwd, 16 * v.spc)))
  {
    FormatIsGood(v, fs, c, fs.cwd);
    FormatKeepsHere(v, fs, c);
    FormattedCluster(v, fs, c);
    NotAnywhere(fs, c);
    CurrentDir(v, fs);
    AdoptIsGood(FormatOn(v, c, fs.cwd), Claim(fs, c), n, c, e);
  }

  lemma NotAnywhere(fs: Fs, c: nat)
    requires ChainsOk(fs) && 2 <= c < |fs.fat| && fs.fat[c] == 0
    ensures c !in fs.dir && forall b :: b in fs.chains ==> b != c && c !in fs.chains[b]
  {
    forall b | b in fs.chains ensures b != c && c !in fs.chains[b] {
      FreeIsUnclaimed(fs, c, b);
    }
  }

  /** mkdir once a cluster has been found. */
  lemma MkdirWithCluster(v: Vol, fs: Fs, c: nat, f: seq<nat>)
    requires Good(v, fs) && f != [] && CString(f)
    requires Allocate(fs.fat).1 == c && 2 <= c < fs.limit && fs.fat[c] == 0 && RestBlank(v, c)
    ensures OnVolume(v, SectorsOf(v, fs, fs.cwd)) && |fs.dir[fs.cwd]| == |Here(v, fs)|
    ensures Good(MkdirOn(v, SectorsOf(v, fs, fs.cwd), fs.cwd, f).0, Made(fs, Here(v, fs), f, v.spc))
  {
    CurrentDir(v, fs);
    FormatIsGood(v, fs, c, fs.cwd);
    FormatKeepsHere(v, fs, c);
    var es, n := Here(v, fs), FreeSlot(Here(v, fs));
    var v1, fs1 := FormatOn(v, c, fs.cwd), Claim(fs, c);
    if n < |es| {
      var e := NewEntry(es[n], f, ATTR_DIRECTORY, c, 0);
      NewDirKind(es[n], f, c);
      if UpperChar(f[0]) == DELETED {
        GoneIsGood(v1, fs1, n, e);
      } else {
        NewDirIsGood(v, fs, n, c, e);
      }
    }
  }

  /** The cluster that mkdir would claim holds nothing but end markers behind
      its first sector. With one sector per cluster there is nothing there. */
  ghost predicate ClaimIsBlank(v: Vol)
  {
    var c := Allocate(v.fat).1;
    c >= 2 && Geometry(v, c + 1) ==> RestBlank(v, c)
  }

  /** mkdir keeps the file system healthy, whether it succeeds or not; what a
      failed one may lose is the cluster it claimed. */
  lemma MkdirIsGood(v: Vol, fs: Fs, f: seq<nat>)
    requires Good(v, fs) && f != [] && CString(f) && ClaimIsBlank(v)
    ensures OnVolume(v, SectorsOf(v, fs, fs.cwd)) && |fs.dir[fs.cwd]| == |Here(v, fs)|
    ensures Good(MkdirOn(v, SectorsOf(v, fs, fs.cwd), fs.cwd, f).0, Made(fs, Here(v, fs), f, v.spc))
  {
    CurrentDir(v, fs);
    AllocateClaimsLowest(v.fat);
    var c := Allocate(v.fat).1;
    if c != 0 {
      assert c < fs.limit;
      MkdirWithCluster(v, fs, c, f);
    }
  }

  // ---------------------------------------------------------------------
  // Sessions
  // ---------------------------------------------------------------------

  datatype Op =
    | Touch(name: seq<nat>)
    | Mkdir(name: seq<nat>)
    | Rm(name: seq<nat>)
    | Rmdir(name: seq<nat>)
    | Cd(name: seq<nat>)

  /** Names are tokens of a command line; rmdir is not given ".". */
  predicate Legal(op: Op)
  {
    op.name != [] && CString(op.name) && (op.Rmdir? ==> op.name != [DOT])
  }

  datatype State = State(v: Vol, fs: Fs)

  ghost predicate Allowed(s: State, op: Op)
  {
    Legal(op) && (op.Mkdir? ==> ClaimIsBlank(s.v))
  }

  /** With one sector per cluster every legal command is allowed. */
  lemma OneSectorIsBlank(s: State, op: Op)
    requires s.v.spc == 1 && Legal(op)
    ensures Allowed(s, op)
  {
  }

  ghost predicate Sound(s: State) { Good(s.v, s.fs) }

  /** One command: what it does to the volume and the current directory, and
      the tree that is then on the volume. */
  function Next(s: State, op: Op): State
    requires OnVolume(s.v, SectorsOf(s.v, s.fs, s.fs.cwd)) && s.fs.cwd in s.fs.dir
    requires |s.fs.dir[s.fs.cwd]| == |Here(s.v, s.fs)| && op.name != []
  {
    var (v, fs) := (s.v, s.fs);
    var ss := SectorsOf(v, fs, fs.cwd);
    match op
    case Touch(f) => State(CreateIn(v, ss, f, 0, 0, 0).0, Touched(v, fs, f))
    case Mkdir(f) => State(MkdirOn(v, ss, fs.cwd, f).0, Made(fs, Here(v, fs), f, v.spc))
    case Rm(g) =>
      var r := RmTarget(v, fs, g);
      if r.None? then s else State(DeleteSlot(v, fs, r.value), SlotDeleted(v, fs, r.value))
    case Rmdir(g) =>
      var r := RmdirTarget(v, fs, g);
      if r.None? then s else State(DeleteSlot(v, fs, r.value), SlotDeleted(v, fs, r.value))
    case Cd(g) => State(v, fs.(cwd := CdTo(v, fs, g)))
  }

  lemma NextIsSound(s: State, op: Op)
    requires Sound(s) && Allowed(s, op)
    ensures OnVolume(s.v, SectorsOf(s.v, s.fs, s.fs.cwd)) && |s.fs.dir[s.fs.cwd]| == |Here(s.v, s.fs)|
    ensures Sound(Next(s, op)) && Next(s, op).v.spc == s.v.spc
  {
    CurrentDir(s.v, s.fs);
    match op
    case Touch(f) => TouchIsGood(s.v, s.fs, f);
    case Mkdir(f) => MkdirIsGood(s.v, s.fs, f);
    case Rm(g) => RmIsGood(s.v, s.fs, g);
    case Rmdir(g) =>
      if FindsItself(s.v, s.fs, g) {
        OnlyDotFindsItself(s.v, s.fs, g);
      }
      RmdirIsGood(s.v, s.fs, g);
    case Cd(g) => CdIsGood(s.v, s.fs, g);
  }

  /** States connected by the commands of a session. */
  ghost predicate Step(s: State, op: Op, s1: State)
  {
    && OnVolume(s.v, SectorsOf(s.v, s.fs, s.fs.cwd)) && s.fs.cwd in s.fs.dir
    && |s.fs.dir[s.fs.cwd]| == |Here(s.v, s.fs)| && op.name != []
    && s1 == Next(s, op)
  }

  ghost predicate Session(states: seq<State>, ops: seq<Op>)
  {
    && |states| == |ops| + 1
    && forall i :: 0 <= i < |ops| ==> Allowed(states[i], ops[i]) && Step(states[i], ops[i], states[i + 1])
  }

  /** Every state of every session is a healthy file system read off the bytes
      of the volume: chains acyclic, end-marked and disjoint, no live chain
      with a free cluster, directories with clean tails, and a current
      directory that is still there. */
  lemma {:induction false} EverySessionIsSound(states: seq<State>, ops: seq<Op>, i: nat)
    requires Session(states, ops) && Sound(states[0]) && i < |states|
    ensures Sound(states[i]) && states[i].v.spc == states[0].v.spc
  {
    if i > 0 {
      EverySessionIsSound(states, ops, i - 1);
      assert Allowed(states[i - 1], ops[i - 1]) && Step(states[i - 1], ops[i - 1], states[i]);
      NextIsSound(states[i - 1], ops[i - 1]);
    }
  }

  /** Sessions can begin: a volume with nothing but end markers in its root
      directory is a healthy file system. */
  lemma EmptyVolumeIsSound(v: Vol, limit: nat)
    requires Geometry(v, limit) && limit <= |v.fat| && limit <= END_MARK
    requires forall c :: 2 <= c < |v.fat| && v.fat[c] == 0 ==> c < limit
    requires forall i :: 0 <= i < v.rootSectors ==> forall k :: 0 <= k < 16 ==> IsEnd(Slot(v.sec[i], k))
    ensures var root := SectorRange(0, v.rootSectors);
            OnVolume(v, root) && Sound(State(v, Fs(v.fat, limit, map[0 := Kinds(Entries(v, root))], 0, map[], map[])))
  {
    var root := SectorRange(0, v.rootSectors);
    var ks := Kinds(Entries(v, root));
    var fs := Fs(v.fat, limit, map[0 := ks], 0, map[], map[]);
    forall n | 0 <= n < |ks| ensures ks[n] == End {
      assert Entries(v, root)[n] == Slot(v.sec[n / 16], n % 16);
    }
    assert DirOk(fs, 0);
    forall i, j | 0 <= i < j < |root| ensures root[i] != root[j] {
    }
    assert DirMounted(v, fs, 0);
  }

  /** No command of a session is ever stuck. */
  lemma SessionsGoOn(s: State, op: Op)
    requires Sound(s) && Allowed(s, op)
    ensures OnVolume(s.v, SectorsOf(s.v, s.fs, s.fs.cwd)) && |s.fs.dir[s.fs.cwd]| == |Here(s.v, s.fs)|
    ensures Step(s, op, Next(s, op))
  {
    NextIsSound(s, op);
  }

  // ---------------------------------------------------------------------
  // rmdir "." in a session
  // ---------------------------------------------------------------------

  /** mkdir of a new name in 8.3 shape has what it needs: a cluster and a slot. */
  ghost predicate CanMake(v: Vol, fs: Fs, f: seq<nat>)
  {
    && Good(v, fs) && ClaimIsBlank(v) && Storable(f) && EightThree(f) && Allocate(v.fat).1 != 0
    && OnVolume(v, SectorsOf(v, fs, fs.cwd)) && Find(Here(v, fs), f) == None
    && FreeSlot(Here(v, fs)) < |Here(v, fs)| == |fs.dir[fs.cwd]|
  }

  /** What mkdir then does on the volume. */
  lemma MkdirCreates(v: Vol, fs: Fs, f: seq<nat>, c: nat)
    requires CanMake(v, fs, f) && c == Allocate(v.fat).1
    ensures 2 <= c < fs.limit && fs.fat[c] == 0 && ClusterStart(v, c) < |v.sec|
    ensures var v1, ss := FormatOn(v, c, fs.cwd), SectorsOf(v, fs, fs.cwd);
            && OnVolume(v1, ss) && Entries(v1, ss) == Entries(v, ss) && Distinct(ss) && TailClean(Entries(v1, ss))
            && MkdirOn(v, ss, fs.cwd, f) == CreateIn(v1, ss, f, ATTR_DIRECTORY, c, 0)
            && CreateIn(v1, ss, f, ATTR_DIRECTORY, c, 0).1
  {
    CurrentDir(v, fs);
    AllocateClaimsLowest(v.fat);
    assert c < fs.limit;
    FormatKeepsHere(v, fs, c);
    assert DirMounted(v, fs, fs.cwd);
  }

  /** The name is then found in the current directory, as a directory that
      starts at the claimed cluster. */
  lemma MadeIsFound(v: Vol, fs: Fs, f: seq<nat>, c: nat)
    requires CanMake(v, fs, f) && c == Allocate(v.fat).1
    ensures var v1, ss := MkdirOn(v, SectorsOf(v, fs, fs.cwd), fs.cwd, f).0, SectorsOf(v, fs, fs.cwd);
            && OnVolume(v1, ss)
            && var r := Find(Entries(v1, ss), f);
               r.Some? && Cluster(Entries(v1, ss)[r.value]) == c && IsDir(Entries(v1, ss)[r.value])
  {
    MkdirCreates(v, fs, f, c);
    NewNameIsFound(FormatOn(v, c, fs.cwd), SectorsOf(v, fs, fs.cwd), f, c);
  }

  lemma NewNameIsFound(v: Vol, ss: seq<nat>, f: seq<nat>, c: nat)
    requires OnVolume(v, ss) && Distinct(ss) && TailClean(Entries(v, ss)) && Find(Entries(v, ss), f) == None
    requires Storable(f) && EightThree(f) && CreateIn(v, ss, f, ATTR_DIRECTORY, c, 0).1
    ensures var v1 := CreateIn(v, ss, f, ATTR_DIRECTORY, c, 0).0;
            && OnVolume(v1, ss)
            && var r := Find(Entries(v1, ss), f);
               r.Some? && Cluster(Entries(v1, ss)[r.value]) == c && IsDir(Entries(v1, ss)[r.value])
  {
    CreateShowsInFind(v, ss, f, f, ATTR_DIRECTORY, c, 0);
  }

  /** The tree then has the new directory, fresh and owned by the current one. */
  lemma MadeIsFresh(v: Vol, fs: Fs, f: seq<nat>, c: nat)
    requires CanMake(v, fs, f) && c == Allocate(v.fat).1
    ensures var fs1 := Made(fs, Here(v, fs), f, v.spc);
            && c in fs1.owner && c in fs1.dir && fs1.owner[c].0 == fs.cwd && FreshDir(fs1.dir[c], c, fs.cwd)
            && fs1.cwd == fs.cwd && (fs.cwd in fs1.chains <==> fs.cwd in fs.chains)
            && (fs.cwd in fs.chains ==> fs1.chains[fs.cwd] == fs.chains[fs.cwd])
  {
    AllocateClaimsLowest(v.fat);
    if fs.cwd in fs.chains {
      NewChainIsNew(fs, fs.cwd);
    }
    assert v.spc >= 1 && fs.cwd != c;
  }

  /** cd into it. */
  lemma MadeThenCd(v: Vol, fs: Fs, f: seq<nat>, c: nat)
    requires CanMake(v, fs, f) && c == Allocate(v.fat).1 && CString(f)
    ensures var v1, fs1 := MkdirOn(v, SectorsOf(v, fs, fs.cwd), fs.cwd, f).0, Made(fs, Here(v, fs), f, v.spc);
            && Good(v1, fs1) && OnVolume(v1, SectorsOf(v1, fs1, fs1.cwd)) && CdTo(v1, fs1, f) == c
  {
    MkdirIsGood(v, fs, f);
    MadeIsFound(v, fs, f, c);
    MadeIsFresh(v, fs, f, c);
    var v1, fs1 := MkdirOn(v, SectorsOf(v, fs, fs.cwd), fs.cwd, f).0, Made(fs, Here(v, fs), f, v.spc);
    MkdirKeepsShape(v, fs, f);
    SameSectors(v, v1, fs, fs1, fs.cwd);
  }

  lemma MkdirKeepsShape(v: Vol, fs: Fs, f: seq<nat>)
    requires OnVolume(v, SectorsOf(v, fs, fs.cwd))
    ensures var v1 := MkdirOn(v, SectorsOf(v, fs, fs.cwd), fs.cwd, f).0;
            v1.spc == v.spc && v1.rootSectors == v.rootSectors
  {
  }

  /** mkdir, cd into the new directory, and there rmdir "." finds the current
      directory itself: the failing input of RmdirHealthyExactly is reached. */
  lemma MkdirCdFindsItself(v: Vol, fs: Fs, f: seq<nat>)
    requires CanMake(v, fs, f) && CString(f)
    ensures var v1, fs1 := MkdirOn(v, SectorsOf(v, fs, fs.cwd), fs.cwd, f).0, Made(fs, Here(v, fs), f, v.spc);
            && Good(v1, fs1) && OnVolume(v1, SectorsOf(v1, fs1, fs1.cwd))
            && var fs2 := fs1.(cwd := CdTo(v1, fs1, f));
               Good(v1, fs2) && OnVolume(v1, SectorsOf(v1, fs2, fs2.cwd)) && FindsItself(v1, fs2, [DOT])
  {
    var c := Allocate(v.fat).1;
    var v1, fs1 := MkdirOn(v, SectorsOf(v, fs, fs.cwd), fs.cwd, f).0, Made(fs, Here(v, fs), f, v.spc);
    MadeThenCd(v, fs, f, c);
    MadeIsFresh(v, fs, f, c);
    CdIsGood(v1, fs1, f);
    FreshDirFindsItself(v1, fs1.(cwd := c));
  }

  // ---------------------------------------------------------------------
  // What commands leave alone
  // ---------------------------------------------------------------------

  /** The sectors of a file chain hold the same bytes in both volumes. */
  ghost predicate SameBytes(v: Vol, v1: Vol, ss: seq<nat>)
  {
    |v1.sec| == |v.sec| && forall j :: 0 <= j < |ss| && ss[j] < |v.sec| ==> v1.sec[ss[j]] == v.sec[ss[j]]
  }

  lemma WriteSlotKeepsBytes(v: Vol, ss: seq<nat>, n: nat, e: Entry, tt: seq<nat>)
    requires OnVolume(v, ss) && n < 16 * |ss| && Disjoint(ss, tt)
    ensures SameBytes(v, WriteSlot(v, ss, n, e), tt)
  {
    assert forall j :: 0 <= j < |tt| ==> ss[n / 16] != tt[j];
  }

  lemma FileApartFromDir(v: Vol, fs: Fs, c: nat, d: nat)
    requires ChainsOk(fs) && c in fs.chains && c !in fs.dir && d in fs.dir
    ensures Disjoint(SectorsOf(v, fs, d), ChainSectors(v, fs.chains[c]))
  {
    assert ChainOk(fs, c);
    if d == 0 {
      ChainClearOfRoot(v, fs.chains[c]);
    } else {
      assert ChainOk(fs, d) && !Cross(fs.chains[d], fs.chains[c]);
      ChainsApart(v, fs.chains[d], fs.chains[c]);
    }
  }

  lemma FileApartFromFree(v: Vol, fs: Fs, c: nat, a: nat)
    requires ChainsOk(fs) && v.spc >= 1 && c in fs.chains && 2 <= a < |fs.fat| && fs.fat[a] == 0
    ensures Disjoint([ClusterStart(v, a)], ChainSectors(v, fs.chains[c]))
  {
    assert ChainOk(fs, c);
    FreeIsUnclaimed(fs, a, c);
    forall j | 0 <= j < |ChainSectors(v, fs.chains[c])| ensures ClusterStart(v, a) != ChainSectors(v, fs.chains[c])[j] {
      var q, r := SectorOrigin(v, fs.chains[c], j);
      assert fs.chains[c][q] in fs.chains[c];
      ClustersApart(v, a, 0, fs.chains[c][q], r);
    }
  }

  lemma MkdirKeepsBytes(v: Vol, fs: Fs, f: seq<nat>, c: nat)
    requires Good(v, fs) && OnVolume(v, SectorsOf(v, fs, fs.cwd)) && c in fs.chains && c !in fs.dir
    ensures SameBytes(v, MkdirOn(v, SectorsOf(v, fs, fs.cwd), fs.cwd, f).0, ChainSectors(v, fs.chains[c]))
  {
    AllocateClaimsLowest(v.fat);
    var ss, tt := SectorsOf(v, fs, fs.cwd), ChainSectors(v, fs.chains[c]);
    var a := Allocate(v.fat).1;
    if a != 0 && ClusterStart(v, a) < |v.sec| {
      FileApartFromFree(v, fs, c, a);
      FileApartFromDir(v, fs, c, fs.cwd);
      var v1 := FormatOn(v, a, fs.cwd);
      assert forall j :: 0 <= j < |tt| ==> [ClusterStart(v, a)][0] != tt[j];
      assert SameBytes(v, v1, tt);
      var n := FreeSlot(Entries(v1, ss));
      if n < 16 * |ss| {
        WriteSlotKeepsBytes(v1, ss, n, NewEntry(Entries(v1, ss)[n], f, ATTR_DIRECTORY, a, 0), tt);
      }
    }
  }

  lemma DeleteKeepsBytes(v: Vol, fs: Fs, n: nat, c: nat)
    requires Good(v, fs) && OnVolume(v, SectorsOf(v, fs, fs.cwd)) && n < |Here(v, fs)| && c in fs.chains && c !in fs.dir
    ensures SameBytes(v, DeleteSlot(v, fs, n), ChainSectors(v, fs.chains[c]))
  {
    FileApartFromDir(v, fs, c, fs.cwd);
    WriteSlotKeepsBytes(v, SectorsOf(v, fs, fs.cwd), n, DeletedEntry(Here(v, fs)[n]), ChainSectors(v, fs.chains[c]));
  }

  /** Every command leaves the bytes of every file as they are. */
  lemma FileBytesAreKept(s: State, op: Op, c: nat)
    requires Sound(s) && Legal(op) && c in s.fs.chains && c !in s.fs.dir
    ensures OnVolume(s.v, SectorsOf(s.v, s.fs, s.fs.cwd)) && |s.fs.dir[s.fs.cwd]| == |Here(s.v, s.fs)|
    ensures SameBytes(s.v, Next(s, op).v, ChainSectors(s.v, s.fs.chains[c]))
  {
    CurrentDir(s.v, s.fs);
    match op
    case Touch(f) => TouchKeepsBytes(s.v, s.fs, f, c);
    case Mkdir(f) => MkdirKeepsBytes(s.v, s.fs, f, c);
    case Rm(g) =>
      if RmTarget(s.v, s.fs, g).Some? {
        DeleteKeepsBytes(s.v, s.fs, RmTarget(s.v, s.fs, g).value, c);
      }
    case Rmdir(g) =>
      if RmdirTarget(s.v, s.fs, g).Some? {
        DeleteKeepsBytes(s.v, s.fs, RmdirTarget(s.v, s.fs, g).value, c);
      }
    case Cd(g) =>
  }

  lemma TouchKeepsBytes(v: Vol, fs: Fs, f: seq<nat>, c: nat)
    requires Good(v, fs) && OnVolume(v, SectorsOf(v, fs, fs.cwd)) && c in fs.chains && c !in fs.dir
    ensures SameBytes(v, CreateIn(v, SectorsOf(v, fs, fs.cwd), f, 0, 0, 0).0, ChainSectors(v, fs.chains[c]))
  {
    FileApartFromDir(v, fs, c, fs.cwd);
    var es, n := Here(v, fs), FreeSlot(Here(v, fs));
    if n < |es| {
      WriteSlotKeepsBytes(v, SectorsOf(v, fs, fs.cwd), n, NewEntry(es[n], f, 0, 0, 0), ChainSectors(v, fs.chains[c]));
    }
  }

  ghost predicate ChainKept(fs: Fs, fs1: Fs, c: nat)
    requires c in fs.chains
  {
    c in fs1.chains && fs1.chains[c] == fs.chains[c]
  }

  /** rm found the entry of chain c. */
  predicate RmFinds(v: Vol, fs: Fs, g: seq<nat>, c: nat)
    requires OnVolume(v, SectorsOf(v, fs, fs.cwd))
  {
    var r := RmTarget(v, fs, g);
    r.Some? && c in fs.owner && fs.owner[c] == (fs.cwd, r.value)
  }

  /** A file's chain stays as it is, unless the command is an rm that found
      the very entry of this file. */
  lemma FileChainsAreKept(s: State, op: Op, c: nat)
    requires Sound(s) && Legal(op) && c in s.fs.chains && c !in s.fs.dir
    ensures OnVolume(s.v, SectorsOf(s.v, s.fs, s.fs.cwd)) && |s.fs.dir[s.fs.cwd]| == |Here(s.v, s.fs)|
    ensures ChainKept(s.fs, Next(s, op).fs, c) <==> !(op.Rm? && RmFinds(s.v, s.fs, op.name, c))
  {
    CurrentDir(s.v, s.fs);
    match op
    case Touch(f) =>
    case Mkdir(f) => MkdirKeepsFile(s.fs, Here(s.v, s.fs), f, s.v.spc, c);
    case Rm(g) => RmKeepsFile(s.v, s.fs, g, c);
    case Rmdir(g) => RmdirKeepsFile(s.v, s.fs, g, c);
    case Cd(g) =>
  }

  lemma MkdirKeepsFile(fs: Fs, es: seq<Entry>, f: seq<nat>, spc: nat, c: nat)
    requires ChainsOk(fs) && c in fs.chains && fs.cwd in fs.dir && |fs.dir[fs.cwd]| == |es| && f != []
    ensures ChainKept(fs, Made(fs, es, f, spc), c)
  {
    NewChainIsNew(fs, c);
  }

  lemma RmKeepsFile(v: Vol, fs: Fs, g: seq<nat>, c: nat)
    requires Good(v, fs) && OnVolume(v, SectorsOf(v, fs, fs.cwd)) && |fs.dir[fs.cwd]| == |Here(v, fs)|
             && c in fs.chains && c !in fs.dir
    ensures var r := RmTarget(v, fs, g);
            r.Some? ==> (ChainKept(fs, SlotDeleted(v, fs, r.value), c) <==> !RmFinds(v, fs, g, c))
  {
    var r := RmTarget(v, fs, g);
    if r.Some? && RmFinds(v, fs, g, c) {
      assert OwnerOk(fs, c);
      SlotOf(v, fs, r.value);
    }
  }

  lemma RmdirKeepsFile(v: Vol, fs: Fs, g: seq<nat>, c: nat)
    requires Good(v, fs) && OnVolume(v, SectorsOf(v, fs, fs.cwd)) && |fs.dir[fs.cwd]| == |Here(v, fs)|
    requires c in fs.chains && c !in fs.dir
    ensures var r := RmdirTarget(v, fs, g); r.Some? ==> ChainKept(fs, SlotDeleted(v, fs, r.value), c)
  {
    var r := RmdirTarget(v, fs, g);
    if r.Some? {
      DirOwnsNoFile(v, fs, r.value, c);
      OtherSlotKeepsFile(v, fs, r.value, c);
    }
  }

  lemma DirOwnsNoFile(v: Vol, fs: Fs, n: nat, c: nat)
    requires Good(v, fs) && OnVolume(v, SectorsOf(v, fs, fs.cwd)) && n < |Here(v, fs)| && IsDir(Here(v, fs)[n])
    requires c in fs.chains && c !in fs.dir
    ensures fs.owner[c] != (fs.cwd, n)
  {
    assert OwnerOk(fs, c);
    SlotOf(v, fs, n);
    assert !KindOf(Here(v, fs)[n]).File?;
  }

  lemma OtherSlotKeepsFile(v: Vol, fs: Fs, n: nat, c: nat)
    requires OnVolume(v, SectorsOf(v, fs, fs.cwd)) && n < |Here(v, fs)| && fs.cwd in fs.dir
    requires |fs.dir[fs.cwd]| == |Here(v, fs)| && c in fs.chains && c in fs.owner && fs.owner[c] != (fs.cwd, n)
    ensures ChainKept(fs, SlotDeleted(v, fs, n), c)
  {
  }

  lemma NewChainIsNew(fs: Fs, c: nat)
    requires ChainsOk(fs) && c in fs.chains
    ensures Allocate(fs.fat).1 != c
  {
    AllocateClaimsLowest(fs.fat);
    assert ChainOk(fs, c);
    if Allocate(fs.fat).1 == c {
      FreeIsUnclaimed(fs, c, c);
    }
  }
}
