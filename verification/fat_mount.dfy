/** File systems on a volume: directory slots read off the bytes of their
    sectors, and the shell's touch, mkdir, rm, rmdir and cd as changes of the
    volume that keep it healthy (src/fs/fat.c:370-763, src/kernel/kernel.c:394-494). */
module Mount {
  import opened Options
  import opened FatTable
  import opened Names
  import opened Directory
  import opened Volume
  import T = FileTree
  import opened FileTree

  // ---------------------------------------------------------------------
  // Reading slots
  // ---------------------------------------------------------------------

  predicate IsDot(e: Entry) { e[0] == DOT && forall i :: 1 <= i < 11 ==> e[i] == SPACE }
  predicate IsDotDot(e: Entry) { e[0] == DOT && e[1] == DOT && forall i :: 2 <= i < 11 ==> e[i] == SPACE }

  function KindOf(e: Entry): Kind
  {
    if e[0] == 0 then End
    else if e[0] == DELETED then Gone
    else if IsVolume(e) then (if IsDir(e) then Odd else Label)
    else if DotClass(e) then
      (if IsDir(e) && IsDot(e) then Self(Cluster(e)) else if IsDir(e) && IsDotDot(e) then Up(Cluster(e)) else Odd)
    else if IsDir(e) then Sub(Cluster(e))
    else File(Cluster(e))
  }

  function Kinds(es: seq<Entry>): (ks: seq<Kind>)
    ensures |ks| == |es|
  {
    seq(|es|, n requires 0 <= n < |es| => KindOf(es[n]))
  }

  lemma KindsOfTail(es: seq<Entry>)
    ensures CleanTail(Kinds(es)) <==> TailClean(es)
  {
    assert forall n :: 0 <= n < |es| ==> (Kinds(es)[n] == End <==> IsEnd(es[n]));
  }

  lemma KindsOfUpdate(es: seq<Entry>, n: nat, e: Entry)
    requires n < |es|
    ensures Kinds(es[n := e]) == Kinds(es)[n := KindOf(e)]
  {
  }

  /** The only text that names a "." entry is ".". */
  lemma DotIsNamedDot(e: Entry, g: seq<nat>)
    requires IsDot(e) && Named(e, g)
    ensures g == [DOT]
  {
    var name := e[..8];
    assert name[0] == DOT && name[1] == SPACE && e[8..11][0] == SPACE;
    UntilIs(name, SPACE, 1);
    assert Shown(name, e[8..11]) == [DOT];
    UntilAbsent([DOT], 0);
    assert |g| == 1 && Upper(g)[0] == Upper([DOT])[0];
  }

  /** A directory the code finds empty holds no file and no subdirectory. */
  lemma EmptyHasNoFiles(es: seq<Entry>)
    requires TailClean(es)
    ensures IsEmpty(es) ==> NoFiles(Kinds(es))
  {
    EmptyMeansDotsOnly(es, 0);
    if IsEmpty(es) {
      forall n | 0 <= n < |es| ensures !Kinds(es)[n].Sub? && !Kinds(es)[n].File? {
        assert Live(es[n]) ==> DotClass(es[n]);
      }
    }
  }

  lemma NewFileKind(slot: Entry, f: seq<nat>)
    requires f != [] && CString(f)
    ensures KindOf(NewEntry(slot, f, 0, 0, 0)) == if UpperChar(f[0]) == DELETED then Gone else File(0)
  {
    NewEntryFields(slot, f, 0, 0, 0);
    StoredFirst(f);
    assert NewEntry(slot, f, 0, 0, 0)[0] == StoredName(f)[0];
  }

  lemma NewDirKind(slot: Entry, f: seq<nat>, c: nat)
    requires f != [] && CString(f)
    ensures KindOf(NewEntry(slot, f, ATTR_DIRECTORY, c, 0)) == if UpperChar(f[0]) == DELETED then Gone else Sub(c)
  {
    NewEntryFields(slot, f, ATTR_DIRECTORY, c, 0);
    StoredFirst(f);
    assert NewEntry(slot, f, ATTR_DIRECTORY, c, 0)[0] == StoredName(f)[0];
  }

  /** The first stored byte is never an end marker or a dot. */
  lemma StoredFirst(f: seq<nat>)
    requires f != [] && CString(f)
    ensures StoredName(f)[0] == if f[0] == DOT then SPACE else UpperChar(f[0])
    ensures StoredName(f)[0] != 0 && StoredName(f)[0] != DOT
  {
    assert f[0] != DOT ==> Base(f) != [] && Base(f)[0] == f[0];
  }

  // ---------------------------------------------------------------------
  // A file system on a volume
  // ---------------------------------------------------------------------

  function SectorsOf(v: Vol, fs: Fs, d: nat): seq<nat>
  {
    DirSectors(v, d, if d in fs.chains then fs.chains[d] else [])
  }

  ghost predicate DirMounted(v: Vol, fs: Fs, d: nat)
    requires d in fs.dir
  {
    var ss := SectorsOf(v, fs, d);
    OnVolume(v, ss) && Distinct(ss) && Kinds(Entries(v, ss)) == fs.dir[d]
  }

  ghost predicate Geometry(v: Vol, limit: nat)
  {
    && v.spc >= 1 && v.rootSectors <= |v.sec|
    && (forall i :: 0 <= i < |v.sec| ==> |v.sec[i]| == 512)
    && (forall c :: 2 <= c < limit ==> ClusterStart(v, c) + v.spc <= |v.sec|)
  }

  /** The volume holds the file system. */
  ghost predicate Mounted(v: Vol, fs: Fs)
  {
    && v.fat == fs.fat && Geometry(v, fs.limit)
    && forall d {:trigger DirMounted(v, fs, d)} :: d in fs.dir ==> DirMounted(v, fs, d)
  }

  lemma DirsApart(v: Vol, fs: Fs, d: nat, b: nat)
    requires ChainsOk(fs) && d in fs.dir && b in fs.dir && d != b
    ensures Disjoint(SectorsOf(v, fs, d), SectorsOf(v, fs, b))
  {
    if d == 0 {
      assert ChainOk(fs, b);
      ChainClearOfRoot(v, fs.chains[b]);
    } else if b == 0 {
      assert ChainOk(fs, d);
      ChainClearOfRoot(v, fs.chains[d]);
    } else {
      assert ChainOk(fs, d) && ChainOk(fs, b) && !Cross(fs.chains[d], fs.chains[b]);
      ChainsApart(v, fs.chains[d], fs.chains[b]);
    }
  }

  /** Rewriting slot n of directory d on the volume. */
  function PutOn(v: Vol, fs: Fs, d: nat, n: nat, e: Entry): Vol
    requires OnVolume(v, SectorsOf(v, fs, d)) && n < 16 * |SectorsOf(v, fs, d)|
  {
    WriteSlot(v, SectorsOf(v, fs, d), n, e)
  }

  lemma {:induction false} SameChainSectors(v: Vol, v1: Vol, cs: seq<nat>)
    requires v1.spc == v.spc && v1.rootSectors == v.rootSectors
    ensures ChainSectors(v1, cs) == ChainSectors(v, cs)
    decreases |cs|
  {
    if cs != [] {
      SameChainSectors(v, v1, cs[1..]);
    }
  }

  lemma SameSectors(v: Vol, v1: Vol, fs: Fs, fs1: Fs, d: nat)
    requires v1.spc == v.spc && v1.rootSectors == v.rootSectors
    requires (d in fs1.chains <==> d in fs.chains) && (d in fs.chains ==> fs1.chains[d] == fs.chains[d])
    ensures SectorsOf(v1, fs1, d) == SectorsOf(v, fs, d)
  {
    SameChainSectors(v, v1, if d in fs.chains then fs.chains[d] else []);
  }

  lemma PutKeepsGeometry(v: Vol, limit: nat, ss: seq<nat>, n: nat, e: Entry)
    requires Geometry(v, limit) && OnVolume(v, ss) && n < 16 * |ss|
    ensures Geometry(WriteSlot(v, ss, n, e), limit)
  {
    var v1 := WriteSlot(v, ss, n, e);
    forall c | 2 <= c < limit ensures ClusterStart(v1, c) + v1.spc <= |v1.sec| {
      assert ClusterStart(v1, c) == ClusterStart(v, c);
    }
  }

  lemma PutMountsDir(v: Vol, fs: Fs, d: nat, n: nat, e: Entry, b: nat)
    requires Mounted(v, fs) && ChainsOk(fs) && d in fs.dir && n < |fs.dir[d]| && b in fs.dir
    ensures OnVolume(v, SectorsOf(v, fs, d)) && n < 16 * |SectorsOf(v, fs, d)|
    ensures DirMounted(PutOn(v, fs, d, n, e), T.PutSlot(fs, d, n, KindOf(e)), b)
  {
    assert DirMounted(v, fs, d) && DirMounted(v, fs, b);
    var ss, tt := SectorsOf(v, fs, d), SectorsOf(v, fs, b);
    var v1, fs1 := PutOn(v, fs, d, n, e), T.PutSlot(fs, d, n, KindOf(e));
    SameSectors(v, v1, fs, fs1, b);
    if b == d {
      WriteSlotHere(v, ss, n, e);
      KindsOfUpdate(Entries(v, ss), n, e);
    } else {
      DirsApart(v, fs, d, b);
      WriteSlotElsewhere(v, ss, n, e, tt);
    }
  }

  /** A slot write on the volume is a slot write in the tree. */
  lemma PutIsMounted(v: Vol, fs: Fs, d: nat, n: nat, e: Entry)
    requires Mounted(v, fs) && ChainsOk(fs) && d in fs.dir && n < |fs.dir[d]|
    ensures OnVolume(v, SectorsOf(v, fs, d)) && n < 16 * |SectorsOf(v, fs, d)|
    ensures Mounted(PutOn(v, fs, d, n, e), T.PutSlot(fs, d, n, KindOf(e)))
  {
    assert DirMounted(v, fs, d);
    PutKeepsGeometry(v, fs.limit, SectorsOf(v, fs, d), n, e);
    forall b | b in fs.dir ensures DirMounted(PutOn(v, fs, d, n, e), T.PutSlot(fs, d, n, KindOf(e)), b) {
      PutMountsDir(v, fs, d, n, e, b);
    }
  }

  // ---------------------------------------------------------------------
  // Freeing on the volume
  // ---------------------------------------------------------------------

  function FreeOn(v: Vol, cs: seq<nat>): Vol { v.(fat := Freed(v.fat, cs)) }

  lemma FreeKeepsGeometry(v: Vol, limit: nat, fat: seq<nat>)
    requires Geometry(v, limit)
    ensures Geometry(v.(fat := fat), limit)
  {
    var v1 := v.(fat := fat);
    forall c | 2 <= c < limit ensures ClusterStart(v1, c) + v1.spc <= |v1.sec| {
      assert ClusterStart(v1, c) == ClusterStart(v, c);
    }
  }

  /** What a directory holds does not depend on the table. */
  lemma EntriesIgnoreFat(v: Vol, fat: seq<nat>, ss: seq<nat>)
    requires OnVolume(v, ss)
    ensures OnVolume(v.(fat := fat), ss) && Entries(v.(fat := fat), ss) == Entries(v, ss)
  {
  }

  /** The volume after slot n of directory d was deleted and cs freed. */
  function DeleteOn(v: Vol, ss: seq<nat>, n: nat, cs: seq<nat>): Vol
    requires OnVolume(v, ss) && n < 16 * |ss|
  {
    FreeOn(WriteSlot(v, ss, n, DeletedEntry(Entries(v, ss)[n])), cs)
  }

  lemma RemoveMountsDir(v: Vol, fs: Fs, c: nat, e: Entry, b: nat)
    requires Mounted(v, fs) && ChainsOk(fs) && c in fs.chains && OwnerOk(fs, c) && b in fs.dir && b != c
             && KindOf(e) == Gone
    ensures var d, n := fs.owner[c].0, fs.owner[c].1;
            && OnVolume(v, SectorsOf(v, fs, d)) && n < 16 * |SectorsOf(v, fs, d)|
            && DirMounted(FreeOn(PutOn(v, fs, d, n, e), fs.chains[c]), Remove(fs, c), b)
  {
    var d, n := fs.owner[c].0, fs.owner[c].1;
    PutMountsDir(v, fs, d, n, e, b);
    var v1, fs1 := PutOn(v, fs, d, n, e), T.PutSlot(fs, d, n, Gone);
    var v2, fs2 := FreeOn(v1, fs.chains[c]), Remove(fs, c);
    SameSectors(v1, v2, fs1, fs2, b);
    EntriesIgnoreFat(v1, v2.fat, SectorsOf(v1, fs1, b));
  }

  lemma RemoveIsMounted(v: Vol, fs: Fs, c: nat, e: Entry)
    requires Mounted(v, fs) && ChainsOk(fs) && c in fs.chains && OwnerOk(fs, c) && KindOf(e) == Gone
    ensures var d, n := fs.owner[c].0, fs.owner[c].1;
            && OnVolume(v, SectorsOf(v, fs, d)) && n < 16 * |SectorsOf(v, fs, d)|
            && Mounted(FreeOn(PutOn(v, fs, d, n, e), fs.chains[c]), Remove(fs, c))
  {
    var d, n := fs.owner[c].0, fs.owner[c].1;
    assert DirMounted(v, fs, d);
    var v1 := PutOn(v, fs, d, n, e);
    var v2 := FreeOn(v1, fs.chains[c]);
    PutKeepsGeometry(v, fs.limit, SectorsOf(v, fs, d), n, e);
    FreeKeepsGeometry(v1, fs.limit, v2.fat);
    forall b | b in Remove(fs, c).dir ensures DirMounted(v2, Remove(fs, c), b) {
      RemoveMountsDir(v, fs, c, e, b);
    }
  }

  // ---------------------------------------------------------------------
  // Searching the current directory
  // ---------------------------------------------------------------------

  function Here(v: Vol, fs: Fs): seq<Entry>
    requires OnVolume(v, SectorsOf(v, fs, fs.cwd))
  {
    Entries(v, SectorsOf(v, fs, fs.cwd))
  }

  ghost predicate Good(v: Vol, fs: Fs)
  {
    Mounted(v, fs) && Healthy(fs)
  }

  /** What the current directory looks like, byte by byte and slot by slot. */
  lemma CurrentDir(v: Vol, fs: Fs)
    requires Good(v, fs)
    ensures OnVolume(v, SectorsOf(v, fs, fs.cwd)) && Kinds(Here(v, fs)) == fs.dir[fs.cwd] && TailClean(Here(v, fs))
    ensures |Here(v, fs)| == 16 * |SectorsOf(v, fs, fs.cwd)|
  {
    assert DirMounted(v, fs, fs.cwd) && DirOk(fs, fs.cwd);
    KindsOfTail(Here(v, fs));
  }

  lemma SlotOf(v: Vol, fs: Fs, n: nat)
    requires Good(v, fs) && OnVolume(v, SectorsOf(v, fs, fs.cwd)) && n < |Here(v, fs)|
    ensures n < |fs.dir[fs.cwd]| && fs.dir[fs.cwd][n] == KindOf(Here(v, fs)[n])
            && SlotOk(fs, fs.cwd, n, KindOf(Here(v, fs)[n]))
  {
    CurrentDir(v, fs);
    assert DirOk(fs, fs.cwd);
    assert SlotOk(fs, fs.cwd, n, fs.dir[fs.cwd][n]);
  }

  /** A slot that holds no file or directory is booked under no chain. */
  lemma NotBooked(fs: Fs, d: nat, n: nat, c: nat)
    requires Healthy(fs) && d in fs.dir && n < |fs.dir[d]| && c in fs.owner
    requires fs.dir[d][n] != Sub(c) && fs.dir[d][n] != File(c)
    ensures fs.owner[c] != (d, n)
  {
    assert OwnerOk(fs, c);
  }

  // ---------------------------------------------------------------------
  // touch
  // ---------------------------------------------------------------------

  /** fat_create_entry in the directory with sectors ss. */
  function CreateIn(v: Vol, ss: seq<nat>, f: seq<nat>, attr: nat, c: nat, size: nat): (r: (Vol, bool))
    requires OnVolume(v, ss)
  {
    var es := Entries(v, ss);
    var n := FreeSlot(es);
    if n == |es| then (v, false) else (WriteSlot(v, ss, n, NewEntry(es[n], f, attr, c, size)), true)
  }

  /** What find sees on the volume after a create: the new entry under every
      spelling of its name, and under all other names what was there. */
  lemma CreateShowsInFind(v: Vol, ss: seq<nat>, f: seq<nat>, g: seq<nat>, attr: nat, c: nat, size: nat)
    requires OnVolume(v, ss) && Distinct(ss) && TailClean(Entries(v, ss))
    requires Storable(f) && EightThree(f) && attr / 8 % 2 == 0 && CreateIn(v, ss, f, attr, c, size).1
    ensures var v1 := CreateIn(v, ss, f, attr, c, size).0;
            && OnVolume(v1, ss) && TailClean(Entries(v1, ss))
            && (Upper(g) != Upper(f) ==> Find(Entries(v1, ss), g) == Find(Entries(v, ss), g))
            && (Upper(g) == Upper(f) && Find(Entries(v, ss), g) == None ==>
                  var r := Find(Entries(v1, ss), g);
                  && r.Some? && Cluster(Entries(v1, ss)[r.value]) == c && Entries(v1, ss)[r.value][11] == attr
                  && FileSize(Entries(v1, ss)[r.value]) == size)
  {
    var es := Entries(v, ss);
    var n := FreeSlot(es);
    var e := NewEntry(es[n], f, attr, c, size);
    WriteSlotHere(v, ss, n, e);
    NewEntryIsLive(es[n], f, attr, c, size);
    CreateKeepsTail(es, e);
    CreateFindAgreement(es, f, g, attr, c, size);
  }

  /** What find sees after a delete: the only match is gone, other names are
      found as before. */
  lemma DeleteShowsInFind(v: Vol, ss: seq<nat>, n: nat, cs: seq<nat>, g: seq<nat>)
    requires OnVolume(v, ss) && Distinct(ss) && TailClean(Entries(v, ss)) && n < 16 * |ss|
    requires Live(Entries(v, ss)[n]) && !IsVolume(Entries(v, ss)[n])
    ensures var es, v1 := Entries(v, ss), DeleteOn(v, ss, n, cs);
            && OnVolume(v1, ss) && TailClean(Entries(v1, ss))
            && (!Named(es[n], g) ==> Find(Entries(v1, ss), g) == Find(es, g))
            && (Named(es[n], g) && (forall k :: 0 <= k < |es| && k != n ==> !Candidate(es[k], g)) ==>
                  Find(Entries(v1, ss), g) == None)
  {
    var es := Entries(v, ss);
    var written := WriteSlot(v, ss, n, DeletedEntry(es[n]));
    WriteSlotHere(v, ss, n, DeletedEntry(es[n]));
    EntriesIgnoreFat(written, Freed(written.fat, cs), ss);
    DeleteKeepsTail(es, n);
    DeleteThenFind(es, n, g);
  }

  /** The tree after touch. */
  function Touched(v: Vol, fs: Fs, f: seq<nat>): Fs
    requires OnVolume(v, SectorsOf(v, fs, fs.cwd)) && fs.cwd in fs.dir && |fs.dir[fs.cwd]| == |Here(v, fs)|
  {
    var es := Here(v, fs);
    var n := FreeSlot(es);
    if n == |es| then fs else T.PutSlot(fs, fs.cwd, n, KindOf(NewEntry(es[n], f, 0, 0, 0)))
  }

  lemma TouchIsGood(v: Vol, fs: Fs, f: seq<nat>)
    requires Good(v, fs) && f != [] && CString(f)
    ensures OnVolume(v, SectorsOf(v, fs, fs.cwd)) && |fs.dir[fs.cwd]| == |Here(v, fs)|
    ensures Good(CreateIn(v, SectorsOf(v, fs, fs.cwd), f, 0, 0, 0).0, Touched(v, fs, f))
  {
    CurrentDir(v, fs);
    var es := Here(v, fs);
    var n := FreeSlot(es);
    if n < |es| {
      var e := NewEntry(es[n], f, 0, 0, 0);
      SlotOf(v, fs, n);
      NewFileKind(es[n], f);
      CreateKeepsTail(es, e);
      KindsOfTail(es[n := e]);
      KindsOfUpdate(es, n, e);
      forall c | c in fs.owner ensures fs.owner[c] != (fs.cwd, n) {
        NotBooked(fs, fs.cwd, n, c);
      }
      PutIsHealthy(fs, fs.cwd, n, KindOf(e));
      PutIsMounted(v, fs, fs.cwd, n, e);
    }
  }

  // ---------------------------------------------------------------------
  // rm
  // ---------------------------------------------------------------------

  /** The file that rm would delete. */
  function RmTarget(v: Vol, fs: Fs, g: seq<nat>): (r: Option<nat>)
    requires OnVolume(v, SectorsOf(v, fs, fs.cwd))
    ensures r.Some? ==> r.value < |Here(v, fs)|
  {
    var r := FindToDelete(Here(v, fs), g, false);
    if r.Some? && !IsDir(Here(v, fs)[r.value]) then r else None
  }

  /** The chain that deleting an entry with first cluster c frees. */
  function ChainAt(fs: Fs, c: nat): seq<nat>
  {
    if c < 2 || c !in fs.chains then [] else fs.chains[c]
  }

  /** The volume after slot n of the current directory was deleted. */
  function DeleteSlot(v: Vol, fs: Fs, n: nat): Vol
    requires OnVolume(v, SectorsOf(v, fs, fs.cwd)) && n < |Here(v, fs)|
  {
    DeleteOn(v, SectorsOf(v, fs, fs.cwd), n, ChainAt(fs, Cluster(Here(v, fs)[n])))
  }

  /** The tree after it. */
  function SlotDeleted(v: Vol, fs: Fs, n: nat): Fs
    requires OnVolume(v, SectorsOf(v, fs, fs.cwd)) && n < |Here(v, fs)| && fs.cwd in fs.dir
             && |fs.dir[fs.cwd]| == |Here(v, fs)|
  {
    var c := Cluster(Here(v, fs)[n]);
    if c in fs.chains && c in fs.owner && fs.owner[c] == (fs.cwd, n) then Remove(fs, c)
    else T.PutSlot(fs, fs.cwd, n, Gone)
  }

  lemma FreeNothing(v: Vol)
    ensures FreeOn(v, []) == v
  {
    assert Freed(v.fat, []) == v.fat;
  }

  lemma GoneKeepsTail(ks: seq<Kind>, n: nat)
    requires CleanTail(ks) && n < |ks| && ks[n] != End
    ensures CleanTail(ks[n := Gone])
  {
  }

  /** Deleting an entry that refers to no chain. */
  lemma DeletePlain(v: Vol, fs: Fs, n: nat)
    requires Good(v, fs) && OnVolume(v, SectorsOf(v, fs, fs.cwd)) && n < |Here(v, fs)|
             && |fs.dir[fs.cwd]| == |Here(v, fs)|
    requires KindOf(Here(v, fs)[n]).File? && Cluster(Here(v, fs)[n]) < 2
    ensures Good(DeleteSlot(v, fs, n), SlotDeleted(v, fs, n))
  {
    var e := DeletedEntry(Here(v, fs)[n]);
    CurrentDir(v, fs);
    SlotOf(v, fs, n);
    forall c | c in fs.owner ensures fs.owner[c] != (fs.cwd, n) {
      assert ChainOk(fs, c);
      NotBooked(fs, fs.cwd, n, c);
    }
    assert DirOk(fs, fs.cwd);
    GoneKeepsTail(fs.dir[fs.cwd], n);
    PutIsHealthy(fs, fs.cwd, n, Gone);
    PutIsMounted(v, fs, fs.cwd, n, e);
    FreeNothing(PutOn(v, fs, fs.cwd, n, e));
  }

  /** Deleting the entry of chain c, with the chain. */
  lemma DeleteOwned(v: Vol, fs: Fs, n: nat)
    requires Good(v, fs) && OnVolume(v, SectorsOf(v, fs, fs.cwd)) && n < |Here(v, fs)|
             && |fs.dir[fs.cwd]| == |Here(v, fs)|
    requires var c := Cluster(Here(v, fs)[n]);
             c in fs.chains && Refers(fs, fs.cwd, n, c) && c != fs.cwd && (c in fs.dir ==> NoFiles(fs.dir[c]))
    ensures Good(DeleteSlot(v, fs, n), SlotDeleted(v, fs, n))
  {
    var c := Cluster(Here(v, fs)[n]);
    assert ChainOk(fs, c);
    RemoveIsHealthy(fs, c);
    RemoveIsMounted(v, fs, c, DeletedEntry(Here(v, fs)[n]));
  }

  lemma RmIsGood(v: Vol, fs: Fs, g: seq<nat>)
    requires Good(v, fs)
    ensures OnVolume(v, SectorsOf(v, fs, fs.cwd)) && |fs.dir[fs.cwd]| == |Here(v, fs)|
    ensures var r := RmTarget(v, fs, g); r.Some? ==> Good(DeleteSlot(v, fs, r.value), SlotDeleted(v, fs, r.value))
  {
    CurrentDir(v, fs);
    var r := RmTarget(v, fs, g);
    if r.Some? {
      var n := r.value;
      SlotOf(v, fs, n);
      var c := Cluster(Here(v, fs)[n]);
      assert KindOf(Here(v, fs)[n]) == File(c);
      if c < 2 {
        DeletePlain(v, fs, n);
      } else {
        DeleteOwned(v, fs, n);
      }
    }
  }

  // ---------------------------------------------------------------------
  // rmdir
  // ---------------------------------------------------------------------

  function EntriesAt(v: Vol, fs: Fs, d: nat): seq<Entry>
  {
    if OnVolume(v, SectorsOf(v, fs, d)) then Entries(v, SectorsOf(v, fs, d)) else []
  }

  /** The directory that rmdir would delete: the first match if it is an empty
      directory. */
  function RmdirTarget(v: Vol, fs: Fs, g: seq<nat>): (r: Option<nat>)
    requires OnVolume(v, SectorsOf(v, fs, fs.cwd))
    ensures r.Some? ==> r.value < |Here(v, fs)|
  {
    var r := FindToDelete(Here(v, fs), g, true);
    if r.Some? && IsDir(Here(v, fs)[r.value]) && IsEmpty(EntriesAt(v, fs, Cluster(Here(v, fs)[r.value]))) then r
    else None
  }

  /** A directory in use as a parent is not empty. */
  lemma ParentHasFiles(fs: Fs, d: nat)
    requires Healthy(fs) && d in fs.owner && d in fs.dir
    ensures fs.owner[d].0 in fs.dir && !NoFiles(fs.dir[fs.owner[d].0])
  {
    assert OwnerOk(fs, d);
  }

  lemma EmptyIsNoFiles(v: Vol, fs: Fs, d: nat)
    requires Good(v, fs) && d in fs.dir && IsEmpty(EntriesAt(v, fs, d))
    ensures NoFiles(fs.dir[d])
  {
    assert DirMounted(v, fs, d) && DirOk(fs, d);
    KindsOfTail(EntriesAt(v, fs, d));
    EmptyHasNoFiles(EntriesAt(v, fs, d));
  }

  /** rmdir found the "." entry of the current directory. */
  predicate FindsItself(v: Vol, fs: Fs, g: seq<nat>)
    requires OnVolume(v, SectorsOf(v, fs, fs.cwd))
  {
    var r := RmdirTarget(v, fs, g);
    r.Some? && KindOf(Here(v, fs)[r.value]).Self?
  }

  /** That happens for no other argument than ".". */
  lemma OnlyDotFindsItself(v: Vol, fs: Fs, g: seq<nat>)
    requires OnVolume(v, SectorsOf(v, fs, fs.cwd)) && FindsItself(v, fs, g)
    ensures g == [DOT]
  {
    DotIsNamedDot(Here(v, fs)[RmdirTarget(v, fs, g).value], g);
  }

  lemma RmdirFindsSub(v: Vol, fs: Fs, g: seq<nat>, n: nat)
    requires Good(v, fs) && OnVolume(v, SectorsOf(v, fs, fs.cwd)) && RmdirTarget(v, fs, g) == Some(n)
    requires !FindsItself(v, fs, g)
    ensures KindOf(Here(v, fs)[n]) == Sub(Cluster(Here(v, fs)[n]))
    ensures Cluster(Here(v, fs)[n]) in fs.dir && Refers(fs, fs.cwd, n, Cluster(Here(v, fs)[n]))
            && Cluster(Here(v, fs)[n]) in fs.chains
  {
    var e := Here(v, fs)[n];
    SlotOf(v, fs, n);
    if KindOf(e).Up? {
      assert OwnerOk(fs, fs.cwd);
      EmptyIsNoFiles(v, fs, Cluster(e));
      ParentHasFiles(fs, fs.cwd);
    }
  }

  /** rmdir that does not find ".": ".." always leads to a directory that is
      not empty, so what is deleted is an owned, empty subdirectory. */
  lemma RmdirIsGood(v: Vol, fs: Fs, g: seq<nat>)
    requires Good(v, fs) && OnVolume(v, SectorsOf(v, fs, fs.cwd)) && !FindsItself(v, fs, g)
    ensures |fs.dir[fs.cwd]| == |Here(v, fs)|
    ensures var r := RmdirTarget(v, fs, g); r.Some? ==> Good(DeleteSlot(v, fs, r.value), SlotDeleted(v, fs, r.value))
  {
    CurrentDir(v, fs);
    var r := RmdirTarget(v, fs, g);
    if r.Some? {
      var c := Cluster(Here(v, fs)[r.value]);
      RmdirFindsSub(v, fs, g, r.value);
      EmptyIsNoFiles(v, fs, c);
      if c == fs.cwd {
        ParentHasFiles(fs, c);
      }
      DeleteOwned(v, fs, r.value);
    }
  }

  lemma DotNamesDot(e: Entry)
    requires IsDot(e)
    ensures Named(e, [DOT])
  {
    var name := e[..8];
    assert name[0] == DOT && name[1] == SPACE && e[8..11][0] == SPACE;
    UntilIs(name, SPACE, 1);
    assert Shown(name, e[8..11]) == [DOT];
    UntilAbsent([DOT], 0);
  }

  /** And for "." it does happen, in the directory that mkdir and cd lead to. */
  lemma FreshDirFindsItself(v: Vol, fs: Fs)
    requires Good(v, fs) && fs.cwd in fs.owner && FreshDir(fs.dir[fs.cwd], fs.cwd, fs.owner[fs.cwd].0)
    ensures OnVolume(v, SectorsOf(v, fs, fs.cwd)) && FindsItself(v, fs, [DOT])
  {
    CurrentDir(v, fs);
    var es := Here(v, fs);
    assert KindOf(es[0]) == Self(fs.cwd) && KindOf(es[1]) == Up(fs.owner[fs.cwd].0);
    DotNamesDot(es[0]);
    assert FindToDelete(es, [DOT], true) == Some(0);
    forall n | 0 <= n < |es| && Live(es[n]) ensures DotClass(es[n]) {
      assert KindOf(es[n]) == Kinds(es)[n] == fs.dir[fs.cwd][n];
    }
    EmptyMeansDotsOnly(es, 0);
  }

  /** Why "." has to be excluded: finding itself, rmdir frees the cluster of
      the current directory. */
  lemma RmdirLosesCurrentDir(v: Vol, fs: Fs, g: seq<nat>)
    requires Good(v, fs) && OnVolume(v, SectorsOf(v, fs, fs.cwd)) && FindsItself(v, fs, g)
    ensures var fat := DeleteSlot(v, fs, RmdirTarget(v, fs, g).value).fat; 0 < fs.cwd < |fat| && fat[fs.cwd] == 0
  {
    SlotOf(v, fs, RmdirTarget(v, fs, g).value);
    assert ChainOk(fs, fs.cwd);
    assert fs.chains[fs.cwd][0] in fs.chains[fs.cwd];
  }

  /** The whole rule for rmdir: when it deletes something, the result is still
      a healthy file system with the same current directory exactly if what
      it found was not ".". */
  lemma RmdirHealthyExactly(v: Vol, fs: Fs, g: seq<nat>)
    requires Good(v, fs) && OnVolume(v, SectorsOf(v, fs, fs.cwd)) && RmdirTarget(v, fs, g).Some?
    ensures var v1 := DeleteSlot(v, fs, RmdirTarget(v, fs, g).value);
            (exists fs1 :: Good(v1, fs1) && fs1.cwd == fs.cwd) <==> !FindsItself(v, fs, g)
  {
    var n := RmdirTarget(v, fs, g).value;
    var v1 := DeleteSlot(v, fs, n);
    if !FindsItself(v, fs, g) {
      RmdirIsGood(v, fs, g);
      assert Good(v1, SlotDeleted(v, fs, n)) && SlotDeleted(v, fs, n).cwd == fs.cwd;
    } else {
      RmdirLosesCurrentDir(v, fs, g);
      if fs1 :| Good(v1, fs1) && fs1.cwd == fs.cwd {
        assert ChainOk(fs1, fs.cwd);
        LiveIsNotFree(fs1, fs.cwd, 0);
      }
    }
  }

  // ---------------------------------------------------------------------
  // cd
  // ---------------------------------------------------------------------

  /** fat_change_dir: the new current directory. */
  function CdTo(v: Vol, fs: Fs, g: seq<nat>): nat
    requires OnVolume(v, SectorsOf(v, fs, fs.cwd))
  {
    var r := Find(Here(v, fs), g);
    if r.Some? && IsDir(Here(v, fs)[r.value]) then Cluster(Here(v, fs)[r.value]) else fs.cwd
  }

  lemma CdIsGood(v: Vol, fs: Fs, g: seq<nat>)
    requires Good(v, fs)
    ensures OnVolume(v, SectorsOf(v, fs, fs.cwd)) && Good(v, fs.(cwd := CdTo(v, fs, g)))
  {
    CurrentDir(v, fs);
    var r := Find(Here(v, fs), g);
    if r.Some? && IsDir(Here(v, fs)[r.value]) {
      SlotOf(v, fs, r.value);
      if fs.cwd in fs.owner {
        assert OwnerOk(fs, fs.cwd);
      }
    }
    CdKeeps(v, fs, CdTo(v, fs, g));
  }

  lemma CdKeeps(v: Vol, fs: Fs, d: nat)
    requires Good(v, fs) && d in fs.dir
    ensures Good(v, fs.(cwd := d))
  {
    var fs1 := fs.(cwd := d);
    MoveIsHealthy(fs, d);
    forall b | b in fs1.dir ensures DirMounted(v, fs1, b) {
      assert DirMounted(v, fs, b);
      SameSectors(v, v, fs, fs1, b);
    }
  }
}
