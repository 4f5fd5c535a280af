/** The commands by name (src/fs/fat.c:370-763, src/kernel/kernel.c:411-494):
    what rm, rmdir and cd arrive at when they are given the name of an entry,
    that rmdir undoes mkdir, and that cd ".." undoes cd. */
module Commands {
  import opened Options
  import opened FatTable
  import opened Names
  import opened Directory
  import opened Volume
  import T = FileTree
  import opened FileTree
  import opened Mount
  import opened Sessions

  // ---------------------------------------------------------------------
  // rm and rmdir by name
  // ---------------------------------------------------------------------

  /** Entry n is the only live one of its name in the current directory. */
  ghost predicate OnlyNamed(es: seq<Entry>, g: seq<nat>, n: nat)
  {
    && n < |es| && Live(es[n]) && Named(es[n], g)
    && forall k :: 0 <= k < |es| && k != n ==> !(Live(es[k]) && Named(es[k], g))
  }

  /** The slot that rmdir takes: the first live entry of the name, volume
      entries included, if it is a directory with dot entries only. */
  lemma RmdirTargetExactly(v: Vol, fs: Fs, g: seq<nat>, n: nat)
    requires Good(v, fs) && OnVolume(v, SectorsOf(v, fs, fs.cwd)) && n < |Here(v, fs)|
    ensures RmdirTarget(v, fs, g) == Some(n) <==>
              && Live(Here(v, fs)[n]) && Named(Here(v, fs)[n], g)
              && (forall k :: 0 <= k < n ==> !(Live(Here(v, fs)[k]) && Named(Here(v, fs)[k], g)))
              && IsDir(Here(v, fs)[n]) && IsEmpty(EntriesAt(v, fs, Cluster(Here(v, fs)[n])))
  {
    var es := Here(v, fs);
    CurrentDir(v, fs);
    FindToDeleteIsFirst(es, g, true, 0, n);
    assert forall k :: 0 <= k < |es| ==> (Deletable(es[k], g, true) <==> Live(es[k]) && Named(es[k], g));
  }

  /** The slot that rm takes: the first file or directory of the name, if it
      is a file. */
  lemma RmTargetExactly(v: Vol, fs: Fs, g: seq<nat>, n: nat)
    requires Good(v, fs) && OnVolume(v, SectorsOf(v, fs, fs.cwd)) && n < |Here(v, fs)|
    ensures RmTarget(v, fs, g) == Some(n) <==>
              && Candidate(Here(v, fs)[n], g) && (forall k :: 0 <= k < n ==> !Candidate(Here(v, fs)[k], g))
              && !IsDir(Here(v, fs)[n])
  {
    var es := Here(v, fs);
    CurrentDir(v, fs);
    FindToDeleteIsFirst(es, g, false, 0, n);
    assert forall k :: 0 <= k < |es| ==> (Deletable(es[k], g, false) <==> Candidate(es[k], g));
  }

  /** After the deletion of slot n the name is gone, all other names are found
      as before, and the clusters of the chain are free. */
  ghost predicate Removed(v: Vol, fs: Fs, v1: Vol, g: seq<nat>, n: nat)
    requires OnVolume(v, SectorsOf(v, fs, fs.cwd)) && OnVolume(v1, SectorsOf(v, fs, fs.cwd)) && n < |Here(v, fs)|
  {
    var es, es1 := Here(v, fs), Entries(v1, SectorsOf(v, fs, fs.cwd));
    && Find(es1, g) == None
    && (forall h :: !Named(es[n], h) ==> Find(es1, h) == Find(es, h))
    && |v1.fat| == |v.fat|
    && forall c :: 0 <= c < |v.fat| ==> v1.fat[c] == if c in ChainAt(fs, Cluster(es[n])) then 0 else v.fat[c]
  }

  lemma DeletionRemoves(v: Vol, fs: Fs, g: seq<nat>, n: nat)
    requires Good(v, fs) && OnVolume(v, SectorsOf(v, fs, fs.cwd)) && OnlyNamed(Here(v, fs), g, n)
    requires !IsVolume(Here(v, fs)[n])
    ensures OnVolume(DeleteSlot(v, fs, n), SectorsOf(v, fs, fs.cwd))
    ensures Removed(v, fs, DeleteSlot(v, fs, n), g, n)
  {
    var ss, es := SectorsOf(v, fs, fs.cwd), Here(v, fs);
    var cs := ChainAt(fs, Cluster(es[n]));
    CurrentDir(v, fs);
    assert DirMounted(v, fs, fs.cwd);
    DeleteShowsInFind(v, ss, n, cs, g);
    forall h | !Named(es[n], h)
      ensures Find(Entries(DeleteSlot(v, fs, n), ss), h) == Find(es, h)
    {
      DeleteShowsInFind(v, ss, n, cs, h);
    }
  }

  /** rmdir of an empty subdirectory by its name removes it: the name is not
      found any more, its clusters are free, and the file system is healthy. */
  lemma RmdirRemoves(v: Vol, fs: Fs, g: seq<nat>, n: nat)
    requires Good(v, fs) && OnVolume(v, SectorsOf(v, fs, fs.cwd)) && OnlyNamed(Here(v, fs), g, n)
    requires KindOf(Here(v, fs)[n]).Sub? && IsEmpty(EntriesAt(v, fs, Cluster(Here(v, fs)[n])))
    ensures RmdirTarget(v, fs, g) == Some(n) && |fs.dir[fs.cwd]| == |Here(v, fs)|
    ensures var v1, fs1 := DeleteSlot(v, fs, n), SlotDeleted(v, fs, n);
            && OnVolume(v1, SectorsOf(v, fs, fs.cwd)) && Removed(v, fs, v1, g, n)
            && Good(v1, fs1) && Cluster(Here(v, fs)[n]) !in fs1.dir
  {
    RmdirTargetExactly(v, fs, g, n);
    DeletionRemoves(v, fs, g, n);
    RmdirIsGood(v, fs, g);
    RmdirFindsSub(v, fs, g, n);
  }

  /** The same for rm of a file. */
  lemma RmRemoves(v: Vol, fs: Fs, g: seq<nat>, n: nat)
    requires Good(v, fs) && OnVolume(v, SectorsOf(v, fs, fs.cwd)) && OnlyNamed(Here(v, fs), g, n)
    requires KindOf(Here(v, fs)[n]).File?
    ensures RmTarget(v, fs, g) == Some(n) && |fs.dir[fs.cwd]| == |Here(v, fs)|
    ensures var v1, fs1 := DeleteSlot(v, fs, n), SlotDeleted(v, fs, n);
            && OnVolume(v1, SectorsOf(v, fs, fs.cwd)) && Removed(v, fs, v1, g, n) && Good(v1, fs1)
  {
    RmTargetExactly(v, fs, g, n);
    DeletionRemoves(v, fs, g, n);
    RmIsGood(v, fs, g);
  }

  // ---------------------------------------------------------------------
  // rmdir undoes mkdir
  // ---------------------------------------------------------------------

  /** No live entry has the name, not even a volume entry: rmdir would stop
      at that one. */
  ghost predicate NameIsNew(es: seq<Entry>, f: seq<nat>)
  {
    forall k :: 0 <= k < |es| ==> !(Live(es[k]) && Named(es[k], f))
  }

  /** The entry that mkdir writes is then the only one of the name. */
  lemma MadeIsOnly(v: Vol, fs: Fs, f: seq<nat>, c: nat)
    requires CanMake(v, fs, f) && CString(f) && NameIsNew(Here(v, fs), f) && c == Allocate(v.fat).1
    ensures var v1, ss := MkdirOn(v, SectorsOf(v, fs, fs.cwd), fs.cwd, f).0, SectorsOf(v, fs, fs.cwd);
            var n := FreeSlot(Here(v, fs));
            && OnVolume(v1, ss) && OnlyNamed(Entries(v1, ss), f, n) && KindOf(Entries(v1, ss)[n]) == Sub(c)
            && Entries(v1, ss) == Here(v, fs)[n := Entries(v1, ss)[n]]
            && v1.fat == v.fat[c := LAST]
  {
    MkdirCreates(v, fs, f, c);
    var es, n, ss := Here(v, fs), FreeSlot(Here(v, fs)), SectorsOf(v, fs, fs.cwd);
    var e := NewEntry(es[n], f, ATTR_DIRECTORY, c, 0);
    WriteSlotHere(FormatOn(v, c, fs.cwd), ss, n, e);
    NewEntryFields(es[n], f, ATTR_DIRECTORY, c, 0);
    NewEntryIsLive(es[n], f, ATTR_DIRECTORY, c, 0);
    NewDirKind(es[n], f, c);
    MatchesUpToCase(f, f);
  }

  /** What rmdir takes for empty: on a healthy volume, in a directory without
      volume entries, that it holds neither files nor subdirectories. */
  lemma EmptyExactly(v: Vol, fs: Fs, d: nat)
    requires Good(v, fs) && d in fs.dir && forall n :: 0 <= n < |fs.dir[d]| ==> fs.dir[d][n] != Label
    ensures IsEmpty(EntriesAt(v, fs, d)) <==> NoFiles(fs.dir[d])
  {
    assert DirMounted(v, fs, d) && DirOk(fs, d);
    var es := EntriesAt(v, fs, d);
    KindsOfTail(es);
    EmptyMeansDotsOnly(es, 0);
    forall n | 0 <= n < |es| && Live(es[n])
      ensures DotClass(es[n]) <==> !fs.dir[d][n].Sub? && !fs.dir[d][n].File?
    {
      assert KindOf(es[n]) == Kinds(es)[n] == fs.dir[d][n];
      assert SlotOk(fs, d, n, fs.dir[d][n]);
    }
    forall n | 0 <= n < |es| && !Live(es[n]) ensures !fs.dir[d][n].Sub? && !fs.dir[d][n].File? {
      assert KindOf(es[n]) == Kinds(es)[n] == fs.dir[d][n];
    }
  }

  /** A directory fresh from mkdir is empty. */
  lemma FreshIsEmpty(v: Vol, fs: Fs, c: nat, parent: nat)
    requires Good(v, fs) && c in fs.dir && FreshDir(fs.dir[c], c, parent)
    ensures IsEmpty(EntriesAt(v, fs, c))
  {
    assert DirMounted(v, fs, c) && DirOk(fs, c);
    var es := EntriesAt(v, fs, c);
    KindsOfTail(es);
    forall n | 0 <= n < |es| && Live(es[n]) ensures DotClass(es[n]) {
      assert KindOf(es[n]) == Kinds(es)[n] == fs.dir[c][n];
    }
    EmptyMeansDotsOnly(es, 0);
  }

  lemma FreedAgain(fat: seq<nat>, c: nat)
    requires c < |fat| && fat[c] == 0
    ensures Freed(fat[c := LAST], [c]) == fat
  {
  }

  /** What is there for rmdir to find after mkdir. */
  lemma MadeCanBeRemoved(v: Vol, fs: Fs, f: seq<nat>, c: nat)
    requires CanMake(v, fs, f) && CString(f) && NameIsNew(Here(v, fs), f) && c == Allocate(v.fat).1
    ensures var v1, fs1 := MkdirOn(v, SectorsOf(v, fs, fs.cwd), fs.cwd, f).0, Made(fs, Here(v, fs), f, v.spc);
            && Good(v1, fs1) && SectorsOf(v1, fs1, fs1.cwd) == SectorsOf(v, fs, fs.cwd)
            && OnVolume(v1, SectorsOf(v, fs, fs.cwd)) && ChainAt(fs1, c) == [c]
            && OnlyNamed(Here(v1, fs1), f, FreeSlot(Here(v, fs))) && c in fs1.dir && IsEmpty(EntriesAt(v1, fs1, c))
            && KindOf(Here(v1, fs1)[FreeSlot(Here(v, fs))]) == Sub(c) && v1.fat == v.fat[c := LAST]
  {
    var v1, fs1 := MkdirOn(v, SectorsOf(v, fs, fs.cwd), fs.cwd, f).0, Made(fs, Here(v, fs), f, v.spc);
    MkdirIsGood(v, fs, f);
    MadeIsFresh(v, fs, f, c);
    MadeIsOnly(v, fs, f, c);
    MkdirKeepsShape(v, fs, f);
    SameSectors(v, v1, fs, fs1, fs.cwd);
    AllocateClaimsLowest(v.fat);
    FreshIsEmpty(v1, fs1, c, fs.cwd);
  }

  lemma RmdirFindsOnly(v: Vol, fs: Fs, g: seq<nat>, n: nat)
    requires Good(v, fs) && OnVolume(v, SectorsOf(v, fs, fs.cwd)) && OnlyNamed(Here(v, fs), g, n)
    requires KindOf(Here(v, fs)[n]).Sub? && IsEmpty(EntriesAt(v, fs, KindOf(Here(v, fs)[n]).c))
    ensures |fs.dir[fs.cwd]| == |Here(v, fs)| && RmdirTarget(v, fs, g) == Some(n)
  {
    CurrentDir(v, fs);
    RmdirTargetExactly(v, fs, g, n);
  }

  /** v1 and fs1 are what mkdir of a new name f makes of v and fs. */
  ghost predicate Makes(v: Vol, fs: Fs, v1: Vol, fs1: Fs, f: seq<nat>)
  {
    && CanMake(v, fs, f) && CString(f) && NameIsNew(Here(v, fs), f)
    && v1 == MkdirOn(v, SectorsOf(v, fs, fs.cwd), fs.cwd, f).0 && fs1 == Made(fs, Here(v, fs), f, v.spc)
  }

  /** rmdir finds the slot that mkdir filled. */
  lemma RmdirFindsMade(v: Vol, fs: Fs, v1: Vol, fs1: Fs, f: seq<nat>)
    requires Makes(v, fs, v1, fs1, f)
    ensures Good(v1, fs1) && SectorsOf(v1, fs1, fs1.cwd) == SectorsOf(v, fs, fs.cwd)
    ensures OnVolume(v1, SectorsOf(v1, fs1, fs1.cwd)) && |fs1.dir[fs1.cwd]| == |Here(v1, fs1)|
    ensures FreeSlot(Here(v, fs)) < |Here(v1, fs1)| && RmdirTarget(v1, fs1, f) == Some(FreeSlot(Here(v, fs)))
  {
    var c, n := Allocate(v.fat).1, FreeSlot(Here(v, fs));
    MadeCanBeRemoved(v, fs, f, c);
    RmdirFindsOnly(v1, fs1, f, n);
  }

  /** The cluster is free again. */
  lemma TableReturns(v: Vol, fs: Fs, v1: Vol, fs1: Fs, f: seq<nat>)
    requires Makes(v, fs, v1, fs1, f)
    requires OnVolume(v1, SectorsOf(v1, fs1, fs1.cwd)) && FreeSlot(Here(v, fs)) < |Here(v1, fs1)|
    ensures DeleteSlot(v1, fs1, FreeSlot(Here(v, fs))).fat == v.fat
  {
    var c := Allocate(v.fat).1;
    MadeCanBeRemoved(v, fs, f, c);
    AllocateClaimsLowest(v.fat);
    FreesOne(v1, fs1, FreeSlot(Here(v, fs)), c, v.fat);
  }

  lemma FreesOne(v: Vol, fs: Fs, n: nat, c: nat, fat: seq<nat>)
    requires OnVolume(v, SectorsOf(v, fs, fs.cwd)) && n < |Here(v, fs)| && KindOf(Here(v, fs)[n]) == Sub(c)
    requires ChainAt(fs, c) == [c] && c < |fat| && fat[c] == 0 && v.fat == fat[c := LAST]
    ensures DeleteSlot(v, fs, n).fat == fat
  {
    FreedAgain(fat, c);
  }

  /** mkdir of a new name and rmdir of it: the allocation table is as it was,
      and every lookup gives what it gave before. */
  lemma RmdirUndoesMkdir(v: Vol, fs: Fs, v1: Vol, fs1: Fs, f: seq<nat>)
    requires Makes(v, fs, v1, fs1, f)
    ensures Good(v1, fs1) && OnVolume(v1, SectorsOf(v1, fs1, fs1.cwd)) && |fs1.dir[fs1.cwd]| == |Here(v1, fs1)|
    ensures var s2, ss := Next(State(v1, fs1), Rmdir(f)), SectorsOf(v, fs, fs.cwd);
            && s2 != State(v1, fs1) && Sound(s2) && s2.v.fat == v.fat && OnVolume(s2.v, ss)
            && forall g :: Find(Entries(s2.v, ss), g) == Find(Here(v, fs), g)
  {
    RmdirFindsMade(v, fs, v1, fs1, f);
    TableReturns(v, fs, v1, fs1, f);
    var s1 := State(v1, fs1);
    RmdirOfNewName(s1, f);
    var v2, ss := Next(s1, Rmdir(f)).v, SectorsOf(v, fs, fs.cwd);
    forall g ensures OnVolume(v2, ss) && Find(Entries(v2, ss), g) == Find(Here(v, fs), g) {
      LookupsReturn(v, fs, v1, fs1, f, g);
    }
    AllocateClaimsLowest(v.fat);
    MadeIsOnly(v, fs, f, Allocate(v.fat).1);
  }

  lemma RmdirOfNewName(s: State, f: seq<nat>)
    requires Sound(s) && Storable(f) && EightThree(f)
    ensures OnVolume(s.v, SectorsOf(s.v, s.fs, s.fs.cwd)) && |s.fs.dir[s.fs.cwd]| == |Here(s.v, s.fs)|
    ensures Sound(Next(s, Rmdir(f)))
  {
    NextIsSound(s, Rmdir(f));
  }

  /** A deleted entry in a free slot does not show in any lookup. */
  lemma DeletedIsUnseen(es: seq<Entry>, es1: seq<Entry>, n: nat, g: seq<nat>)
    requires TailClean(es) && TailClean(es1) && n == FreeSlot(es) < |es| && |es1| == |es|
    requires es1[n][0] == DELETED && forall k :: 0 <= k < |es| && k != n ==> es1[k] == es[k]
    ensures Find(es1, g) == Find(es, g)
  {
    match Find(es, g)
    case None =>
      FindNothing(es, g, 0);
      FindNothing(es1, g, 0);
    case Some(k) =>
      FindIsFirst(es, g, 0, k);
      FindIsFirst(es1, g, 0, k);
  }

  lemma LookupsReturn(v: Vol, fs: Fs, v1: Vol, fs1: Fs, f: seq<nat>, g: seq<nat>)
    requires Makes(v, fs, v1, fs1, f)
    requires Good(v1, fs1) && OnVolume(v1, SectorsOf(v1, fs1, fs1.cwd))
    requires FreeSlot(Here(v, fs)) < |Here(v1, fs1)| && SectorsOf(v1, fs1, fs1.cwd) == SectorsOf(v, fs, fs.cwd)
    ensures var v2 := DeleteSlot(v1, fs1, FreeSlot(Here(v, fs)));
            OnVolume(v2, SectorsOf(v, fs, fs.cwd))
            && Find(Entries(v2, SectorsOf(v, fs, fs.cwd)), g) == Find(Here(v, fs), g)
  {
    CurrentDir(v, fs);
    MadeIsOnly(v, fs, f, Allocate(v.fat).1);
    DeletionShows(v1, fs1, Here(v, fs), FreeSlot(Here(v, fs)), g);
  }

  lemma DeletionShows(v: Vol, fs: Fs, es: seq<Entry>, n: nat, g: seq<nat>)
    requires Good(v, fs) && OnVolume(v, SectorsOf(v, fs, fs.cwd)) && TailClean(es)
    requires n == FreeSlot(es) < |es| == |Here(v, fs)|
    requires Here(v, fs) == es[n := Here(v, fs)[n]] && Live(Here(v, fs)[n])
    ensures var v1, ss := DeleteSlot(v, fs, n), SectorsOf(v, fs, fs.cwd);
            OnVolume(v1, ss) && Find(Entries(v1, ss), g) == Find(es, g)
  {
    CurrentDir(v, fs);
    assert DirMounted(v, fs, fs.cwd);
    var ss, e := SectorsOf(v, fs, fs.cwd), DeletedEntry(Here(v, fs)[n]);
    WriteSlotHere(v, ss, n, e);
    DeleteKeepsTail(Here(v, fs), n);
    EntriesIgnoreFat(WriteSlot(v, ss, n, e), DeleteSlot(v, fs, n).fat, ss);
    DeletedIsUnseen(es, Here(v, fs)[n := e], n, g);
  }

  // ---------------------------------------------------------------------
  // cd by name
  // ---------------------------------------------------------------------

  /** Where cd arrives: the first file or directory of the name decides. A
      subdirectory leads to its cluster, ".." to the directory that holds the
      entry of the current one; anything else leaves the current directory. */
  lemma CdArrives(v: Vol, fs: Fs, g: seq<nat>, n: nat)
    requires Good(v, fs) && OnVolume(v, SectorsOf(v, fs, fs.cwd)) && n < |Here(v, fs)|
    requires Candidate(Here(v, fs)[n], g) && forall k :: 0 <= k < n ==> !Candidate(Here(v, fs)[k], g)
    ensures match KindOf(Here(v, fs)[n])
            case Sub(c) => c in fs.dir && Refers(fs, fs.cwd, n, c) && CdTo(v, fs, g) == c
            case Up(_) => fs.cwd in fs.owner && CdTo(v, fs, g) == fs.owner[fs.cwd].0
            case _ => CdTo(v, fs, g) == fs.cwd
  {
    CurrentDir(v, fs);
    SlotOf(v, fs, n);
    forall k | 0 <= k < n ensures !IsEnd(Here(v, fs)[k]) {
      assert !IsEnd(Here(v, fs)[n]);
    }
    FindIsFirst(Here(v, fs), g, 0, n);
  }

  lemma CdNowhere(v: Vol, fs: Fs, g: seq<nat>)
    requires Good(v, fs) && OnVolume(v, SectorsOf(v, fs, fs.cwd))
    requires forall k :: 0 <= k < |Here(v, fs)| ==> !Candidate(Here(v, fs)[k], g)
    ensures CdTo(v, fs, g) == fs.cwd
  {
    CurrentDir(v, fs);
    FindNothing(Here(v, fs), g, 0);
  }

  /** The directory begins with "." for itself and ".." for its parent. */
  ghost predicate HeadedAt(fs: Fs, d: nat)
    requires d in fs.dir
  {
    && |fs.dir[d]| >= 2 && d in fs.owner
    && fs.dir[d][0] == Self(d) && fs.dir[d][1] == Up(fs.owner[d].0)
  }

  ghost predicate Headed(fs: Fs)
  {
    forall d {:trigger HeadedAt(fs, d)} :: d in fs.dir && d != 0 ==> HeadedAt(fs, d)
  }

  lemma DotDotNames(e: Entry)
    requires IsDotDot(e)
    ensures Named(e, [DOT, DOT])
  {
    var name := e[..8];
    assert name[0] == DOT && name[1] == DOT && name[2] == SPACE && e[8..11][0] == SPACE;
    UntilIs(name, SPACE, 2);
    assert Shown(name, e[8..11]) == [DOT, DOT];
    UntilAbsent([DOT, DOT], 0);
  }

  /** In such a directory cd ".." leads to the parent. */
  lemma CdUp(v: Vol, fs: Fs)
    requires Good(v, fs) && Headed(fs) && fs.cwd != 0
    ensures OnVolume(v, SectorsOf(v, fs, fs.cwd)) && fs.cwd in fs.owner
    ensures CdTo(v, fs, [DOT, DOT]) == fs.owner[fs.cwd].0
  {
    CurrentDir(v, fs);
    assert HeadedAt(fs, fs.cwd);
    var es := Here(v, fs);
    assert KindOf(es[0]) == Self(fs.cwd) && KindOf(es[1]) == Up(fs.owner[fs.cwd].0);
    DotDotNames(es[1]);
    if Named(es[0], [DOT, DOT]) {
      DotIsNamedDot(es[0], [DOT, DOT]);
    }
    CdArrives(v, fs, [DOT, DOT], 1);
  }

  /** cd into a subdirectory and cd ".." come back to where they started. */
  lemma CdThereAndBack(v: Vol, fs: Fs, g: seq<nat>, n: nat)
    requires Good(v, fs) && Headed(fs) && OnVolume(v, SectorsOf(v, fs, fs.cwd)) && n < |Here(v, fs)|
    requires KindOf(Here(v, fs)[n]).Sub? && Named(Here(v, fs)[n], g)
    requires forall k :: 0 <= k < n ==> !Candidate(Here(v, fs)[k], g)
    ensures var fs1 := fs.(cwd := CdTo(v, fs, g));
            && fs1.cwd == Cluster(Here(v, fs)[n]) && Good(v, fs1) && OnVolume(v, SectorsOf(v, fs1, fs1.cwd))
            && CdTo(v, fs1, [DOT, DOT]) == fs.cwd
  {
    CdArrives(v, fs, g, n);
    CdIsGood(v, fs, g);
    var c := CdTo(v, fs, g);
    var fs1 := fs.(cwd := c);
    assert 0 !in fs.owner;
    MoveKeepsHeads(fs, c);
    CdUp(v, fs1);
  }

  // ---------------------------------------------------------------------
  // Heads in sessions
  // ---------------------------------------------------------------------

  /** Rewriting a slot that holds neither "." nor ".." keeps the heads. */
  lemma PutKeepsHeads(fs: Fs, d: nat, n: nat, k: Kind)
    requires Headed(fs) && d in fs.dir && n < |fs.dir[d]| && !fs.dir[d][n].Self? && !fs.dir[d][n].Up?
    ensures Headed(T.PutSlot(fs, d, n, k))
  {
    var fs1 := T.PutSlot(fs, d, n, k);
    forall b | b in fs1.dir && b != 0 ensures HeadedAt(fs1, b) {
      assert HeadedAt(fs, b);
    }
  }

  lemma RemoveKeepsHeads(fs: Fs, c: nat)
    requires Healthy(fs) && Headed(fs) && c in fs.chains
    requires c in fs.dir ==> NoFiles(fs.dir[c])
    ensures OwnerOk(fs, c) && Headed(Remove(fs, c))
  {
    assert OwnerOk(fs, c);
    var fs1 := Remove(fs, c);
    forall b | b in fs1.dir && b != 0 ensures HeadedAt(fs1, b) {
      assert HeadedAt(fs, b);
    }
  }

  lemma MkdirKeepsHeads(fs: Fs, es: seq<Entry>, f: seq<nat>, spc: nat)
    requires Healthy(fs) && Headed(fs) && |fs.dir[fs.cwd]| == |es| && Kinds(es) == fs.dir[fs.cwd] && f != []
    requires spc >= 1
    ensures Headed(Made(fs, es, f, spc))
  {
    var c, n := Allocate(fs.fat).1, FreeSlot(es);
    AllocateClaimsLowest(fs.fat);
    var fs1 := Made(fs, es, f, spc);
    if n < |es| {
      assert fs.dir[fs.cwd][n] == KindOf(es[n]);
    }
    forall b | b in fs1.dir && b != 0 ensures HeadedAt(fs1, b) {
      if b in fs.dir {
        assert HeadedAt(fs, b);
        NewChainIsNew(fs, b);
      }
    }
  }

  lemma DeleteKeepsHeads(v: Vol, fs: Fs, n: nat)
    requires Good(v, fs) && Headed(fs) && OnVolume(v, SectorsOf(v, fs, fs.cwd)) && n < |Here(v, fs)|
    requires |fs.dir[fs.cwd]| == |Here(v, fs)|
    requires var k := KindOf(Here(v, fs)[n]); k.File? || (k.Sub? && k.c in fs.dir && NoFiles(fs.dir[k.c]))
    ensures Headed(SlotDeleted(v, fs, n))
  {
    SlotOf(v, fs, n);
    var c := Cluster(Here(v, fs)[n]);
    if c in fs.chains && c in fs.owner && fs.owner[c] == (fs.cwd, n) {
      assert OwnerOk(fs, c);
      RemoveKeepsHeads(fs, c);
    } else {
      PutKeepsHeads(fs, fs.cwd, n, Gone);
    }
  }

  lemma TouchKeepsHeads(v: Vol, fs: Fs, f: seq<nat>)
    requires Good(v, fs) && Headed(fs) && OnVolume(v, SectorsOf(v, fs, fs.cwd)) && |fs.dir[fs.cwd]| == |Here(v, fs)|
    ensures Headed(Touched(v, fs, f))
  {
    var es, n := Here(v, fs), FreeSlot(Here(v, fs));
    if n < |es| {
      SlotOf(v, fs, n);
      PutKeepsHeads(fs, fs.cwd, n, KindOf(NewEntry(es[n], f, 0, 0, 0)));
    }
  }

  lemma RmdirKeepsHeads(v: Vol, fs: Fs, g: seq<nat>, n: nat)
    requires Good(v, fs) && Headed(fs) && OnVolume(v, SectorsOf(v, fs, fs.cwd)) && |fs.dir[fs.cwd]| == |Here(v, fs)|
    requires RmdirTarget(v, fs, g) == Some(n) && g != [DOT]
    ensures Headed(SlotDeleted(v, fs, n))
  {
    if FindsItself(v, fs, g) {
      OnlyDotFindsItself(v, fs, g);
    }
    RmdirFindsSub(v, fs, g, n);
    EmptyIsNoFiles(v, fs, Cluster(Here(v, fs)[n]));
    DeleteKeepsHeads(v, fs, n);
  }

  lemma NextIsHeaded(s: State, op: Op)
    requires Sound(s) && Allowed(s, op) && Headed(s.fs)
    ensures OnVolume(s.v, SectorsOf(s.v, s.fs, s.fs.cwd)) && |s.fs.dir[s.fs.cwd]| == |Here(s.v, s.fs)|
    ensures Headed(Next(s, op).fs)
  {
    CurrentDir(s.v, s.fs);
    match op
    case Touch(f) => TouchKeepsHeads(s.v, s.fs, f);
    case Mkdir(f) => MkdirKeepsHeads(s.fs, Here(s.v, s.fs), f, s.v.spc);
    case Rm(g) =>
      var r := RmTarget(s.v, s.fs, g);
      if r.Some? {
        SlotOf(s.v, s.fs, r.value);
        DeleteKeepsHeads(s.v, s.fs, r.value);
      }
    case Rmdir(g) =>
      var r := RmdirTarget(s.v, s.fs, g);
      if r.Some? {
        RmdirKeepsHeads(s.v, s.fs, g, r.value);
      }
    case Cd(g) => MoveKeepsHeads(s.fs, CdTo(s.v, s.fs, g));
  }

  lemma MoveKeepsHeads(fs: Fs, d: nat)
    requires Headed(fs)
    ensures Headed(fs.(cwd := d))
  {
    forall b | b in fs.dir && b != 0 ensures HeadedAt(fs.(cwd := d), b) {
      assert HeadedAt(fs, b);
    }
  }

  /** In every state of every session cd ".." leads from every directory to
      the one that holds its entry. */
  lemma {:induction false} CdUpInEverySession(states: seq<State>, ops: seq<Op>, i: nat)
    requires Session(states, ops) && Sound(states[0]) && Headed(states[0].fs) && i < |states|
    ensures Sound(states[i]) && Headed(states[i].fs)
    ensures var s := states[i];
            OnVolume(s.v, SectorsOf(s.v, s.fs, s.fs.cwd))
            && (s.fs.cwd != 0 ==>
                  s.fs.cwd in s.fs.owner && CdTo(s.v, s.fs, [DOT, DOT]) == s.fs.owner[s.fs.cwd].0)
  {
    EverySessionIsSound(states, ops, i);
    if i > 0 {
      CdUpInEverySession(states, ops, i - 1);
      assert Allowed(states[i - 1], ops[i - 1]) && Step(states[i - 1], ops[i - 1], states[i]);
      NextIsHeaded(states[i - 1], ops[i - 1]);
    }
    CurrentDir(states[i].v, states[i].fs);
    if states[i].fs.cwd != 0 {
      CdUp(states[i].v, states[i].fs);
    }
  }
}
