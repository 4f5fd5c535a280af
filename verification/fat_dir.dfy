/** Directories as sequences of 32-byte entries (src/fs/fat.c:334-368, 442-562,
    577-763): lookup, the choice of a slot for a new entry, the searches that
    precede a deletion, and how they agree. */
module Directory {
  import opened Options
  import opened Names

  type Entry = e: seq<nat> | |e| == 32 witness seq<nat>(32, i requires 0 <= i < 32 => 0)

  const DELETED: nat := 0xE5
  const ATTR_DIRECTORY: nat := 0x10
  /** Entries in a 512-byte sector. */
  const PER_SECTOR: nat := 16

  predicate IsEnd(e: Entry) { e[0] == 0 }
  predicate Live(e: Entry) { e[0] != 0 && e[0] != DELETED }
  predicate IsVolume(e: Entry) { e[11] / 8 % 2 == 1 }
  predicate IsDir(e: Entry) { e[11] / 16 % 2 == 1 }
  function Cluster(e: Entry): nat { e[26] + 256 * e[27] }
  function FileSize(e: Entry): nat { e[28] + 256 * (e[29] + 256 * (e[30] + 256 * e[31])) }

  predicate Named(e: Entry, g: seq<nat>) { Matches(e[..8], e[8..11], g) }

  /** fat_find_file considers the entry and its name matches. */
  predicate Candidate(e: Entry, g: seq<nat>) { Live(e) && !IsVolume(e) && Named(e, g) }

  /** The fields fat_create_entry writes; the rest of the slot is kept. */
  function NewEntry(slot: Entry, f: seq<nat>, attr: nat, cluster: nat, size: nat): (e: Entry)
  {
    StoredName(f) + StoredExt(f)
    + [attr, 0, slot[13], 0, 0, 0, 0, slot[18], slot[19], 0, 0, slot[22], slot[23], slot[24], slot[25],
       cluster % 256, cluster / 256, size % 256, size / 256 % 256, size / 0x1_0000 % 256, size / 0x100_0000]
  }

  function DeletedEntry(e: Entry): Entry { e[0 := DELETED] }

  lemma NewEntryFields(slot: Entry, f: seq<nat>, attr: nat, cluster: nat, size: nat)
    ensures var e := NewEntry(slot, f, attr, cluster, size);
            && e[..8] == StoredName(f) && e[8..11] == StoredExt(f) && e[11] == attr && Cluster(e) == cluster
            && FileSize(e) == size
  {
    var e := NewEntry(slot, f, attr, cluster, size);
    assert e[..8] == StoredName(f) && e[8..11] == StoredExt(f);
    SizeReadsBack(size);
  }

  /** A size, cut into four bytes and put together again. */
  lemma SizeReadsBack(size: nat)
    ensures size % 256 + 256 * (size / 256 % 256 + 256 * (size / 0x1_0000 % 256 + 256 * (size / 0x100_0000))) == size
  {
    assert size / 0x1_0000 == size / 256 / 256 && size / 0x100_0000 == size / 256 / 256 / 256;
  }

  /** The entry as a record of the on-disk layout: name, extension, attributes,
      14 bytes that the driver does not read, the first cluster and the size,
      low byte first. */
  lemma LayoutOf(e: Entry, name: seq<nat>, ext: seq<nat>, attr: nat, middle: seq<nat>, c: nat, size: nat)
    requires |name| == 8 && |ext| == 3 && |middle| == 14 && c < 0x1_0000 && size < 0x1_0000_0000
    requires e == name + ext + [attr] + middle + [c % 256, c / 256]
                  + [size % 256, size / 256 % 256, size / 0x1_0000 % 256, size / 0x100_0000]
    ensures Cluster(e) == c && FileSize(e) == size
    ensures IsDir(e) <==> attr / 16 % 2 == 1
    ensures IsVolume(e) <==> attr / 8 % 2 == 1
    ensures forall g :: Named(e, g) <==> Matches(name, ext, g)
  {
    SizeReadsBack(size);
    assert e[..8] == name && e[8..11] == ext;
  }

  // ---------------------------------------------------------------------
  // Scans
  // ---------------------------------------------------------------------

  /** fat_find_file from slot i on: it stops at the first end marker. */
  function Find(es: seq<Entry>, g: seq<nat>, i: nat := 0): (r: Option<nat>)
    requires i <= |es|
    ensures r.Some? ==> i <= r.value < |es| && Candidate(es[r.value], g)
    decreases |es| - i
  {
    if i == |es| || IsEnd(es[i]) then None
    else if Candidate(es[i], g) then Some(i)
    else Find(es, g, i + 1)
  }

  /** The search before a deletion from slot i on: at an end marker it goes on
      with the next sector. For rmdir, volume entries take part. */
  function FindToDelete(es: seq<Entry>, g: seq<nat>, volumes: bool, i: nat := 0): (r: Option<nat>)
    ensures r.Some? ==> i <= r.value < |es| && Live(es[r.value]) && Named(es[r.value], g)
                        && (volumes || !IsVolume(es[r.value]))
    decreases |es| - i
  {
    if i >= |es| then None
    else if IsEnd(es[i]) then FindToDelete(es, g, volumes, i + PER_SECTOR - i % PER_SECTOR)
    else if Live(es[i]) && (volumes || !IsVolume(es[i])) && Named(es[i], g) then Some(i)
    else FindToDelete(es, g, volumes, i + 1)
  }

  /** The first slot that a new entry can take, or |es|. */
  function FreeSlot(es: seq<Entry>, i: nat := 0): (r: nat)
    requires i <= |es|
    ensures i <= r <= |es|
    ensures r < |es| ==> !Live(es[r])
    ensures forall j :: i <= j < r ==> Live(es[j])
    decreases |es| - i
  {
    if i == |es| || !Live(es[i]) then i else FreeSlot(es, i + 1)
  }

  /** The entries that an empty directory may hold. */
  predicate DotClass(e: Entry) { e[0] == DOT && (e[1] == SPACE || (e[1] == DOT && e[2] == SPACE)) }

  /** fat_is_dir_empty */
  predicate IsEmpty(es: seq<Entry>, i: nat := 0)
    requires i <= |es|
    decreases |es| - i
  {
    if i == |es| || IsEnd(es[i]) then true
    else if Live(es[i]) && !DotClass(es[i]) then false
    else IsEmpty(es, i + 1)
  }

  // ---------------------------------------------------------------------
  // What the scans mean
  // ---------------------------------------------------------------------

  /** Behind the first end marker there is nothing but end markers. */
  ghost predicate TailClean(es: seq<Entry>)
  {
    forall i, j :: 0 <= i < j < |es| && IsEnd(es[i]) ==> IsEnd(es[j])
  }

  /** The first candidate in front of the first end marker. */
  lemma {:induction false} FindIsFirst(es: seq<Entry>, g: seq<nat>, i: nat, n: nat)
    requires i <= n < |es|
    ensures Find(es, g, i) == Some(n) <==>
            Candidate(es[n], g) && forall j :: i <= j < n ==> !IsEnd(es[j]) && !Candidate(es[j], g)
    decreases n - i
  {
    if i < n && !IsEnd(es[i]) && !Candidate(es[i], g) {
      FindIsFirst(es, g, i + 1, n);
    }
  }

  lemma {:induction false} FindNothing(es: seq<Entry>, g: seq<nat>, i: nat)
    requires TailClean(es) && i <= |es|
    ensures Find(es, g, i) == None <==> forall n :: i <= n < |es| ==> !Candidate(es[n], g)
    decreases |es| - i
  {
    if i < |es| && !IsEnd(es[i]) && !Candidate(es[i], g) {
      FindNothing(es, g, i + 1);
    }
  }

  lemma {:induction false} OnlyEndsBehind(es: seq<Entry>, g: seq<nat>, volumes: bool, i: nat)
    requires forall j :: i <= j < |es| ==> IsEnd(es[j])
    ensures FindToDelete(es, g, volumes, i) == None
    decreases |es| - i
  {
    if i < |es| {
      OnlyEndsBehind(es, g, volumes, i + PER_SECTOR - i % PER_SECTOR);
    }
  }

  /** In a directory with a clean tail rm looks at what find would return. */
  lemma {:induction false} RmSearchAgrees(es: seq<Entry>, g: seq<nat>, i: nat)
    requires TailClean(es) && i <= |es|
    ensures FindToDelete(es, g, false, i) == Find(es, g, i)
    decreases |es| - i
  {
    if i < |es| {
      if IsEnd(es[i]) {
        OnlyEndsBehind(es, g, false, i);
      } else if !Candidate(es[i], g) {
        RmSearchAgrees(es, g, i + 1);
      }
    }
  }

  /** An entry that a search before a deletion may return. */
  predicate Deletable(e: Entry, g: seq<nat>, volumes: bool)
  {
    Live(e) && Named(e, g) && (volumes || !IsVolume(e))
  }

  /** What that search finds: the first such entry. */
  lemma {:induction false} FindToDeleteIsFirst(es: seq<Entry>, g: seq<nat>, volumes: bool, i: nat, n: nat)
    requires TailClean(es) && i <= n < |es|
    ensures FindToDelete(es, g, volumes, i) == Some(n) <==>
            Deletable(es[n], g, volumes) && forall j :: i <= j < n ==> !Deletable(es[j], g, volumes)
    decreases n - i
  {
    if IsEnd(es[i]) {
      OnlyEndsBehind(es, g, volumes, i);
    } else if i < n && !Deletable(es[i], g, volumes) {
      FindToDeleteIsFirst(es, g, volumes, i + 1, n);
    }
  }

  /** And nothing exactly if there is none. */
  lemma {:induction false} FindToDeleteNothing(es: seq<Entry>, g: seq<nat>, volumes: bool, i: nat)
    requires TailClean(es) && i <= |es|
    ensures FindToDelete(es, g, volumes, i) == None <==>
            forall n :: i <= n < |es| ==> !Deletable(es[n], g, volumes)
    decreases |es| - i
  {
    if i < |es| {
      if IsEnd(es[i]) {
        OnlyEndsBehind(es, g, volumes, i);
      } else if !Deletable(es[i], g, volumes) {
        FindToDeleteNothing(es, g, volumes, i + 1);
      }
    }
  }

  lemma {:induction false} EmptyMeansDotsOnly(es: seq<Entry>, i: nat)
    requires TailClean(es) && i <= |es|
    ensures IsEmpty(es, i) <==> forall n :: i <= n < |es| && Live(es[n]) ==> DotClass(es[n])
    decreases |es| - i
  {
    if i < |es| && !IsEnd(es[i]) && !(Live(es[i]) && !DotClass(es[i])) {
      EmptyMeansDotsOnly(es, i + 1);
    }
  }

  // ---------------------------------------------------------------------
  // Create, delete and find
  // ---------------------------------------------------------------------

  /** The directory after a successful create. */
  function Created(es: seq<Entry>, f: seq<nat>, attr: nat, cluster: nat, size: nat): seq<Entry>
    requires FreeSlot(es) < |es|
  {
    es[FreeSlot(es) := NewEntry(es[FreeSlot(es)], f, attr, cluster, size)]
  }

  /** A name whose first stored byte would read as an end or deletion mark. */
  predicate Storable(f: seq<nat>)
  {
    f != [] && CString(f) && UpperChar(f[0]) != DELETED
  }

  lemma NewEntryIsLive(slot: Entry, f: seq<nat>, attr: nat, cluster: nat, size: nat)
    requires Storable(f)
    ensures Live(NewEntry(slot, f, attr, cluster, size)) && NewEntry(slot, f, attr, cluster, size)[0] != DOT
  {
    var e := NewEntry(slot, f, attr, cluster, size);
    assert e[0] == StoredName(f)[0];
    assert f[0] != DOT ==> Base(f) != [] && Base(f)[0] == f[0];
  }

  lemma CreateKeepsTail(es: seq<Entry>, e: Entry)
    requires TailClean(es) && FreeSlot(es) < |es| && e[0] != 0
    ensures TailClean(es[FreeSlot(es) := e])
  {
  }

  /** After a create the new entry is found under every spelling that matches
      it and matched nothing before; all other names are found as before. */
  lemma CreateThenFind(es: seq<Entry>, e: Entry, g: seq<nat>)
    requires TailClean(es) && FreeSlot(es) < |es| && Live(e) && !IsVolume(e)
    ensures var n := FreeSlot(es);
            && (Named(e, g) && Find(es, g) == None ==> Find(es[n := e], g) == Some(n))
            && (!Named(e, g) ==> Find(es[n := e], g) == Find(es, g))
  {
    var n := FreeSlot(es);
    var es1 := es[n := e];
    CreateKeepsTail(es, e);
    if Named(e, g) && Find(es, g) == None {
      FindNothing(es, g, 0);
      FindIsFirst(es1, g, 0, n);
    }
    if !Named(e, g) {
      match Find(es, g)
      case None =>
        FindNothing(es, g, 0);
        FindNothing(es1, g, 0);
      case Some(k) =>
        FindIsFirst(es, g, 0, k);
        FindIsFirst(es1, g, 0, k);
    }
  }

  lemma DeleteKeepsTail(es: seq<Entry>, n: nat)
    requires TailClean(es) && n < |es| && Live(es[n])
    ensures TailClean(es[n := DeletedEntry(es[n])])
  {
  }

  /** After deleting the only match of g, g is not found; every name that the
      deleted entry did not have is found as before. */
  lemma DeleteThenFind(es: seq<Entry>, n: nat, g: seq<nat>)
    requires TailClean(es) && n < |es| && Live(es[n]) && !IsVolume(es[n])
    ensures var es1 := es[n := DeletedEntry(es[n])];
            && (Named(es[n], g) && (forall k :: 0 <= k < |es| && k != n ==> !Candidate(es[k], g)) ==>
                Find(es1, g) == None)
            && (!Named(es[n], g) ==> Find(es1, g) == Find(es, g))
  {
    var es1 := es[n := DeletedEntry(es[n])];
    DeleteKeepsTail(es, n);
    FindNothing(es1, g, 0);
    if !Named(es[n], g) {
      match Find(es, g)
      case None => FindNothing(es, g, 0);
      case Some(k) =>
        FindIsFirst(es, g, 0, k);
        FindIsFirst(es1, g, 0, k);
    }
  }

  /** The laws for names as users type them. */
  lemma CreateFindAgreement(es: seq<Entry>, f: seq<nat>, g: seq<nat>, attr: nat, cluster: nat, size: nat)
    requires TailClean(es) && FreeSlot(es) < |es| && Storable(f) && EightThree(f) && attr / 8 % 2 == 0
    ensures var n := FreeSlot(es); var es1 := Created(es, f, attr, cluster, size);
            && (Upper(g) == Upper(f) && Find(es, g) == None ==>
                  && Find(es1, g) == Some(n) && Cluster(es1[n]) == cluster && es1[n][11] == attr
                  && FileSize(es1[n]) == size)
            && (Upper(g) != Upper(f) ==> Find(es1, g) == Find(es, g))
  {
    var n := FreeSlot(es);
    var e := NewEntry(es[n], f, attr, cluster, size);
    NewEntryFields(es[n], f, attr, cluster, size);
    NewEntryIsLive(es[n], f, attr, cluster, size);
    MatchesUpToCase(f, g);
    CreateThenFind(es, e, g);
  }

  /** A name that begins with the deletion mark is stored as a deleted entry. */
  lemma NewEntryIsGone(slot: Entry, f: seq<nat>, attr: nat, cluster: nat, size: nat)
    requires f != [] && f[0] == DELETED
    ensures NewEntry(slot, f, attr, cluster, size)[0] == DELETED
  {
    assert Base(f) != [] && Base(f)[0] == f[0];
    assert NewEntry(slot, f, attr, cluster, size)[0] == StoredName(f)[0];
  }

  /** The empty name is stored as eleven blanks. */
  lemma NewEntryOfNothing(slot: Entry, attr: nat, cluster: nat, size: nat)
    ensures Live(NewEntry(slot, [], attr, cluster, size))
  {
    assert NewEntry(slot, [], attr, cluster, size)[0] == StoredName([])[0] == SPACE;
  }

  /** Among new names exactly those of 8.3 shape that do not begin with the
      deletion mark are found again as typed. */
  lemma CreatedIsFoundExactly(es: seq<Entry>, f: seq<nat>, attr: nat, cluster: nat, size: nat)
    requires TailClean(es) && FreeSlot(es) < |es| && CString(f) && attr / 8 % 2 == 0 && Find(es, f) == None
    ensures Find(Created(es, f, attr, cluster, size), f) == Some(FreeSlot(es))
            <==> EightThree(f) && (f == [] || f[0] != DELETED)
  {
    var n := FreeSlot(es);
    var e := NewEntry(es[n], f, attr, cluster, size);
    if f != [] && f[0] == DELETED {
      NewEntryIsGone(es[n], f, attr, cluster, size);
      assert !Candidate(e, f);
    } else {
      NewEntryFields(es[n], f, attr, cluster, size);
      if f == [] {
        NewEntryOfNothing(es[n], attr, cluster, size);
      } else {
        NewEntryIsLive(es[n], f, attr, cluster, size);
      }
      FoundAsTypedExactly(f);
      CreateThenFind(es, e, f);
    }
  }
}
