/** vmm_map_page as an update of a finite map from pages to frames, over any
    separated set of address spaces (src/kernel/vmm.c:34-84). */
module Mapping {
  import opened Options
  import opened Pmm
  import opened Paging

  predicate FullPath(p: seq<nat>)
  {
    |p| == 4 && IsPath(p)
  }

  /** Whether vmm_map_page can allocate the tables it misses; a caller can
      tell from the tables and the allocator before the call. */
  predicate CanMap(ph: Phys, root: nat, p: seq<nat>)
    requires FullPath(p)
  {
    Need(ph, root, p[..3]) <= FreeCount(ph.used)
  }

  ghost function MapPlaces(ph: Phys, places: map<nat, Place>, root: nat, p: seq<nat>): map<nat, Place>
    requires |ph.used| == |ph.frames| && FullPath(p)
  {
    PopulatePlaces(ph, places, root, p[..3])
  }

  // ---------------------------------------------------------------------
  // Writing a leaf entry
  // ---------------------------------------------------------------------

  lemma {:induction false} LeafKeepsDescend(ph: Phys, places: map<nat, Place>, t: nat, i: nat, e: nat,
                                            u: nat, path: seq<nat>)
    requires Separated(ph, places) && t in places && |places[t].path| == 3 && i < ENTRIES
    requires u in places && IsPath(path) && |places[u].path| + |path| < 4
    ensures Descend(SetEntry(ph, t, i, e), u, path) == Descend(ph, u, path)
    decreases |path|
  {
    if path != [] {
      assert EntryAt(SetEntry(ph, t, i, e), u, path[0]) == EntryAt(ph, u, path[0]);
      if Present(EntryAt(ph, u, path[0])) {
        assert Linked(ph, places, u, path[0]);
        LeafKeepsDescend(ph, places, t, i, e, EntryFrame(EntryAt(ph, u, path[0])), path[1..]);
      }
    }
  }

  lemma LeafKeepsSeparation(ph: Phys, places: map<nat, Place>, t: nat, i: nat, e: nat)
    requires Separated(ph, places) && t in places && |places[t].path| == 3 && i < ENTRIES
    ensures Separated(SetEntry(ph, t, i, e), places)
  {
    var ph1 := SetEntry(ph, t, i, e);
    forall u, j | u in places && 0 <= j < ENTRIES && |places[u].path| < 3 && Present(EntryAt(ph1, u, j))
      ensures Linked(ph1, places, u, j)
    {
      assert EntryAt(ph1, u, j) == EntryAt(ph, u, j);
      assert Linked(ph, places, u, j);
    }
  }

  /** A leaf write is seen by the walks that end in its slot and by no other. */
  lemma LeafLookup(ph: Phys, places: map<nat, Place>, t: nat, i: nat, e: nat, u: nat, path: seq<nat>)
    requires Separated(ph, places) && t in places && |places[t].path| == 3 && i < ENTRIES
    requires u in places && path != [] && IsPath(path) && |places[u].path| + |path| == 4
    ensures Lookup(SetEntry(ph, t, i, e), u, path) ==
            if IntoSlot(ph, t, i, u, path) then Leaf(e) else Lookup(ph, u, path)
  {
    var ph1, n := SetEntry(ph, t, i, e), |path| - 1;
    LookupViaDescend(ph, u, path);
    LookupViaDescend(ph1, u, path);
    LeafKeepsDescend(ph, places, t, i, e, u, path[..n]);
  }

  // ---------------------------------------------------------------------
  // vmm_map_page
  // ---------------------------------------------------------------------

  /** What Populate hands to the leaf write. */
  lemma MapReachesLeaf(ph: Phys, places: map<nat, Place>, root: nat, p: seq<nat>)
    requires Separated(ph, places) && IsRoot(places, root) && FullPath(p)
    ensures var (ph1, r) := Populate(ph, root, p[..3]);
            var after := MapPlaces(ph, places, root, p);
            && (r.Some? <==> CanMap(ph, root, p))
            && Separated(ph1, after) && IsRoot(after, root)
            && (forall u :: u in places ==> u in after && after[u] == places[u])
            && (r.Some? ==> r.value in after && after[r.value] == PlaceUnder(root, p[..3])
                            && Descend(ph1, root, p[..3]) == r)
  {
    PopulateCounts(ph, places, root, p[..3]);
    PopulateKeepsSeparation(ph, places, root, p[..3]);
    var (ph1, r) := Populate(ph, root, p[..3]);
    if r.Some? {
      assert [] + p[..3] == p[..3];
      PopulateTables(ph, places, root, [], root, p[..3], []);
      RootArrives(ph1, MapPlaces(ph, places, root, p), root, p[..3]);
    }
  }

  lemma MapIsLeafWrite(ph: Phys, places: map<nat, Place>, root: nat, p: seq<nat>, paddr: nat, flags: nat)
    requires Separated(ph, places) && IsRoot(places, root) && FullPath(p) && FlagBits(flags)
    ensures var (ph1, r) := Populate(ph, root, p[..3]);
            && (r.Some? ==>
                  && IsTable(ph1, r.value)
                  && MapAt(ph, root, p, paddr, flags) == SetEntry(ph1, r.value, p[3], MakeEntry(paddr, flags)))
            && (r.None? ==> MapAt(ph, root, p, paddr, flags) == ph1)
  {
    MapReachesLeaf(ph, places, root, p);
  }

  /** Table separation survives, whether or not the mapping succeeds. */
  lemma MapKeepsSeparation(ph: Phys, places: map<nat, Place>, root: nat, p: seq<nat>, paddr: nat, flags: nat)
    requires Separated(ph, places) && IsRoot(places, root) && FullPath(p) && FlagBits(flags)
    ensures var after := MapPlaces(ph, places, root, p);
            && Separated(MapAt(ph, root, p, paddr, flags), after)
            && (forall u :: u in places ==> u in after && after[u] == places[u])
  {
    MapReachesLeaf(ph, places, root, p);
    MapIsLeafWrite(ph, places, root, p, paddr, flags);
    var (ph1, r) := Populate(ph, root, p[..3]);
    if r.Some? {
      LeafKeepsSeparation(ph1, MapPlaces(ph, places, root, p), r.value, p[3], MakeEntry(paddr, flags));
    }
  }

  /** The page afterwards, in the space that was asked for. */
  lemma MapTarget(ph: Phys, places: map<nat, Place>, root: nat, p: seq<nat>, paddr: nat, flags: nat)
    requires Separated(ph, places) && IsRoot(places, root) && FullPath(p) && FlagBits(flags)
    requires CanMap(ph, root, p)
    ensures Lookup(MapAt(ph, root, p, paddr, flags), root, p) == Leaf(MakeEntry(paddr, flags))
  {
    MapReachesLeaf(ph, places, root, p);
    MapIsLeafWrite(ph, places, root, p, paddr, flags);
    var (ph1, r) := Populate(ph, root, p[..3]);
    LeafLookup(ph1, MapPlaces(ph, places, root, p), r.value, p[3], MakeEntry(paddr, flags), root, p);
  }

  /** Every other page, and every page of another space outside the common
      slot 0, translates as before. */
  lemma MapElsewhere(ph: Phys, places: map<nat, Place>, root: nat, p: seq<nat>, paddr: nat, flags: nat,
                     r: nat, q: seq<nat>)
    requires Separated(ph, places) && IsRoot(places, root) && FullPath(p) && FlagBits(flags) && IsRoot(places, r)
             && FullPath(q)
    requires q != p || (r != root && p[0] != 0)
    ensures Lookup(MapAt(ph, root, p, paddr, flags), r, q) == Lookup(ph, r, q)
  {
    MapReachesLeaf(ph, places, root, p);
    MapIsLeafWrite(ph, places, root, p, paddr, flags);
    PopulateKeepsLookup(ph, places, root, p[..3], r, q);
    var (ph1, leaf) := Populate(ph, root, p[..3]);
    var after := MapPlaces(ph, places, root, p);
    if leaf.Some? {
      LeafLookup(ph1, after, leaf.value, p[3], MakeEntry(paddr, flags), r, q);
      assert q == q[..3] + [q[3]] && p == p[..3] + [p[3]];
      if IntoSlot(ph1, leaf.value, p[3], r, q) {
        RootArrives(ph1, after, r, q[..3]);
        assert false;
      }
    }
  }

  /** When a table cannot be allocated, no translation changes anywhere. */
  lemma MapFails(ph: Phys, places: map<nat, Place>, root: nat, p: seq<nat>, paddr: nat, flags: nat, r: nat, q: seq<nat>)
    requires Separated(ph, places) && IsRoot(places, root) && FullPath(p) && FlagBits(flags) && IsRoot(places, r)
             && FullPath(q)
    requires !CanMap(ph, root, p)
    ensures Lookup(MapAt(ph, root, p, paddr, flags), r, q) == Lookup(ph, r, q)
    ensures Lookup(ph, root, p) == None
    ensures FreeCount(MapAt(ph, root, p, paddr, flags).used) == 0
  {
    MapReachesLeaf(ph, places, root, p);
    MapIsLeafWrite(ph, places, root, p, paddr, flags);
    PopulateKeepsLookup(ph, places, root, p[..3], r, q);
    PopulateCounts(ph, places, root, p[..3]);
    LookupViaDescend(ph, root, p);
    NeedIsMissing(ph, root, p[..3]);
  }

  lemma {:induction false} NeedIsMissing(ph: Phys, t: nat, path: seq<nat>)
    ensures Need(ph, t, path) == 0 <==> Descend(ph, t, path).Some?
    decreases |path|
  {
    if path != [] && Present(EntryAt(ph, t, path[0])) {
      NeedIsMissing(ph, EntryFrame(EntryAt(ph, t, path[0])), path[1..]);
    }
  }

  lemma {:induction false} NeedAfterGap(ph: Phys, t: nat, path: seq<nat>, m: nat)
    requires m < |path| && Descend(ph, t, path[..m]).Some? && Descend(ph, t, path[..m + 1]).None?
    ensures Need(ph, t, path) == |path| - m
    decreases |path|
  {
    if m > 0 {
      assert path[..m][1..] == path[1..][..m - 1] && path[..m + 1][1..] == path[1..][..m];
      NeedAfterGap(ph, EntryFrame(EntryAt(ph, t, path[0])), path[1..], m - 1);
    } else {
      assert path[..1][1..] == [];
    }
  }

  lemma MapTranslates(ph: Phys, places: map<nat, Place>, root: nat, v: nat, paddr: nat, flags: nat, w: nat)
    requires Separated(ph, places) && IsRoot(places, root) && FlagBits(flags) && Present(flags)
    ensures Translate(MapPage(ph, root, v, paddr, flags), root, w) ==
            if PageOf(w) == PageOf(v) && CanMap(ph, root, PathOf(v))
            then Some(paddr / BLOCK_SIZE % MAX_FRAMES * BLOCK_SIZE + w % BLOCK_SIZE)
            else Translate(ph, root, w)
  {
    PathNamesPage(v, w);
    if !CanMap(ph, root, PathOf(v)) {
      MapFails(ph, places, root, PathOf(v), paddr, flags, root, PathOf(w));
    } else if PageOf(w) == PageOf(v) {
      MapTarget(ph, places, root, PathOf(v), paddr, flags);
    } else {
      MapElsewhere(ph, places, root, PathOf(v), paddr, flags, root, PathOf(w));
    }
  }

  /** The whole of vmm_map_page in one statement: a map update when the
      missing tables fit into the free frames, nothing visible otherwise. */
  lemma MapPageRefinesUpdate(ph: Phys, places: map<nat, Place>, root: nat, v: nat, paddr: nat, flags: nat)
    requires Separated(ph, places) && IsRoot(places, root) && FlagBits(flags) && Present(flags)
    ensures var ph1 := MapPage(ph, root, v, paddr, flags);
            && Separated(ph1, MapPlaces(ph, places, root, PathOf(v)))
            && forall w: nat ::
                 Translate(ph1, root, w) ==
                 if PageOf(w) == PageOf(v) && CanMap(ph, root, PathOf(v))
                 then Some(paddr / BLOCK_SIZE % MAX_FRAMES * BLOCK_SIZE + w % BLOCK_SIZE)
                 else Translate(ph, root, w)
  {
    MapKeepsSeparation(ph, places, root, PathOf(v), paddr, flags);
    forall w: nat {
      MapTranslates(ph, places, root, v, paddr, flags, w);
    }
  }

  /** Frames holding data are not touched, and none of them becomes a table. */
  lemma MapKeepsData(ph: Phys, places: map<nat, Place>, root: nat, p: seq<nat>, paddr: nat, flags: nat, g: nat)
    requires Separated(ph, places) && IsRoot(places, root) && FullPath(p) && FlagBits(flags)
    requires g < |ph.frames| && ph.used[g] && g !in places
    ensures var ph1 := MapAt(ph, root, p, paddr, flags);
            && |ph1.frames| == |ph.frames| && ph1.used[g] && ph1.frames[g] == ph.frames[g]
            && g !in MapPlaces(ph, places, root, p)
  {
    MapReachesLeaf(ph, places, root, p);
    MapIsLeafWrite(ph, places, root, p, paddr, flags);
    PopulateKeepsData(ph, places, root, p[..3], g);
  }

  /** Exactly the missing tables are paid for. */
  lemma MapCounts(ph: Phys, places: map<nat, Place>, root: nat, p: seq<nat>, paddr: nat, flags: nat)
    requires Separated(ph, places) && IsRoot(places, root) && FullPath(p) && FlagBits(flags)
    ensures FreeCount(MapAt(ph, root, p, paddr, flags).used) ==
            if CanMap(ph, root, p) then FreeCount(ph.used) - Need(ph, root, p[..3]) else 0
  {
    MapReachesLeaf(ph, places, root, p);
    MapIsLeafWrite(ph, places, root, p, paddr, flags);
    PopulateCounts(ph, places, root, p[..3]);
  }

  /** A successful mapping leaves exactly the tables along its path behind. */
  lemma MapTables(ph: Phys, places: map<nat, Place>, root: nat, p: seq<nat>, paddr: nat, flags: nat, q: seq<nat>)
    requires Separated(ph, places) && IsRoot(places, root) && FullPath(p) && FlagBits(flags) && CanMap(ph, root, p)
    requires IsPath(q) && |q| < 4
    ensures Descend(MapAt(ph, root, p, paddr, flags), root, q).Some? <==> Descend(ph, root, q).Some? || q <= p[..3]
  {
    MapReachesLeaf(ph, places, root, p);
    MapIsLeafWrite(ph, places, root, p, paddr, flags);
    assert [] + p[..3] == p[..3];
    PopulateTables(ph, places, root, [], root, p[..3], q);
    var (ph1, r) := Populate(ph, root, p[..3]);
    LeafKeepsDescend(ph1, MapPlaces(ph, places, root, p), r.value, p[3], MakeEntry(paddr, flags), root, q);
  }

  /** A present entry above the last level is never rewritten. */
  lemma {:induction false} PopulateKeepsEntry(ph: Phys, places: map<nat, Place>, t: nat, path: seq<nat>, u: nat, j: nat)
    requires Separated(ph, places) && t in places && IsPath(path) && |places[t].path| + |path| < 4
    requires u in places && j < ENTRIES && Present(EntryAt(ph, u, j))
    ensures EntryAt(Populate(ph, t, path).0, u, j) == EntryAt(ph, u, j)
    decreases |path|
  {
    if path != [] {
      EnsureCases(ph, places, t, path[0]);
      StepDown(ph, places, t, path);
      var (ph1, n) := Ensure(ph, t, path[0]);
      if n.Some? {
        PopulateKeepsEntry(ph1, places[n.value := Child(places[t], path[0])], n.value, path[1..], u, j);
      }
    }
  }

  lemma MapKeepsEntry(ph: Phys, places: map<nat, Place>, root: nat, p: seq<nat>, paddr: nat, flags: nat, u: nat, j: nat)
    requires Separated(ph, places) && IsRoot(places, root) && FullPath(p) && FlagBits(flags)
    requires u in places && |places[u].path| < 3 && j < ENTRIES && Present(EntryAt(ph, u, j))
    ensures EntryAt(MapAt(ph, root, p, paddr, flags), u, j) == EntryAt(ph, u, j)
  {
    MapReachesLeaf(ph, places, root, p);
    MapIsLeafWrite(ph, places, root, p, paddr, flags);
    PopulateKeepsEntry(ph, places, root, p[..3], u, j);
  }
}
