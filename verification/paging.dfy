/** Four-level page tables over physical frames (src/kernel/vmm.c), as pure
    functions of the physical memory; the methods in vmm.dfy are proved equal
    to them.  Frames are named by number (address / 4096). */
module Paging {
  import opened Options
  import opened Pmm

  const ENTRIES: nat := 512
  /** Number of frames that a 52-bit physical address can name. */
  const MAX_FRAMES: nat := 0x100_0000_0000
  /** PRESENT | WRITABLE | USER */
  const TABLE_FLAGS: nat := 7

  /** A frame is used as a page table or as 4096 bytes of data. */
  datatype Frame = Table(entries: seq<nat>) | Page(bytes: seq<nat>)

  function ZeroTable(): Frame { Table(seq(ENTRIES, i requires 0 <= i < ENTRIES => 0)) }

  /** Physical memory together with the flags of the frame allocator. */
  datatype Phys = Phys(used: seq<bool>, frames: seq<Frame>)

  // ---------------------------------------------------------------------
  // Entries and addresses
  // ---------------------------------------------------------------------

  predicate Present(e: nat) { e % 2 == 1 }

  /** Present, writable and open to user mode: bits 0, 1 and 2. */
  predicate Open(e: nat) { e % 2 == 1 && e / 2 % 2 == 1 && e / 4 % 2 == 1 }

  /** The frame named by e & 0xFFFFFFFFFF000. */
  function EntryFrame(e: nat): (f: nat)
  {
    e / BLOCK_SIZE % MAX_FRAMES
  }

  /** Flags that keep out of the address bits 12..51, as all of vmm.h's do. */
  predicate FlagBits(flags: nat)
  {
    flags < BLOCK_SIZE || flags / BLOCK_SIZE % MAX_FRAMES == 0
  }

  /** (paddr & 0xFFFFFFFFFF000) | flags; the two operands share no bit. */
  function MakeEntry(paddr: nat, flags: nat): (e: nat)
    requires FlagBits(flags)
    ensures EntryFrame(e) == paddr / BLOCK_SIZE % MAX_FRAMES
    ensures Present(e) <==> flags % 2 == 1
  {
    paddr / BLOCK_SIZE % MAX_FRAMES * BLOCK_SIZE + flags
  }

  /** The entry made for a frame leads back to it. */
  lemma FrameOfEntry(f: nat)
    requires f < MAX_FRAMES
    ensures MakeEntry(f * BLOCK_SIZE, TABLE_FLAGS) == f * BLOCK_SIZE + TABLE_FLAGS
    ensures EntryFrame(MakeEntry(f * BLOCK_SIZE, TABLE_FLAGS)) == f && Present(MakeEntry(f * BLOCK_SIZE, TABLE_FLAGS))
  {
  }

  lemma EntryIsOpen(f: nat)
    ensures Open(f * BLOCK_SIZE + TABLE_FLAGS)
  {
    LowBits7(f * 512);
  }

  lemma LowBits7(q: nat)
    ensures Open(8 * q + 7)
  {
    assert (8 * q + 7) / 2 == 4 * q + 3 && (8 * q + 7) / 4 == 2 * q + 1;
  }

  /** The four 9-bit indices of a virtual address, top level first. */
  function PathOf(v: nat): (p: seq<nat>)
    ensures IsPath(p) && |p| == 4
  {
    [v / 0x80_0000_0000 % ENTRIES, v / 0x4000_0000 % ENTRIES, v / 0x20_0000 % ENTRIES, v / 0x1000 % ENTRIES]
  }

  predicate IsPath(p: seq<nat>)
  {
    forall i :: 0 <= i < |p| ==> p[i] < ENTRIES
  }

  /** The number of the page that an address lies in; bits 48 and up are not
      looked at. */
  function PageOf(v: nat): nat
  {
    v / 0x1000 % 0x10_0000_0000
  }

  function PathOfPage(n: nat): seq<nat>
  {
    [n / 0x800_0000, n / 0x4_0000 % ENTRIES, n / 0x200 % ENTRIES, n % ENTRIES]
  }

  lemma HighBits(n: nat)
    ensures n % 0x10_0000_0000 / 0x800_0000 == n / 0x800_0000 % ENTRIES
    ensures n % 0x10_0000_0000 / 0x4_0000 % ENTRIES == n / 0x4_0000 % ENTRIES
  {
    var q, m := n / 0x10_0000_0000, n % 0x10_0000_0000;
    assert n / 0x800_0000 == q * 512 + m / 0x800_0000;
    assert n / 0x4_0000 == (q * 512) * 512 + m / 0x4_0000;
  }

  lemma LowBits(n: nat)
    ensures n % 0x10_0000_0000 / 0x200 % ENTRIES == n / 0x200 % ENTRIES
    ensures n % 0x10_0000_0000 % ENTRIES == n % ENTRIES
  {
  }

  lemma ShiftTwice(v: nat)
    ensures v / 0x20_0000 == v / 0x1000 / 0x200
    ensures v / 0x4000_0000 == v / 0x1000 / 0x4_0000
    ensures v / 0x80_0000_0000 == v / 0x1000 / 0x800_0000
  {
  }

  lemma PathIsPage(v: nat)
    ensures PathOf(v) == PathOfPage(PageOf(v))
  {
    ShiftTwice(v);
    HighBits(v / 0x1000);
    LowBits(v / 0x1000);
  }

  lemma PageFromPath(n: nat)
    ensures var p := PathOfPage(n);
            n == p[0] * 0x800_0000 + p[1] * 0x4_0000 + p[2] * 0x200 + p[3]
  {
    var a := n / 0x200;
    var b := a / 0x200;
    assert n / 0x4_0000 == b && n / 0x800_0000 == b / 0x200;
    assert n == a * 0x200 + n % ENTRIES && a == b * 0x200 + a % ENTRIES && b == b / 0x200 * 0x200 + b % ENTRIES;
  }

  /** The walk can tell two addresses apart exactly when their pages differ. */
  lemma PathNamesPage(v: nat, w: nat)
    ensures PathOf(v) == PathOf(w) <==> PageOf(v) == PageOf(w)
  {
    PathIsPage(v);
    PathIsPage(w);
    PageFromPath(PageOf(v));
    PageFromPath(PageOf(w));
  }

  // ---------------------------------------------------------------------
  // Walking
  // ---------------------------------------------------------------------

  predicate IsTable(ph: Phys, t: nat)
  {
    t < |ph.frames| && ph.frames[t].Table? && |ph.frames[t].entries| == ENTRIES
  }

  function EntryAt(ph: Phys, t: nat, i: nat): nat
  {
    if IsTable(ph, t) && i < ENTRIES then ph.frames[t].entries[i] else 0
  }

  function SetEntry(ph: Phys, t: nat, i: nat, e: nat): (r: Phys)
    requires IsTable(ph, t) && i < ENTRIES
  {
    ph.(frames := ph.frames[t := Table(ph.frames[t].entries[i := e])])
  }

  /** The table reached from t by following path through present entries. */
  function Descend(ph: Phys, t: nat, path: seq<nat>): (r: Option<nat>)
    decreases |path|
  {
    if path == [] then Some(t)
    else if Present(EntryAt(ph, t, path[0])) then Descend(ph, EntryFrame(EntryAt(ph, t, path[0])), path[1..])
    else None
  }

  function Follow(e: nat): Option<nat> { if Present(e) then Some(EntryFrame(e)) else None }

  function Leaf(e: nat): Option<nat> { if Present(e) then Some(e) else None }

  /** The hardware walk: the present leaf entry at the end of path, if any. */
  function Lookup(ph: Phys, t: nat, path: seq<nat>): (r: Option<nat>)
    requires path != []
    decreases |path|
  {
    var e := EntryAt(ph, t, path[0]);
    if |path| == 1 then Leaf(e)
    else if Present(e) then Lookup(ph, EntryFrame(e), path[1..])
    else None
  }

  /** The physical address that v translates to under the tree at root. */
  function Translate(ph: Phys, root: nat, v: nat): Option<nat>
  {
    match Lookup(ph, root, PathOf(v))
    case None => None
    case Some(e) => Some(EntryFrame(e) * BLOCK_SIZE + v % BLOCK_SIZE)
  }

  lemma {:induction false} LookupViaDescend(ph: Phys, t: nat, path: seq<nat>)
    requires path != []
    ensures var n := |path| - 1;
            Lookup(ph, t, path) == match Descend(ph, t, path[..n])
                                   case None => None
                                   case Some(u) => Leaf(EntryAt(ph, u, path[n]))
    decreases |path|
  {
    if |path| > 1 {
      var c := EntryFrame(EntryAt(ph, t, path[0]));
      LookupViaDescend(ph, c, path[1..]);
      assert path[1..][..|path| - 2] == path[..|path| - 1][1..];
    }
  }

  // ---------------------------------------------------------------------
  // Building: vmm_map_page
  // ---------------------------------------------------------------------

  /** One level of vmm_map_page: the table behind slot i of t, made from a
      fresh zeroed frame when the slot is empty. */
  function Ensure(ph: Phys, t: nat, i: nat): (r: (Phys, Option<nat>))
    requires IsTable(ph, t) && i < ENTRIES && |ph.used| == |ph.frames|
    ensures |r.0.used| == |ph.used| && |r.0.frames| == |ph.frames|
  {
    var e := EntryAt(ph, t, i);
    if Present(e) then (ph, Some(EntryFrame(e)))
    else
      var (used, p) := Alloc(ph.used);
      if p == 0 then (ph.(used := used), None)
      else
        var f := p / BLOCK_SIZE;
        var zeroed := Phys(used, ph.frames[f := ZeroTable()]);
        (SetEntry(zeroed, t, i, p + TABLE_FLAGS), Some(f))
  }

  /** The tables along path, created where missing. */
  function Populate(ph: Phys, t: nat, path: seq<nat>): (r: (Phys, Option<nat>))
    requires |ph.used| == |ph.frames| && IsPath(path)
    ensures |r.0.used| == |ph.used| && |r.0.frames| == |ph.frames|
    decreases |path|
  {
    if path == [] then (ph, Some(t))
    else if !IsTable(ph, t) then (ph, None)
    else
      var (ph1, n) := Ensure(ph, t, path[0]);
      if n.None? then (ph1, None) else Populate(ph1, n.value, path[1..])
  }

  /** The body of vmm_map_page once the address is cut into its four indices. */
  function MapAt(ph: Phys, root: nat, path: seq<nat>, paddr: nat, flags: nat): (r: Phys)
    requires |ph.used| == |ph.frames| && |path| == 4 && IsPath(path) && FlagBits(flags)
    ensures |r.used| == |r.frames| == |ph.used|
  {
    var (ph1, t) := Populate(ph, root, path[..3]);
    if t.Some? && IsTable(ph1, t.value) then SetEntry(ph1, t.value, path[3], MakeEntry(paddr, flags)) else ph1
  }

  /** vmm_map_page; it reports nothing when a table cannot be allocated. */
  function MapPage(ph: Phys, root: nat, v: nat, paddr: nat, flags: nat): (r: Phys)
    requires |ph.used| == |ph.frames| && FlagBits(flags)
    ensures |r.used| == |r.frames| == |ph.used|
  {
    MapAt(ph, root, PathOf(v), paddr, flags)
  }

  /** Frames that Populate will ask for: one per missing table. */
  function Need(ph: Phys, t: nat, path: seq<nat>): (n: nat)
    ensures n <= |path|
    decreases |path|
  {
    if path == [] then 0
    else if Present(EntryAt(ph, t, path[0])) then Need(ph, EntryFrame(EntryAt(ph, t, path[0])), path[1..])
    else |path|
  }

  // ---------------------------------------------------------------------
  // Separation
  // ---------------------------------------------------------------------

  /** Where a table sits: below the root of one address space, or below slot
      0, which address spaces have in common. */
  datatype Space = Own(root: nat) | Common
  datatype Place = Place(space: Space, path: seq<nat>)

  function Child(p: Place, i: nat): Place
  {
    Place(if p.path == [] && i == 0 then Common else p.space, p.path + [i])
  }

  /** The place reached from p by a whole path. */
  function Below(p: Place, path: seq<nat>): Place
  {
    Place(if p.path == [] && path != [] && path[0] == 0 then Common else p.space, p.path + path)
  }

  function PlaceUnder(root: nat, path: seq<nat>): Place
  {
    Place(if path != [] && path[0] == 0 then Common else Own(root), path)
  }

  ghost predicate WellFormed(ph: Phys)
  {
    && |ph.frames| == |ph.used| <= MAX_FRAMES
    && (|ph.used| > 0 ==> ph.used[0])
  }

  /** Every table is a used frame with a single place; a present entry above
      the last level leads to the table placed below it. */
  ghost predicate Separated(ph: Phys, places: map<nat, Place>)
  {
    && WellFormed(ph)
    && (forall t :: t in places ==> IsTable(ph, t) && ph.used[t] && |places[t].path| < 4
                                    && (places[t].path == [] ==> places[t].space == Own(t)))
    && (forall t, i :: t in places && 0 <= i < ENTRIES && |places[t].path| < 3 && Present(EntryAt(ph, t, i)) ==>
          Linked(ph, places, t, i))
  }

  ghost predicate Linked(ph: Phys, places: map<nat, Place>, t: nat, i: nat)
    requires t in places
  {
    var c := EntryFrame(EntryAt(ph, t, i));
    c in places && places[c] == Child(places[t], i) && EntryAt(ph, t, i) == c * BLOCK_SIZE + TABLE_FLAGS
  }

  ghost predicate IsRoot(places: map<nat, Place>, r: nat)
  {
    r in places && places[r].path == []
  }

  /** Following a path from a root arrives at the table placed there. */
  lemma {:induction false} DescendArrives(ph: Phys, places: map<nat, Place>, t: nat, path: seq<nat>)
    requires Separated(ph, places) && t in places && IsPath(path)
    requires |places[t].path| + |path| < 4
    ensures var r := Descend(ph, t, path);
            r.Some? ==> r.value in places && places[r.value] == Below(places[t], path)
    decreases |path|
  {
    if path == [] {
      assert places[t].path + path == places[t].path;
    } else if Present(EntryAt(ph, t, path[0])) {
      assert Linked(ph, places, t, path[0]);
      var c := EntryFrame(EntryAt(ph, t, path[0]));
      DescendArrives(ph, places, c, path[1..]);
      assert places[c].path + path[1..] == places[t].path + path;
    }
  }

  lemma RootArrives(ph: Phys, places: map<nat, Place>, root: nat, path: seq<nat>)
    requires Separated(ph, places) && IsRoot(places, root) && IsPath(path) && |path| < 4
    ensures var r := Descend(ph, root, path);
            r.Some? ==> r.value in places && places[r.value] == PlaceUnder(root, path)
  {
    DescendArrives(ph, places, root, path);
    assert places[root].path + path == path;
  }

  // ---------------------------------------------------------------------
  // Creating one table
  // ---------------------------------------------------------------------

  /** ph1 is ph after the free frame f was zeroed and hung into slot i of t. */
  ghost predicate Grown(ph: Phys, ph1: Phys, t: nat, i: nat, f: nat)
  {
    && |ph1.frames| == |ph.frames| && f < |ph.used| && !ph.used[f]
    && ph1.used == ph.used[f := true]
    && IsTable(ph1, t) && IsTable(ph1, f)
    && (forall j :: 0 <= j < ENTRIES ==> EntryAt(ph1, f, j) == 0)
    && (forall j :: 0 <= j < ENTRIES ==>
          EntryAt(ph1, t, j) == if j == i then f * BLOCK_SIZE + TABLE_FLAGS else EntryAt(ph, t, j))
    && (forall g :: 0 <= g < |ph.frames| && g != t && g != f ==> ph1.frames[g] == ph.frames[g])
  }

  /** Ensure finds the table, creates it, or fails with nothing free. */
  lemma EnsureCases(ph: Phys, places: map<nat, Place>, t: nat, i: nat)
    requires Separated(ph, places) && t in places && |places[t].path| < 3 && i < ENTRIES
    ensures var (ph1, n) := Ensure(ph, t, i);
            if Present(EntryAt(ph, t, i)) then
              ph1 == ph && n == Some(EntryFrame(EntryAt(ph, t, i))) && Linked(ph, places, t, i)
            else if FreeCount(ph.used) == 0 then ph1 == ph && n == None
            else n.Some? && Grown(ph, ph1, t, i, n.value) && FreeCount(ph1.used) == FreeCount(ph.used) - 1
  {
    if !Present(EntryAt(ph, t, i)) {
      AllocCounts(ph.used);
    }
  }

  lemma GrownSeparated(ph: Phys, ph1: Phys, places: map<nat, Place>, t: nat, i: nat, f: nat)
    requires Separated(ph, places) && t in places && |places[t].path| < 3 && i < ENTRIES
    requires Grown(ph, ph1, t, i, f)
    ensures f !in places && Separated(ph1, places[f := Child(places[t], i)])
  {
    var after := places[f := Child(places[t], i)];
    forall u, j | u in after && 0 <= j < ENTRIES && |after[u].path| < 3 && Present(EntryAt(ph1, u, j))
      ensures Linked(ph1, after, u, j)
    {
      if u != t || j != i {
        assert EntryAt(ph1, u, j) == EntryAt(ph, u, j);
        assert Linked(ph, places, u, j);
      }
    }
  }

  /** No translation sees the new table: its entries are all absent. */
  lemma {:induction false} GrownLookup(ph: Phys, ph1: Phys, places: map<nat, Place>, t: nat, i: nat, f: nat,
                                       u: nat, path: seq<nat>)
    requires Separated(ph, places) && t in places && |places[t].path| < 3 && i < ENTRIES
    requires Grown(ph, ph1, t, i, f) && !Present(EntryAt(ph, t, i))
    requires u in places && path != [] && IsPath(path) && |places[u].path| + |path| == 4
    ensures Lookup(ph1, u, path) == Lookup(ph, u, path)
    decreases |path|
  {
    if u == t && path[0] == i {
      FrameOfEntry(f);
      assert Present(EntryAt(ph1, t, i)) && EntryFrame(EntryAt(ph1, t, i)) == f;
      assert Lookup(ph1, f, path[1..]) == None;
    } else {
      assert EntryAt(ph1, u, path[0]) == EntryAt(ph, u, path[0]);
      if |path| > 1 && Present(EntryAt(ph, u, path[0])) {
        assert Linked(ph, places, u, path[0]);
        GrownLookup(ph, ph1, places, t, i, f, EntryFrame(EntryAt(ph, u, path[0])), path[1..]);
      }
    }
  }

  /** path leads from u to slot i of t. */
  predicate IntoSlot(ph: Phys, t: nat, i: nat, u: nat, path: seq<nat>)
  {
    path != [] && path[|path| - 1] == i && Descend(ph, u, path[..|path| - 1]) == Some(t)
  }

  lemma GrownEntry(ph: Phys, ph1: Phys, places: map<nat, Place>, t: nat, i: nat, f: nat, u: nat, j: nat)
    requires Separated(ph, places) && t in places && i < ENTRIES && Grown(ph, ph1, t, i, f)
    requires u in places && j < ENTRIES
    ensures Follow(EntryAt(ph1, u, j)) == if u == t && j == i then Some(f) else Follow(EntryAt(ph, u, j))
  {
  }

  lemma {:induction false} DescendLast(ph: Phys, t: nat, path: seq<nat>)
    requires path != []
    ensures var n := |path| - 1;
            Descend(ph, t, path) == match Descend(ph, t, path[..n])
                                    case None => None
                                    case Some(u) => Follow(EntryAt(ph, u, path[n]))
    decreases |path|
  {
    if |path| > 1 && Present(EntryAt(ph, t, path[0])) {
      DescendLast(ph, EntryFrame(EntryAt(ph, t, path[0])), path[1..]);
      assert path[1..][..|path| - 2] == path[..|path| - 1][1..];
    }
  }

  /** The only walk that got longer is the one into the new table. */
  lemma {:induction false} GrownDescend(ph: Phys, ph1: Phys, places: map<nat, Place>, t: nat, i: nat, f: nat,
                                        u: nat, path: seq<nat>)
    requires Separated(ph, places) && t in places && |places[t].path| < 3 && i < ENTRIES
    requires Grown(ph, ph1, t, i, f) && !Present(EntryAt(ph, t, i))
    requires u in places && IsPath(path) && |places[u].path| + |path| < 4
    ensures Descend(ph1, u, path) == if IntoSlot(ph, t, i, u, path) then Some(f) else Descend(ph, u, path)
    decreases |path|
  {
    if path != [] {
      var n := |path| - 1;
      DescendLast(ph, u, path);
      DescendLast(ph1, u, path);
      GrownDescend(ph, ph1, places, t, i, f, u, path[..n]);
      if IntoSlot(ph, t, i, u, path[..n]) {
        DescendLast(ph, u, path[..n]);
        assert EntryAt(ph1, f, path[n]) == 0;
      } else if Descend(ph, u, path[..n]).Some? {
        DescendArrives(ph, places, u, path[..n]);
        GrownEntry(ph, ph1, places, t, i, f, Descend(ph, u, path[..n]).value, path[n]);
      }
    }
  }

  // ---------------------------------------------------------------------
  // The tables along a whole path
  // ---------------------------------------------------------------------

  /** The places after Populate. */
  ghost function PopulatePlaces(ph: Phys, places: map<nat, Place>, t: nat, path: seq<nat>): map<nat, Place>
    requires |ph.used| == |ph.frames| && IsPath(path)
    decreases |path|
  {
    if path == [] || t !in places || !IsTable(ph, t) then places
    else
      var (ph1, n) := Ensure(ph, t, path[0]);
      if n.None? then places
      else PopulatePlaces(ph1, places[n.value := Child(places[t], path[0])], n.value, path[1..])
  }

  /** What a step of Populate has to work with on the next level. */
  lemma StepDown(ph: Phys, places: map<nat, Place>, t: nat, path: seq<nat>)
    requires Separated(ph, places) && t in places && IsPath(path) && path != []
    requires |places[t].path| + |path| < 4
    ensures var (ph1, n) := Ensure(ph, t, path[0]);
            if n.None? then ph1 == ph
            else
              var after := places[n.value := Child(places[t], path[0])];
              && Separated(ph1, after)
              && (forall u :: u in places ==> u in after && after[u] == places[u])
  {
    EnsureCases(ph, places, t, path[0]);
    var (ph1, n) := Ensure(ph, t, path[0]);
    if Present(EntryAt(ph, t, path[0])) {
      assert places[n.value := Child(places[t], path[0])] == places;
    } else if n.Some? {
      GrownSeparated(ph, ph1, places, t, path[0], n.value);
    }
  }

  lemma {:induction false} PopulateKeepsSeparation(ph: Phys, places: map<nat, Place>, t: nat, path: seq<nat>)
    requires Separated(ph, places) && t in places && IsPath(path)
    requires |places[t].path| + |path| < 4
    ensures var (ph1, r) := Populate(ph, t, path);
            var after := PopulatePlaces(ph, places, t, path);
            Separated(ph1, after) && forall u :: u in places ==> u in after && after[u] == places[u]
    decreases |path|
  {
    if path != [] {
      StepDown(ph, places, t, path);
      var (ph1, n) := Ensure(ph, t, path[0]);
      if n.Some? {
        var after := places[n.value := Child(places[t], path[0])];
        PopulateKeepsSeparation(ph1, after, n.value, path[1..]);
      }
    }
  }

  /** Creating tables changes no translation. */
  lemma {:induction false} PopulateKeepsLookup(ph: Phys, places: map<nat, Place>, t: nat, path: seq<nat>,
                                               u: nat, q: seq<nat>)
    requires Separated(ph, places) && t in places && IsPath(path)
    requires |places[t].path| + |path| < 4
    requires u in places && q != [] && IsPath(q) && |places[u].path| + |q| == 4
    ensures Lookup(Populate(ph, t, path).0, u, q) == Lookup(ph, u, q)
    decreases |path|
  {
    if path != [] {
      EnsureCases(ph, places, t, path[0]);
      StepDown(ph, places, t, path);
      var (ph1, n) := Ensure(ph, t, path[0]);
      if n.Some? {
        if !Present(EntryAt(ph, t, path[0])) {
          GrownLookup(ph, ph1, places, t, path[0], n.value, u, q);
        }
        PopulateKeepsLookup(ph1, places[n.value := Child(places[t], path[0])], n.value, path[1..], u, q);
      }
    }
  }

  lemma {:induction false} NeedBelowZero(ph: Phys, f: nat, path: seq<nat>)
    requires forall j :: 0 <= j < ENTRIES ==> EntryAt(ph, f, j) == 0
    requires IsPath(path)
    ensures Need(ph, f, path) == |path|
  {
  }

  /** Populate succeeds exactly when the missing tables can all be allocated,
      and then takes exactly that many frames; otherwise it uses up the rest. */
  lemma {:induction false} PopulateCounts(ph: Phys, places: map<nat, Place>, t: nat, path: seq<nat>)
    requires Separated(ph, places) && t in places && IsPath(path)
    requires |places[t].path| + |path| < 4
    ensures var (ph1, r) := Populate(ph, t, path);
            && (r.Some? <==> Need(ph, t, path) <= FreeCount(ph.used))
            && FreeCount(ph1.used) == if r.Some? then FreeCount(ph.used) - Need(ph, t, path) else 0
    decreases |path|
  {
    if path != [] {
      EnsureCases(ph, places, t, path[0]);
      StepDown(ph, places, t, path);
      var (ph1, n) := Ensure(ph, t, path[0]);
      if n.Some? {
        PopulateCounts(ph1, places[n.value := Child(places[t], path[0])], n.value, path[1..]);
        if !Present(EntryAt(ph, t, path[0])) {
          NeedBelowZero(ph1, n.value, path[1..]);
        }
      }
    }
  }

  /** Frames in use for data are left alone. */
  lemma {:induction false} PopulateKeepsData(ph: Phys, places: map<nat, Place>, t: nat, path: seq<nat>, g: nat)
    requires Separated(ph, places) && t in places && IsPath(path)
    requires |places[t].path| + |path| < 4
    requires g < |ph.frames| && ph.used[g] && g !in places
    ensures var ph1 := Populate(ph, t, path).0;
            && |ph1.frames| == |ph.frames| && ph1.used[g] && ph1.frames[g] == ph.frames[g]
            && g !in PopulatePlaces(ph, places, t, path)
    decreases |path|
  {
    if path != [] {
      EnsureCases(ph, places, t, path[0]);
      StepDown(ph, places, t, path);
      var (ph1, n) := Ensure(ph, t, path[0]);
      if n.Some? {
        PopulateKeepsData(ph1, places[n.value := Child(places[t], path[0])], n.value, path[1..], g);
      }
    }
  }

  /** path leads from the root at base to slot i of t, so it is base + [i]. */
  lemma IntoSlotPath(ph: Phys, places: map<nat, Place>, root: nat, base: seq<nat>, t: nat, i: nat, q: seq<nat>)
    requires Separated(ph, places) && IsRoot(places, root)
    requires IsPath(base) && |base| < 3 && IsPath(q) && |q| < 4 && Descend(ph, root, base) == Some(t)
    ensures IntoSlot(ph, t, i, root, q) <==> q == base + [i]
  {
    RootArrives(ph, places, root, base);
    if q != [] {
      RootArrives(ph, places, root, q[..|q| - 1]);
      assert q == q[..|q| - 1] + [q[|q| - 1]];
    }
  }

  /** After a successful Populate the tables under the root are the old ones
      and those along the path. */
  lemma {:induction false} PopulateTables(ph: Phys, places: map<nat, Place>, root: nat, base: seq<nat>, t: nat,
                                          path: seq<nat>, q: seq<nat>)
    requires Separated(ph, places) && IsRoot(places, root) && t in places
    requires IsPath(base) && IsPath(path) && |base| + |path| < 4 && IsPath(q) && |q| < 4
    requires Descend(ph, root, base) == Some(t)
    requires Populate(ph, t, path).1.Some?
    ensures var (ph1, r) := Populate(ph, t, path);
            && Descend(ph1, root, base + path) == r
            && (Descend(ph1, root, q).Some? <==> Descend(ph, root, q).Some? || q <= base + path)
    decreases |path|
  {
    RootArrives(ph, places, root, base);
    if path == [] {
      assert base + path == base;
      if q <= base {
        DescendPrefix(ph, root, base, |q|);
        assert base[..|q|] == q;
      }
    } else {
      PopulateTablesStep(ph, places, root, base, t, path, q);
      StepDown(ph, places, t, path);
      var (ph1, n) := Ensure(ph, t, path[0]);
      PopulateTables(ph1, places[n.value := Child(places[t], path[0])], root, base + [path[0]], n.value, path[1..], q);
      PathSplit(base, path);
    }
  }

  lemma PathSplit(base: seq<nat>, path: seq<nat>)
    requires path != []
    ensures base + [path[0]] + path[1..] == base + path
  {
  }

  lemma {:induction false} DescendPrefix(ph: Phys, t: nat, path: seq<nat>, n: nat)
    requires Descend(ph, t, path).Some? && n <= |path|
    ensures Descend(ph, t, path[..n]).Some?
    decreases |path|
  {
    if n < |path| {
      DescendLast(ph, t, path);
      DescendPrefix(ph, t, path[..|path| - 1], n);
      assert path[..|path| - 1][..n] == path[..n];
    } else {
      assert path[..n] == path;
    }
  }

  lemma PopulateTablesStep(ph: Phys, places: map<nat, Place>, root: nat, base: seq<nat>, t: nat,
                           path: seq<nat>, q: seq<nat>)
    requires Separated(ph, places) && IsRoot(places, root) && t in places && |places[t].path| < 3
    requires IsPath(base) && IsPath(path) && |base| < 3 && path != [] && IsPath(q) && |q| < 4
    requires Descend(ph, root, base) == Some(t)
    requires Ensure(ph, t, path[0]).1.Some?
    ensures var (ph1, n) := Ensure(ph, t, path[0]);
            && Descend(ph1, root, base + [path[0]]) == n
            && (Descend(ph1, root, q).Some? <==> Descend(ph, root, q).Some? || q == base + [path[0]])
  {
    EnsureCases(ph, places, t, path[0]);
    var (ph1, n) := Ensure(ph, t, path[0]);
    var down := base + [path[0]];
    assert down[..|base|] == base;
    if Present(EntryAt(ph, t, path[0])) {
      DescendLast(ph, root, down);
    } else {
      GrownDescend(ph, ph1, places, t, path[0], n.value, root, down);
      GrownDescend(ph, ph1, places, t, path[0], n.value, root, q);
      IntoSlotPath(ph, places, root, base, t, path[0], q);
    }
  }
}
