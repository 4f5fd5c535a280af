/** The virtual memory manager as the kernel runs it (src/kernel/vmm.c):
    page tables are written in place, frames come from the allocator. */
module VirtualMemory {
  import opened Options
  import opened Pmm
  import opened Paging
  import opened Mapping
  import opened AddressSpaces
  import opened Identity

  class Vmm {
    const pmm: FrameAllocator
    /** Physical memory, which the kernel reaches directly at every address. */
    const frames: array<Frame>
    var kernelPml4: nat
    var currentPml4: nat

    ghost predicate Valid()
      reads this, pmm
    {
      pmm.Valid() && frames.Length == pmm.totalBlocks
    }

    ghost function View(): (ph: Phys)
      requires Valid()
      reads this, pmm, pmm.bitmap, frames
      ensures |ph.used| == |ph.frames| == frames.Length
    {
      Phys(pmm.Used(), frames[..])
    }

    constructor (pmm: FrameAllocator, frames: array<Frame>)
      requires pmm.Valid() && frames.Length == pmm.totalBlocks
      ensures Valid() && this.pmm == pmm && this.frames == frames && kernelPml4 == 0 && currentPml4 == 0
    {
      this.pmm, this.frames := pmm, frames;
      kernelPml4, currentPml4 := 0, 0;
    }

    /** vmm_switch_pml4, with CR3 kept as a field. */
    method SwitchPml4(pml4: nat)
      modifies this`currentPml4
      ensures currentPml4 == pml4
    {
      currentPml4 := pml4;
    }

    /** One level of vmm_map_page. */
    method EnsureTable(t: nat, i: nat) returns (n: Option<nat>)
      requires Valid() && IsTable(View(), t) && i < ENTRIES
      modifies pmm.bitmap, frames
      ensures Valid() && (View(), n) == Ensure(old(View()), t, i)
    {
      if !Present(frames[t].entries[i]) {
        var p := pmm.AllocBlock();
        if p == 0 {
          return None;
        }
        var f := p / BLOCK_SIZE;
        frames[f] := ZeroTable();
        frames[t] := Table(frames[t].entries[i := p + TABLE_FLAGS]);
        return Some(f);
      }
      n := Some(EntryFrame(frames[t].entries[i]));
    }

    /** The same, with what the next level needs: the tables stay separated
        and the rest of the path is still to be populated. */
    method NextTable(t: nat, i: nat, ghost places: map<nat, Place>, ghost path: seq<nat>)
      returns (n: Option<nat>, ghost after: map<nat, Place>)
      requires Valid() && Separated(View(), places) && t in places
      requires path != [] && IsPath(path) && path[0] == i && |places[t].path| + |path| == 3
      modifies pmm.bitmap, frames
      ensures Valid() && Populate(old(View()), t, path) ==
                         if n.None? then (View(), None) else Populate(View(), n.value, path[1..])
      ensures n.Some? ==> Separated(View(), after) && n.value in after && |after[n.value].path| + |path[1..]| == 3
    {
      StepDown(View(), places, t, path);
      n := EnsureTable(t, i);
      after := if n.Some? then places[n.value := Child(places[t], i)] else places;
    }

    /** Steps 1 to 3 of vmm_map_page: PML4 to PDPT to PD to PT. */
    method FindPageTable(root: nat, path: seq<nat>, ghost places: map<nat, Place>) returns (pt: Option<nat>)
      requires Valid() && Separated(View(), places) && IsRoot(places, root) && |path| == 3 && IsPath(path)
      modifies pmm.bitmap, frames
      ensures Valid() && (View(), pt) == Populate(old(View()), root, path)
      ensures pt.Some? ==> IsTable(View(), pt.value)
    {
      var pdpt, after := NextTable(root, path[0], places, path);
      if pdpt.None? {
        return None;
      }
      var pd;
      pd, after := NextTable(pdpt.value, path[1], after, path[1..]);
      if pd.None? {
        return None;
      }
      pt, after := NextTable(pd.value, path[2], after, path[1..][1..]);
    }

    /** vmm_map_page: the specified update, over tables that stay separated. */
    method MapPage(root: nat, v: nat, paddr: nat, flags: nat, ghost places: map<nat, Place>)
      returns (ghost after: map<nat, Place>)
      requires Valid() && Separated(View(), places) && IsRoot(places, root) && FlagBits(flags)
      modifies pmm.bitmap, frames
      ensures Valid() && View() == Paging.MapPage(old(View()), root, v, paddr, flags)
      ensures after == MapPlaces(old(View()), places, root, PathOf(v))
      ensures Separated(View(), after) && IsRoot(after, root)
    {
      ghost var ph := View();
      var path := PathOf(v);
      var pt := FindPageTable(root, path[..3], places);
      if pt.Some? {
        frames[pt.value] := Table(frames[pt.value].entries[path[3] := MakeEntry(paddr, flags)]);
      }
      MapKeepsSeparation(ph, places, root, path, paddr, flags);
      after := MapPlaces(ph, places, root, path);
    }

    /** A zeroed PML4; the address is not checked, so it may be frame 0. */
    method NewPml4() returns (root: nat)
      requires Valid() && frames.Length > 0
      modifies pmm.bitmap, frames
      ensures Valid() && (View(), root) == NewRoot(old(View()))
    {
      var p := pmm.AllocBlock();
      root := p / BLOCK_SIZE;
      frames[root] := ZeroTable();
    }

    /** The loop of vmm_init, with the states it passes through. */
    method MapIdentity(ghost empty: map<nat, Place>) returns (ghost trace: seq<Phys>)
      requires Valid() && Separated(View(), empty) && IsRoot(empty, kernelPml4)
      modifies pmm.bitmap, frames
      ensures Valid() && |trace| == IDENTITY_PAGES + 1 && InitRun(trace, kernelPml4)
      ensures trace[0] == old(View()) && trace[IDENTITY_PAGES] == View()
    {
      trace := [View()];
      ghost var places := empty;
      for n := 0 to IDENTITY_PAGES
        invariant Valid() && Separated(View(), places) && IsRoot(places, kernelPml4)
        invariant |trace| == n + 1 && trace[0] == old(View()) && trace[n] == View() && InitRun(trace, kernelPml4)
      {
        places := MapPage(kernelPml4, n * BLOCK_SIZE, n * BLOCK_SIZE, TABLE_FLAGS, places);
        assert InitStep(trace[n], View(), kernelPml4, n);
        trace := trace + [View()];
      }
    }

    /** vmm_init: all of 512 MB is mapped to itself exactly when 259 frames
        were free; after that the kernel's space can be shared. */
    method Init()
      requires Valid() && WellFormed(View()) && frames.Length > 0
      modifies this, pmm.bitmap, frames
      ensures Valid() && kernelPml4 == currentPml4
      ensures (forall a: nat :: a < 0x2000_0000 ==> Translate(View(), kernelPml4, a) == Some(a))
              <==> FreeCount(old(View()).used) >= 259
      ensures FreeCount(old(View()).used) >= 259 ==> Consistent(System(View(), kernelPml4, {kernelPml4}))
    {
      ghost var ph := View();
      kernelPml4 := NewPml4();
      NewRootIsEmpty(ph);
      ghost var trace := MapIdentity(map[kernelPml4 := Place(Own(kernelPml4), [])]);
      InitMapsAllExactly(ph, trace);
      if FreeCount(ph.used) >= 259 {
        InitIsConsistent(ph, trace);
      }
      SwitchPml4(kernelPml4);
    }

    /** vmm_create_user_pml4 */
    method CreateUserPml4() returns (pml4: Option<nat>)
      requires Valid() && IsTable(View(), kernelPml4) && WellFormed(View()) && View().used[kernelPml4]
      modifies pmm.bitmap, frames
      ensures Valid() && (View(), pml4) == CreateUser(old(View()), kernelPml4)
    {
      var p := pmm.AllocBlock();
      if p == 0 {
        return None;
      }
      var f := p / BLOCK_SIZE;
      frames[f] := ZeroTable();
      frames[f] := Table(frames[f].entries[0 := frames[kernelPml4].entries[0]]);
      return Some(f);
    }
  }
}
