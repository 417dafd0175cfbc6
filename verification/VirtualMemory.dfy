/** User address spaces over one frame allocator (src/kernel/vmm.c): every frame in use is reserved by the kernel or
    belongs to exactly one mapping of one task. A panic or a failing assertion is a result of false: the system stops there. */
module VirtualMemory {
  import opened Options
  import opened AddressSpaces
  import opened FrameAllocators
  import opened Spaces

  /** The memory map of a task. */
  class TaskMm {
    var areas: seq<Area>
    var pages: map<nat, Page>
    var framesUsed: nat
    var brkStart: nat
    var brk: nat
    /** sbrk never goes below this. */
    var initialBrk: nat
    var guardPage: nat
    /** Still on the path of a program that is loaded below the stack's region and shrinks its heap by no more than its break. */
    ghost var regular: bool

    constructor ()
      ensures areas == [] && pages == map[] && framesUsed == 0 && guardPage == 0
      ensures brkStart == brk == initialBrk == 0 && !regular
    {
      areas, pages, framesUsed, guardPage := [], map[], 0, 0;
      brkStart, brk, initialBrk, regular := 0, 0, 0, false;
    }

    /** The areas, the page map and the count of frames agree. */
    ghost predicate InStep()
      reads this
    {
      MapOk(areas, pages) && framesUsed == |pages| && brk % PAGE == 0 && brk < 0x1_0000_0000
    }

    ghost predicate Ok()
      reads this
    {
      && InStep()
      && (regular ==> StackOk(areas, pages, guardPage) && HeapOk(areas, guardPage, brkStart, brk) && initialBrk <= brkStart)
    }
  }

  /** The tasks' page maps and the owners of frames say the same: no frame is mapped twice. */
  ghost predicate OwnerOk(maps: map<TaskMm, map<nat, Page>>, owner: map<nat, (TaskMm, nat)>) {
    PagesOwned(maps, owner) && OwnersMapped(maps, owner)
  }

  ghost predicate PagesOwned(maps: map<TaskMm, map<nat, Page>>, owner: map<nat, (TaskMm, nat)>) {
    forall mm, a | mm in maps && a in maps[mm] :: maps[mm][a].frame in owner && owner[maps[mm][a].frame] == (mm, a)
  }

  ghost predicate OwnersMapped(maps: map<TaskMm, map<nat, Page>>, owner: map<nat, (TaskMm, nat)>) {
    forall f | f in owner :: owner[f].0 in maps && owner[f].1 in maps[owner[f].0] && maps[owner[f].0][owner[f].1].frame == f
  }

  lemma OwnerMaps(maps: map<TaskMm, map<nat, Page>>, owner: map<nat, (TaskMm, nat)>, mm: TaskMm, a: nat, p: Page,
                  now: map<nat, Page>)
    requires OwnerOk(maps, owner) && mm in maps && a !in maps[mm] && p.frame !in owner && now == maps[mm][a := p]
    ensures OwnerOk(maps[mm := now], owner[p.frame := (mm, a)])
  {
    assert PagesOwned(maps[mm := now], owner[p.frame := (mm, a)]) by {
      hide OwnersMapped;
    }
    assert OwnersMapped(maps[mm := now], owner[p.frame := (mm, a)]) by {
      hide PagesOwned;
    }
    hide PagesOwned, OwnersMapped;
  }

  lemma OwnerUnmaps(maps: map<TaskMm, map<nat, Page>>, owner: map<nat, (TaskMm, nat)>, mm: TaskMm, a: nat,
                    now: map<nat, Page>)
    requires OwnerOk(maps, owner) && mm in maps && a in maps[mm] && now == maps[mm] - {a}
    ensures maps[mm][a].frame in owner && owner[maps[mm][a].frame] == (mm, a)
    ensures OwnerOk(maps[mm := now], owner - {maps[mm][a].frame})
  {
    assert OwnersMapped(maps[mm := now], owner - {maps[mm][a].frame}) by {
      assert OwnersMapped(maps, owner);
    }
    hide OwnersMapped;
  }

  class Machine {
    const pmm: FrameAllocator
    var contents: map<nat, Contents>
    var tasks: set<TaskMm>
    /** The mapping each frame of a task belongs to. */
    ghost var owner: map<nat, (TaskMm, nat)>
    /** Frames of the kernel, and of reserved memory: never mapped in user space. */
    ghost const reserved: set<nat>

    constructor (pmm: FrameAllocator)
      requires pmm.Valid() && 0 in pmm.Used()
      ensures Valid() && this.pmm == pmm && tasks == {} && reserved == pmm.Used()
    {
      this.pmm := pmm;
      contents := map[];
      tasks := {};
      owner := map[];
      reserved := pmm.Used();
    }

    ghost predicate Owned()
      reads this, pmm, pmm.words, tasks`pages
    {
      && pmm.Valid() && 0 in reserved
      && pmm.Used() == reserved + owner.Keys && reserved !! owner.Keys && owner.Keys <= contents.Keys
      && (forall f | f in owner :: f < pmm.Searched()) && OwnerOk(Maps(), owner)
    }

    /** The page maps of all tasks. */
    ghost function Maps(): map<TaskMm, map<nat, Page>>
      reads this`tasks, tasks`pages
    {
      map mm | mm in tasks :: mm.pages
    }

    ghost predicate Valid()
      reads this, pmm, pmm.words, tasks
    {
      Owned() && (forall mm | mm in tasks :: mm.Ok())
    }

    /** Frames that are left to allocate. */
    ghost function FreeCount(): nat
      reads pmm.words
    {
      pmm.FreeCount()
    }

    /** The frames that user space can have. */
    ghost function Capacity(): int {
      pmm.Searched() - |set f | f in reserved && f < pmm.Searched()|
    }

    /** The frames left to allocate are those of them that no task owns. */
    lemma FreeIs()
      requires Owned()
      ensures FreeCount() == Capacity() - |owner|
    {
      hide OwnerOk, HintHolds;
      FreeOthers(pmm.words[..], pmm.Searched(), reserved, owner.Keys);
      assert |owner| == |owner.Keys|;
    }

    /** What a task reads at a page. */
    ghost function View(mm: TaskMm, a: nat): Contents
      requires a in mm.pages && mm.pages[a].frame in contents
      reads this, mm
    {
      contents[mm.pages[a].frame]
    }

    ghost predicate Reads(mm: TaskMm, a: nat, c: Contents)
      reads this, mm
    {
      a in mm.pages && mm.pages[a].frame in contents && View(mm, a) == c
    }

    /** An address space as its task sees it. */
    ghost function SpaceOf(mm: TaskMm): Space
      reads this`contents, mm
    {
      Space(mm.areas, Views(mm.pages, contents), mm.brkStart, mm.brk, mm.initialBrk, mm.guardPage)
    }

    /** One frame is allocated and belongs to no mapping yet. */
    ghost predicate OwnedBut(f: nat)
      reads this, pmm, pmm.words, tasks`pages
    {
      && pmm.Valid() && 0 in reserved
      && pmm.Used() == reserved + owner.Keys + {f} && f !in reserved + owner.Keys
      && reserved !! owner.Keys && owner.Keys <= contents.Keys && f in contents
      && (forall g | g in owner :: g < pmm.Searched()) && f < pmm.Searched() && OwnerOk(Maps(), owner)
    }

    /** pmm_alloc, which clears the frame. */
    method AllocFrame() returns (r: Option<nat>)
      requires Owned()
      modifies this`contents, pmm`lastAllocated, pmm.words
      ensures r.Some? <==> old(FreeCount()) > 0
      ensures r.Some? ==> OwnedBut(r.value) && FreeCount() == old(FreeCount()) - 1
      ensures r.Some? ==> contents == old(contents)[r.value := ZEROS] && r.value !in owner
    {
      hide UsedIn, HintHolds, FreeIn, OwnerOk;
      var address := pmm.Alloc();
      if address.None? {
        return None;
      }
      var frame := address.value / PAGE;
      contents := contents[frame := ZEROS];
      r := Some(frame);
    }

    /** Enters a fresh frame into an empty page table entry. */
    method Enter(mm: TaskMm, a: nat, p: Page)
      requires OwnedBut(p.frame) && mm in tasks && a !in mm.pages
      modifies this`owner, mm`pages
      ensures Owned() && mm.pages == old(mm.pages)[a := p] && owner == old(owner)[p.frame := (mm, a)]
    {
      hide UsedIn, HintHolds, OwnerOk;
      ghost var maps := Maps();
      mm.pages := mm.pages[a := p];
      OwnerMaps(maps, owner, mm, a, p, mm.pages);
      owner := owner[p.frame := (mm, a)];
      assert Maps() == maps[mm := mm.pages];
    }

    /** One round of vmm_alloc_user's loop: a zeroed frame for a page whose entry is empty. */
    method MapPage(mm: TaskMm, a: nat, w: bool) returns (ok: bool)
      requires Owned() && mm in tasks && a % PAGE == 0
      modifies this`contents, this`owner, pmm`lastAllocated, pmm.words, mm`pages, mm`framesUsed
      ensures ok <==> USER_BASE <= a < USER_TOP && a !in old(mm.pages) && old(FreeCount()) > 0
      ensures ok ==> Owned() && FreeCount() == old(FreeCount()) - 1
      ensures ok ==> Kept(old(owner), old(contents), owner, contents)
      ensures ok ==> a in mm.pages && mm.pages == old(mm.pages)[a := Page(mm.pages[a].frame, true, w, false)]
      ensures ok ==> mm.framesUsed == old(mm.framesUsed) + 1 && |mm.pages| == old(|mm.pages|) + 1
      ensures ok ==> mm.pages[a].frame in owner && mm.pages[a].frame in contents && View(mm, a) == ZEROS
    {
      hide UsedIn, HintHolds, FreeIn, OwnerOk;
      var r := AllocFrame();
      if r.None? {
        return false;
      }
      mm.framesUsed := mm.framesUsed + 1;
      if !(USER_BASE <= a < USER_TOP) || a in mm.pages {
        return false;
      }
      Enter(mm, a, Page(r.value, true, w, false));
      ok := true;
    }

    /** What holds for one task whose area list and page map agree, whatever its stack and heap look like. */
    ghost predicate Busy(mm: TaskMm)
      reads this, pmm, pmm.words, tasks, mm
    {
      && Owned() && mm in tasks && mm.InStep()
      && (forall m | m in tasks && m != mm :: m.Ok())
    }

    /** vmm_free: the page's frame goes back to the allocator and the entry is cleared. */
    method UnmapPage(mm: TaskMm, a: nat)
      requires Owned() && mm in tasks && a in mm.pages && mm.pages[a].present == !mm.pages[a].guard
      modifies this`owner, pmm`lastAllocated, pmm.words, mm`pages
      ensures Owned() && mm.pages == old(mm.pages) - {a} && owner == old(owner) - {old(mm.pages[a].frame)}
    {
      hide UsedIn, HintHolds, FreeIn, OwnerOk;
      ghost var maps := Maps();
      var frame := mm.pages[a].frame;
      OwnerUnmaps(maps, owner, mm, a, mm.pages - {a});
      assert frame in pmm.Used();
      var freed := pmm.Free(frame * PAGE);
      mm.pages := mm.pages - {a};
      owner := owner - {frame};
      assert Maps() == maps[mm := mm.pages];
    }

    /** _vmm_store_area. Its panic over overlapping areas cannot happen for pages that were not mapped. */
    method StoreArea(mm: TaskMm, start: nat, end: nat, w: bool) returns (ok: bool)
      requires AreasOk(mm.areas) && Vacant(mm.areas, start, end) && Area(start, end, w).Ok()
      modifies mm`areas
      ensures ok && mm.areas == Stored(old(mm.areas), start, end, w)
    {
      hide AreasOk, Vacant;
      var i := 0;
      while i < |mm.areas|
        invariant i <= |mm.areas| && mm.areas == old(mm.areas)
        invariant forall j | 0 <= j < i :: !Adjoins(mm.areas[j], start, end, w)
      {
        var area := mm.areas[i];
        VacantApart(mm.areas, start, end, i);
        if area.start == end && area.writable == w {
          assert FirstAdjoining(mm.areas, start, end, w) == i;
          mm.areas := mm.areas[i := area.(start := start)];
          return true;
        } else if area.end == start && area.writable == w {
          assert FirstAdjoining(mm.areas, start, end, w) == i;
          mm.areas := mm.areas[i := area.(end := end)];
          return true;
        } else if Clashes(area, start, end) {
          return false;
        }
        i := i + 1;
      }
      assert FirstAdjoining(mm.areas, start, end, w) == i;
      mm.areas := mm.areas + [Area(start, end, w)];
      ok := true;
    }

    /** vmm_alloc_user: fails exactly when the range is empty or not page aligned, leaves user space or touches a mapped
        page, or when there are too few frames. */
    method AllocUser(mm: TaskMm, start: nat, end: nat, w: bool) returns (ok: bool)
      requires Busy(mm)
      modifies this`contents, this`owner, pmm`lastAllocated, pmm.words, mm`pages, mm`framesUsed, mm`areas
      ensures ok <==> CanAlloc(old(mm.pages).Keys, old(FreeCount()), start, end)
      ensures ok ==> Busy(mm) && Kept(old(owner), old(contents), owner, contents) && FreeCount() == old(FreeCount()) - (end - start) / PAGE
      ensures ok ==> mm.areas == Stored(old(mm.areas), start, end, w)
      ensures ok ==> Mapped(old(mm.pages), mm.pages, start, end, w) && Vacant(old(mm.areas), start, end)
      ensures ok <==> Alloc(old(SpaceOf(mm)), old(FreeCount()), start, end, w).Some?
      ensures ok ==> Alloc(old(SpaceOf(mm)), old(FreeCount()), start, end, w) == Some(SpaceOf(mm))
    {
      hide UsedIn, HintHolds, FreeIn, OwnerOk, MapOk, Mapped, Kept, InRange, CanAlloc, Fresh, Views;
      ViewedKeys(mm.pages, contents);
      OwnedFrames(mm);
      PagesAligned(mm.areas, mm.pages);
      AllocChecks(mm.pages, FreeCount(), start, end);
      if !(start < end) || start % PAGE != 0 || end % PAGE != 0 {
        return false;
      }
      ok := MapRange(mm, start, end, w);
      if !ok {
        return;
      }
      MappedStored(mm.areas, old(mm.pages), mm.pages, start, end, w);
      MappedViews(old(mm.pages), mm.pages, old(owner), owner, old(contents), contents, start, end, w);
      ok := StoreArea(mm, start, end, w);
    }

    /** The loop of vmm_alloc_user. */
    method MapRange(mm: TaskMm, start: nat, end: nat, w: bool) returns (ok: bool)
      requires Owned() && mm in tasks && mm.framesUsed == |mm.pages| && start < end && start % PAGE == 0 && end % PAGE == 0
      modifies this`contents, this`owner, pmm`lastAllocated, pmm.words, mm`pages, mm`framesUsed
      ensures ok <==> CanMap(old(mm.pages), start, end) && (end - start) / PAGE <= old(FreeCount())
      ensures ok ==> Owned() && FreeCount() == old(FreeCount()) - (end - start) / PAGE && mm.framesUsed == |mm.pages|
      ensures ok ==> Kept(old(owner), old(contents), owner, contents)
      ensures ok ==> Mapped(old(mm.pages), mm.pages, start, end, w)
      ensures ok ==> forall a | InRange(a, start, end) && a in mm.pages :: mm.pages[a].frame in contents && View(mm, a) == ZEROS
    {
      hide Owned, FreeCount, Mapped, Kept, InRange, CanMap;
      var addr := start;
      KeptSelf(owner, contents);
      MappedStart(mm.pages, start, w);
      while addr < end
        invariant start <= addr <= end && addr % PAGE == 0
        invariant Owned() && FreeCount() == old(FreeCount()) - (addr - start) / PAGE
        invariant Kept(old(owner), old(contents), owner, contents)
        invariant mm.framesUsed == |mm.pages|
        invariant Mapped(old(mm.pages), mm.pages, start, addr, w) && CanMap(old(mm.pages), start, addr)
        invariant forall a | InRange(a, start, addr) && a in mm.pages :: mm.pages[a].frame in owner && mm.pages[a].frame in contents && View(mm, a) == ZEROS
      {
        ghost var o, c, p := owner, contents, mm.pages;
        MappedNext(old(mm.pages), p, start, addr, w);
        ok := MapPage(mm, addr, w);
        CanMapUpTo(old(mm.pages), start, addr, end);
        if !ok {
          return;
        }
        MappedStep(old(mm.pages), p, mm.pages, start, addr, w);
        KeptOn(old(owner), old(contents), o, c, owner, contents);
        forall a | InRange(a, start, addr + PAGE) && a in mm.pages
          ensures mm.pages[a].frame in owner && mm.pages[a].frame in contents && View(mm, a) == ZEROS
        {
          InRangeNext(a, start, addr);
          if a != addr {
            KeptFrame(o, c, owner, contents, p[a].frame);
          }
        }
        addr := addr + PAGE;
      }
      ok := true;
    }

    /** The loop that frees the pages of a range. */
    method UnmapRange(mm: TaskMm, start: nat, end: nat)
      requires Owned() && mm in tasks && start <= end && start % PAGE == 0 && end % PAGE == 0
      requires forall a | InRange(a, start, end) :: a in mm.pages && mm.pages[a].present == !mm.pages[a].guard
      modifies this`owner, pmm`lastAllocated, pmm.words, mm`pages
      ensures Owned() && Unmapped(old(mm.pages), mm.pages, start, end)
    {
      hide Unmapped, Owned;
      UnmappedStart(mm.pages, start);
      var addr := start;
      while addr < end
        invariant start <= addr <= end && addr % PAGE == 0
        invariant Owned() && Unmapped(old(mm.pages), mm.pages, start, addr)
      {
        assert InRange(addr, start, end);
        ghost var p := mm.pages;
        UnmappedNext(old(mm.pages), p, start, addr);
        UnmapPage(mm, addr);
        UnmappedStep(old(mm.pages), p, mm.pages, start, addr);
        addr := addr + PAGE;
      }
    }

    /** The same loop as resizing has it: it also counts the frames. */
    method UnmapCounted(mm: TaskMm, start: nat, end: nat)
      requires Owned() && mm in tasks && start <= end && start % PAGE == 0 && end % PAGE == 0
      requires forall a | InRange(a, start, end) :: a in mm.pages && mm.pages[a].present == !mm.pages[a].guard
      requires mm.framesUsed == |mm.pages|
      modifies this`owner, pmm`lastAllocated, pmm.words, mm`pages, mm`framesUsed
      ensures Owned() && Unmapped(old(mm.pages), mm.pages, start, end) && mm.framesUsed == |mm.pages|
    {
      hide Unmapped, Owned;
      UnmappedStart(mm.pages, start);
      var addr := start;
      while addr < end
        invariant start <= addr <= end && addr % PAGE == 0
        invariant Owned() && Unmapped(old(mm.pages), mm.pages, start, addr) && mm.framesUsed == |mm.pages|
      {
        assert InRange(addr, start, end);
        ghost var p := mm.pages;
        UnmappedNext(old(mm.pages), p, start, addr);
        UnmapPage(mm, addr);
        UnmappedStep(old(mm.pages), p, mm.pages, start, addr);
        mm.framesUsed := mm.framesUsed - 1;
        addr := addr + PAGE;
      }
    }

    /** vmm_resize_area on the area that holds start: longer, shorter, or untouched when there is none. */
    method ResizeArea(mm: TaskMm, start: nat, newEnd: nat) returns (ok: bool)
      requires Busy(mm) && newEnd % PAGE == 0
      modifies this`contents, this`owner, pmm`lastAllocated, pmm.words, mm`pages, mm`framesUsed, mm`areas
      ensures ok <==> Resize(old(SpaceOf(mm)), old(FreeCount()), start, newEnd).Some?
      ensures ok ==> Busy(mm) && Resize(old(SpaceOf(mm)), old(FreeCount()), start, newEnd) == Some(SpaceOf(mm))
      ensures ok ==> newEnd >= U32(start + PAGE)
      ensures ok ==> if Lengthens(old(mm.areas), start, newEnd) then Kept(old(owner), old(contents), owner, contents) else contents == old(contents)
      ensures CanCut(old(mm.areas), start, newEnd) ==> ok
      ensures ok && CanCut(old(mm.areas), start, newEnd) ==>
                var k := AreaAt(old(mm.areas), start);
                && mm.areas == Cut(old(mm.areas), k, newEnd) && !Lengthens(old(mm.areas), start, newEnd)
                && Unmapped(old(mm.pages), mm.pages, newEnd, old(mm.areas)[k].end)
    {
      hide UsedIn, HintHolds, FreeIn, OwnerOk, MapOk, CanAlloc, Kept, Mapped, Unmapped, Vacant, Stored, Views, Without, Fresh, Owned;
      if newEnd < U32(start + PAGE) {
        return false;
      }
      var i := 0;
      while i < |mm.areas|
        invariant i <= |mm.areas| && Busy(mm) && unchanged(this) && unchanged(mm) && unchanged(pmm) && unchanged(pmm.words)
        invariant forall j | 0 <= j < i :: !mm.areas[j].Covers(start) && mm.areas[j].end != newEnd
      {
        var area := mm.areas[i];
        if area.end == newEnd {
          assert EndsUpTo(mm.areas, AreaAt(mm.areas, start), newEnd);
          return false;
        }
        if area.Covers(start) {
          assert AreaAt(mm.areas, start) == i && !EndsUpTo(mm.areas, i, newEnd);
          if newEnd > area.end {
            ok := AllocUser(mm, area.end, newEnd, area.writable);
            return;
          }
          AreasFine(mm.areas, mm.pages);
          ok := Shorten(mm, i, newEnd);
          return;
        }
        i := i + 1;
      }
      assert AreaAt(mm.areas, start) == i && !EndsUpTo(mm.areas, i, newEnd);
      ok := true;
    }

    /** The shrinking branch of vmm_resize_area. */
    method Shorten(mm: TaskMm, i: nat, newEnd: nat) returns (ok: bool)
      requires Busy(mm) && i < |mm.areas| && mm.areas[i].start < newEnd < mm.areas[i].end && newEnd % PAGE == 0
      modifies this`owner, pmm`lastAllocated, pmm.words, mm`pages, mm`framesUsed, mm`areas
      ensures ok && Busy(mm) && mm.areas == Cut(old(mm.areas), i, newEnd)
      ensures Unmapped(old(mm.pages), mm.pages, newEnd, old(mm.areas)[i].end)
      ensures Views(mm.pages, contents) == Without(old(Views(mm.pages, contents)), newEnd, old(mm.areas)[i].end)
    {
      hide Owned, MapOk, Unmapped, Views, Without;
      AreaMapped(mm.areas, mm.pages, i);
      assert mm.areas[i].Ok() by {
        AreasFine(mm.areas, mm.pages);
      }
      UnmapCounted(mm, newEnd, mm.areas[i].end);
      UnmappedCut(mm.areas, old(mm.pages), mm.pages, i, newEnd);
      PagesAligned(mm.areas, old(mm.pages));
      UnmappedViews(old(mm.pages), mm.pages, contents, newEnd, mm.areas[i].end);
      mm.areas := Cut(mm.areas, i, newEnd);
      ok := true;
    }

    /** sbrk: the previous break, or nothing when an assertion fails. The break is page aligned: growing rounds up, shrinking
        rounds the decrement down. All sums are of 32 bits, so a decrement of more than the break makes it wrap around. */
    method Sbrk(mm: TaskMm, delta: int) returns (r: Option<nat>)
      requires Valid() && mm in tasks && -0x8000_0000 <= delta < 0x8000_0000
      modifies this`contents, this`owner, pmm`lastAllocated, pmm.words
      modifies mm`pages, mm`framesUsed, mm`areas, mm`brk, mm`regular
      ensures r.Some? ==> Valid() && r.value == old(mm.brk) && (delta > 0 ==> r.value >= USER_BASE)
      ensures r.Some? <==> Broken(old(SpaceOf(mm)), old(FreeCount()), delta).Some?
      ensures r.Some? ==> Broken(old(SpaceOf(mm)), old(FreeCount()), delta) == Some(SpaceOf(mm))
      ensures r.Some? ==> Kept(old(owner), old(contents), owner, contents) || contents == old(contents)
      ensures r.Some? ==> (mm.regular <==> old(mm.regular) && -delta < old(mm.brk) + PAGE)
      ensures delta == 0 || -PAGE < delta < 0 ==> r.Some? && mm.brk == old(mm.brk) && mm.pages == old(mm.pages) && mm.areas == old(mm.areas)
      ensures old(mm.regular) && delta > 0 ==> (r.Some? <==> CanGrow(old(mm.brk), old(FreeCount()), delta))
      ensures old(mm.regular) && delta > 0 && r.Some? ==>
                && mm.brk == RoundUp(old(mm.brk) + delta) && Mapped(old(mm.pages), mm.pages, old(mm.brk), mm.brk, true)
                && mm.areas == Stored(old(mm.areas), old(mm.brk), mm.brk, true) && Kept(old(owner), old(contents), owner, contents)
      ensures old(mm.regular) && delta <= -PAGE && -delta < old(mm.brk) + PAGE ==>
                (r.Some? <==> old(mm.brk) - RoundDown(-delta) >= mm.brkStart + PAGE)
      ensures old(mm.regular) && delta <= -PAGE && -delta < old(mm.brk) + PAGE && r.Some? ==>
                && mm.brk == old(mm.brk) - RoundDown(-delta) && Unmapped(old(mm.pages), mm.pages, mm.brk, old(mm.brk))
                && contents == old(contents) && CutTo(old(mm.areas), mm.areas, mm.brkStart, mm.brk)
    {
      hide Owned, FreeCount, MapOk, CanAlloc, Kept, Mapped, Unmapped, Vacant, Stored, StackOk, HeapOk, Views, Grow, Shrink, CanGrow, CutTo;
      var prev := mm.brk;
      if delta == 0 {
        return Some(prev);
      }
      if delta > 0 {
        var ok := GrowHeap(mm, delta);
        r := if ok then Some(prev) else None;
      } else if -delta < PAGE {
        r := Some(prev);
      } else {
        var ok := ShrinkHeap(mm, -delta);
        r := if ok then Some(prev) else None;
      }
    }

    method GrowHeap(mm: TaskMm, delta: nat) returns (ok: bool)
      requires Valid() && mm in tasks && 0 < delta < 0x8000_0000
      modifies this`contents, this`owner, pmm`lastAllocated, pmm.words, mm`pages, mm`framesUsed, mm`areas, mm`brk
      ensures ok <==> Grow(old(SpaceOf(mm)), old(FreeCount()), delta).Some?
      ensures ok ==> Grow(old(SpaceOf(mm)), old(FreeCount()), delta) == Some(SpaceOf(mm))
      ensures ok ==> Kept(old(owner), old(contents), owner, contents)
      ensures ok ==> Valid() && old(mm.brk) >= USER_BASE
      ensures mm.regular ==> (ok <==> CanGrow(old(mm.brk), old(FreeCount()), delta))
      ensures mm.regular && ok ==>
                && mm.brk == RoundUp(old(mm.brk) + delta) && Mapped(old(mm.pages), mm.pages, old(mm.brk), mm.brk, true)
                && mm.areas == Stored(old(mm.areas), old(mm.brk), mm.brk, true) && Kept(old(owner), old(contents), owner, contents)
    {
      hide Owned, FreeCount, MapOk, CanAlloc, Kept, Mapped, Unmapped, Vacant, Stored, StackOk, HeapOk, Views, Alloc, Fresh;
      var newEnd := U32(mm.brk + delta);
      if newEnd % PAGE != 0 {
        newEnd := U32(newEnd - newEnd % PAGE + PAGE);
      }
      assert newEnd == GrownBreak(mm.brk, delta);
      hide U32, GrownBreak, CanGrow, RoundUp;
      ghost var areas, pages, frames := mm.areas, mm.pages, FreeCount();
      if mm.regular {
        GrowChecks(areas, pages, mm.guardPage, mm.brkStart, mm.brk, frames, delta);
      }
      if !(newEnd < STACK_FLOOR) {
        return false;
      }
      ok := AllocUser(mm, mm.brk, newEnd, true);
      if !ok {
        return;
      }
      AllocIsAligned(pages, frames, mm.brk, newEnd);
      if mm.regular {
        GrownRegular(areas, pages, mm.pages, mm.guardPage, mm.brkStart, mm.brk, newEnd);
      }
      mm.brk := newEnd;
    }

    method ShrinkHeap(mm: TaskMm, delta: nat) returns (ok: bool)
      requires Valid() && mm in tasks && PAGE <= delta <= 0x8000_0000
      modifies this`contents, this`owner, pmm`lastAllocated, pmm.words
      modifies mm`pages, mm`framesUsed, mm`areas, mm`brk, mm`regular
      ensures ok <==> Shrink(old(SpaceOf(mm)), old(FreeCount()), delta).Some?
      ensures ok ==> Shrink(old(SpaceOf(mm)), old(FreeCount()), delta) == Some(SpaceOf(mm))
      ensures ok ==> Kept(old(owner), old(contents), owner, contents) || contents == old(contents)
      ensures ok ==> Valid() && (mm.regular <==> old(mm.regular) && delta < old(mm.brk) + PAGE)
      ensures old(mm.regular) && delta < old(mm.brk) + PAGE ==>
                (ok <==> old(mm.brk) - RoundDown(delta) >= mm.brkStart + PAGE)
      ensures old(mm.regular) && delta < old(mm.brk) + PAGE && ok ==>
                && mm.brk == old(mm.brk) - RoundDown(delta) && Unmapped(old(mm.pages), mm.pages, mm.brk, old(mm.brk))
                && contents == old(contents) && CutTo(old(mm.areas), mm.areas, mm.brkStart, mm.brk)
    {
      hide Owned, FreeCount, MapOk, CanAlloc, Kept, Mapped, Unmapped, Vacant, Stored, StackOk, HeapOk, CanCut, AreaAt, Views, Resize, Lengthens,
        ShrunkBreak, CutTo;
      var decr := delta - delta % PAGE;
      var newEnd := U32(mm.brk - decr);
      ShrunkTo(mm.brk, delta);
      hide U32, RoundDown;
      ghost var areas, pages, brk := mm.areas, mm.pages, mm.brk;
      mm.regular := mm.regular && decr <= mm.brk;
      if mm.regular {
        ShrinkOutcome(areas, pages, mm.guardPage, mm.brkStart, brk, newEnd);
      }
      if !(newEnd >= mm.initialBrk) {
        return false;
      }
      ok := ResizeArea(mm, mm.brkStart, newEnd);
      if !ok {
        return;
      }
      if mm.regular {
        ShrunkRegular(areas, pages, mm.pages, mm.guardPage, mm.brkStart, brk, newEnd);
      }
      mm.brk := newEnd;
    }

    /** _vmm_set_guard: a page changes between present and guard; false when it was not what it should be. */
    method SetGuard(mm: TaskMm, a: nat, guard: bool) returns (ok: bool)
      requires Owned() && mm in tasks
      modifies mm`pages
      ensures ok <==> a in old(mm.pages) && old(mm.pages[a]).present == guard && old(mm.pages[a]).guard == !guard
      ensures ok ==> Owned() && mm.pages == old(mm.pages)[a := old(mm.pages[a]).(present := !guard, guard := guard)]
      ensures ok <==> Flagged(old(Views(mm.pages, contents)), a, guard).Some?
      ensures ok ==> Flagged(old(Views(mm.pages, contents)), a, guard) == Some(Views(mm.pages, contents))
    {
      hide UsedIn, HintHolds, FreeIn, OwnerOk;
      // an entry that was never set has neither bit
      if a !in mm.pages || mm.pages[a].present != guard || mm.pages[a].guard != !guard {
        return false;
      }
      ghost var maps := Maps();
      FlaggedViews(mm.pages, contents, a, guard);
      hide Views, Flagged;
      mm.pages := mm.pages[a := mm.pages[a].(present := !guard, guard := guard)];
      FlagsOwned(maps, owner, mm, a, mm.pages);
      assert Maps() == maps[mm := mm.pages];
      ok := true;
    }

    /** The guard moves from one page to another. */
    method MoveGuard(mm: TaskMm, from: nat, to: nat) returns (ok: bool, ghost cleared: map<nat, Page>)
      requires Owned() && mm in tasks && MapOk(mm.areas, mm.pages) && from != to
      modifies mm`pages
      ensures ok <==> MovedFlags(old(Views(mm.pages, contents)), from, to).Some?
      ensures ok ==> MovedFlags(old(Views(mm.pages, contents)), from, to) == Some(Views(mm.pages, contents))
      ensures ok ==> Owned() && MapOk(mm.areas, mm.pages) && from in old(mm.pages) && to in cleared
      ensures ok ==> cleared == old(mm.pages)[from := old(mm.pages[from]).(present := true, guard := false)]
      ensures ok ==> mm.pages == cleared[to := cleared[to].(present := false, guard := true)] && |mm.pages| == |old(mm.pages)|
    {
      hide Owned, Grants, AreasOk, Views, Flagged;
      ok := SetGuard(mm, from, false);
      cleared := mm.pages;
      if !ok {
        return;
      }
      ok := SetGuard(mm, to, true);
      if !ok {
        return;
      }
      FlagsMapOk(mm.areas, old(mm.pages), cleared, from);
      FlagsMapOk(mm.areas, cleared, mm.pages, to);
    }

    /** The page fault handler: a fault on the guard page makes the stack grow below it, up to a limit; everything else
        panics. */
    method GrowStack(mm: TaskMm, fault: nat, user: bool) returns (ok: bool)
      requires Valid() && mm in tasks
      modifies this`contents, this`owner, pmm`lastAllocated, pmm.words, mm`pages, mm`framesUsed, mm`areas, mm`guardPage
      ensures ok <==> user && Pushed(old(SpaceOf(mm)), old(FreeCount()), fault).Some?
      ensures ok ==> Valid() && Pushed(old(SpaceOf(mm)), old(FreeCount()), fault) == Some(SpaceOf(mm))
      ensures ok ==> Kept(old(owner), old(contents), owner, contents)
      ensures mm.regular ==> (ok <==> user && old(StackCanGrow(mm.guardPage, FreeCount(), fault)))
      ensures mm.regular && ok ==>
                && mm.guardPage == old(mm.guardPage) - STACK_GROWTH
                && StackGrown(old(mm.pages), mm.pages, old(mm.guardPage))
    {
      hide Owned, FreeCount, MapOk, CanAlloc, Kept, StackOk, HeapOk, StackGrown, Views, PushedTo;
      if mm.regular {
        FlagsSeen(mm.pages, contents);
        StackPushes(mm.areas, mm.pages, SpaceOf(mm), FreeCount());
        StackSums(mm.guardPage);
      }
      StackApart(mm.guardPage);
      hide U32, BelowLimit;
      if !user || !(mm.guardPage <= fault <= mm.guardPage + PAGE) {
        return false;
      }
      var oldSize := U32(STACK_TOP - mm.guardPage - PAGE);
      var newSize := U32(oldSize + STACK_GROWTH);
      if oldSize % PAGE != 0 || newSize % PAGE != 0 || newSize >= STACK_MAX {
        return false;
      }
      var start := U32(STACK_TOP - (newSize + PAGE));
      var end := U32(STACK_TOP - (oldSize + PAGE));
      ok := ExtendStack(mm, start, end);
    }

    /** The handler's steps once the fault is found to be on the guard page and the stack below its limit. */
    method ExtendStack(mm: TaskMm, start: nat, end: nat) returns (ok: bool)
      requires Valid() && mm in tasks && start != end
      requires mm.regular ==> start == mm.guardPage - STACK_GROWTH && end == mm.guardPage && BelowLimit(end)
      modifies this`contents, this`owner, pmm`lastAllocated, pmm.words, mm`pages, mm`framesUsed, mm`areas, mm`guardPage
      ensures ok <==> PushedTo(old(SpaceOf(mm)), old(FreeCount()), start, end).Some?
      ensures ok ==> Valid() && PushedTo(old(SpaceOf(mm)), old(FreeCount()), start, end) == Some(SpaceOf(mm))
      ensures ok ==> Kept(old(owner), old(contents), owner, contents)
      ensures mm.regular && ok ==> mm.guardPage == start && StackGrown(old(mm.pages), mm.pages, end)
    {
      hide Owned, FreeCount, MapOk, CanAlloc, Kept, Mapped, Vacant, Stored, StackOk, HeapOk, StackGrown, Views, Alloc, MovedFlags;
      ghost var areas, pages := mm.areas, mm.pages;
      ok := AllocUser(mm, start, end, true);
      if !ok {
        return;
      }
      ghost var mapped := mm.pages;
      ghost var cleared;
      ok, cleared := MoveGuard(mm, end, start);
      if !ok {
        return;
      }
      if mm.regular {
        GrownStack(areas, pages, mapped, cleared, mm.pages, mm.guardPage, mm.brkStart, mm.brk);
      }
      mm.guardPage := start;
    }

    /** vmm_create_user_mm: an address space with just a stack and its guard page. */
    method CreateUser() returns (r: Option<TaskMm>)
      requires Valid()
      modifies this`contents, this`owner, this`tasks, pmm`lastAllocated, pmm.words
      ensures r.Some? <==> old(FreeCount()) >= STACK_INITIAL / PAGE + 2
      ensures r.Some? ==> Valid() && fresh(r.value) && tasks == old(tasks) + {r.value} && r.value.regular
      ensures r.Some? ==> r.value.areas == [Area(STACK_TOP - STACK_INITIAL - PAGE, STACK_TOP + PAGE, true)]
      ensures r.Some? ==> r.value.brk == r.value.brkStart == r.value.initialBrk == 0
      ensures r.Some? ==> Kept(old(owner), old(contents), owner, contents)
      ensures r.Some? <==> Created(old(FreeCount())).Some?
      ensures r.Some? ==> Created(old(FreeCount())) == Some(SpaceOf(r.value))
    {
      hide Owned, FreeCount, MapOk, CanAlloc, Kept, Mapped, StackOk, HeapOk, Views, Alloc, Flagged, Stored;
      var mm := new TaskMm();
      AddTask(mm);
      NoViews(contents);
      NothingMapped();
      ghost var pages := mm.pages;
      StackAllocates(FreeCount());
      StackCreates(FreeCount());
      var low := STACK_TOP - (STACK_INITIAL + PAGE);
      var ok := AllocUser(mm, low, STACK_TOP + PAGE, true);
      if !ok {
        return None;
      }
      GuardFirst(mm);
      mm.guardPage := low;
      mm.regular := true;
      r := Some(mm);
    }

    /** Sets the guard page of a new stack. */
    method GuardFirst(mm: TaskMm)
      requires Owned() && mm in tasks && MapOk(mm.areas, mm.pages)
      requires Mapped(map[], mm.pages, STACK_TOP - (STACK_INITIAL + PAGE), STACK_TOP + PAGE, true)
      requires mm.areas == Stored([], STACK_TOP - (STACK_INITIAL + PAGE), STACK_TOP + PAGE, true)
      modifies mm`pages
      ensures Owned() && MapOk(mm.areas, mm.pages) && |mm.pages| == |old(mm.pages)|
      ensures mm.areas == [Area(STACK_TOP - STACK_INITIAL - PAGE, STACK_TOP + PAGE, true)]
      ensures StackOk(mm.areas, mm.pages, STACK_TOP - (STACK_INITIAL + PAGE))
      ensures HeapOk(mm.areas, STACK_TOP - (STACK_INITIAL + PAGE), 0, 0)
      ensures Flagged(old(Views(mm.pages, contents)), STACK_LOW, true) == Some(Views(mm.pages, contents))
    {
      hide Owned, MapOk, Mapped, StackOk, HeapOk, Stored, Views, Flagged;
      var low := STACK_TOP - (STACK_INITIAL + PAGE);
      FirstStack(mm.pages);
      ghost var mapped := mm.pages;
      var ok := SetGuard(mm, low, true);
      FlagsMapOk(mm.areas, mapped, mm.pages, low);
      FirstStackGuarded(mapped, mm.pages);
    }

    method AddTask(mm: TaskMm)
      requires Owned() && mm !in tasks && mm.pages == map[]
      modifies this`tasks
      ensures Owned() && tasks == old(tasks) + {mm}
    {
      hide UsedIn, HintHolds, OwnerOk, MapOk, StackOk, HeapOk;
      ghost var maps := Maps();
      OwnerAdds(maps, owner, mm, maps[mm := mm.pages]);
      tasks := tasks + {mm};
      assert Maps() == maps[mm := mm.pages];
      hide Maps;
    }

    /** What the ELF loader does for a segment: the break moves up to the segment's end, then its pages are allocated. */
    method LoadSegment(mm: TaskMm, start: nat, size: nat, w: bool) returns (ok: bool)
      requires Valid() && mm in tasks && start < 0x1_0000_0000 && size < 0x1_0000_0000
      modifies this`contents, this`owner, pmm`lastAllocated, pmm.words
      modifies mm`pages, mm`framesUsed, mm`areas, mm`brk, mm`brkStart, mm`regular
      ensures ok ==> Valid() && (mm.regular <==> old(mm.regular && mm.brk == mm.brkStart) && SegmentEnd(start, size) <= STACK_FLOOR)
      ensures ok ==> Mapped(old(mm.pages), mm.pages, RoundDown(start), SegmentEnd(start, size), w)
      ensures ok ==> Kept(old(owner), old(contents), owner, contents)
      ensures ok <==> Loaded(old(SpaceOf(mm)), old(FreeCount()), start, size, w).Some?
      ensures ok ==> Loaded(old(SpaceOf(mm)), old(FreeCount()), start, size, w) == Some(SpaceOf(mm))
    {
      hide Owned, FreeCount, MapOk, CanAlloc, Kept, Mapped, Vacant, Stored, StackOk, HeapOk, Views, Alloc;
      var low := start - start % PAGE;
      var end := U32(start + size);
      if end % PAGE != 0 {
        end := U32(end - end % PAGE + PAGE);
      }
      assert end == SegmentEnd(start, size) && low == RoundDown(start);
      hide U32, SegmentEnd, RoundDown;
      ghost var areas, pages, brk := mm.areas, mm.pages, mm.brk;
      mm.regular := mm.regular && mm.brk == mm.brkStart && end <= STACK_FLOOR;
      if end > mm.brkStart {
        mm.brkStart := end;
        mm.brk := end;
      }
      ghost var frames := FreeCount();
      ok := AllocUser(mm, low, end, w);
      if !ok {
        return;
      }
      AllocIsAligned(pages, frames, low, end);
      if mm.regular {
        LoadedRegular(areas, pages, mm.pages, mm.guardPage, brk, low, end, w);
      }
    }

    /** The loader's allocations at the break, which move the break up: for the C library's state, where the least break that
        the program can go back to moves along, and later for the arguments, where it stays. */
    method ExtendBreak(mm: TaskMm, size: nat, arguments: bool) returns (ok: bool)
      requires Valid() && mm in tasks && size % PAGE == 0
      modifies this`contents, this`owner, pmm`lastAllocated, pmm.words
      modifies mm`pages, mm`framesUsed, mm`areas, mm`brk, mm`brkStart, mm`initialBrk, mm`regular
      ensures ok <==> Extended(old(SpaceOf(mm)), old(FreeCount()), size, arguments).Some?
      ensures ok ==> Valid() && Extended(old(SpaceOf(mm)), old(FreeCount()), size, arguments) == Some(SpaceOf(mm))
      ensures ok ==> (mm.regular <==> old(mm.regular && mm.brk == mm.brkStart) && mm.brk <= STACK_FLOOR)
      ensures ok ==> Kept(old(owner), old(contents), owner, contents)
    {
      hide Owned, FreeCount, MapOk, CanAlloc, Kept, Mapped, Vacant, Stored, StackOk, HeapOk, Views, Alloc;
      ghost var areas, pages, frames := mm.areas, mm.pages, FreeCount();
      var at := if arguments then mm.brkStart else mm.brk;
      var brk, brkStart := U32(mm.brk + size), U32(mm.brkStart + size);
      AlignedSum(mm.brk, size);
      hide U32;
      ok := AllocUser(mm, at, U32(at + size), true);
      if !ok {
        return;
      }
      AllocIsAligned(pages, frames, at, U32(at + size));
      mm.regular := mm.regular && mm.brk == mm.brkStart && brk <= STACK_FLOOR;
      if mm.regular {
        LoadedRegular(areas, pages, mm.pages, mm.guardPage, mm.brk, mm.brk, brk, true);
      }
      mm.brk := brk;
      mm.brkStart := brkStart;
      if !arguments {
        if mm.brk != mm.brkStart {
          return false;
        }
        mm.initialBrk := mm.brkStart;
      }
    }

    /** vmm_clone_mm: the child's pages are copies on frames of their own. Only the areas and the pages are copied: the
        child's break, its start, its least value and the guard page stay 0. */
    method Clone(parent: TaskMm) returns (r: Option<TaskMm>)
      requires Valid() && parent in tasks
      modifies this`contents, this`owner, this`tasks, pmm`lastAllocated, pmm.words
      ensures r.Some? <==> old(FreeCount()) >= |parent.pages|
      ensures r.Some? ==> Valid() && fresh(r.value) && tasks == old(tasks) + {r.value}
      ensures r.Some? ==> Kept(old(owner), old(contents), owner, contents)
      ensures r.Some? ==> var child := r.value;
                && child.areas == parent.areas && child.pages.Keys == parent.pages.Keys && child.framesUsed == |parent.pages|
                && Copied(parent.pages, child.pages, contents, USER_TOP)
                && child.brk == child.brkStart == child.initialBrk == child.guardPage == 0 && !child.regular
      ensures r.Some? <==> Forked(old(SpaceOf(parent)), old(FreeCount())).Some?
      ensures r.Some? ==> Forked(old(SpaceOf(parent)), old(FreeCount())) == Some(SpaceOf(r.value))
    {
      hide Owned, FreeCount, MapOk, Kept, Copied, StackOk, HeapOk, Views, Forked, Maps;
      OwnedFrames(parent);
      ForkedIs(SpaceOf(parent), FreeCount(), parent.pages, contents);
      var ok, child := CopyOf(parent);
      if !ok {
        return None;
      }
      CopiedAll(parent.areas, parent.pages, child.pages, contents);
      CopiedViews(parent.pages, child.pages, old(owner), owner, old(contents), contents);
      r := Some(child);
    }

    /** A new address space with the areas and, if there are frames enough, the pages of the parent. */
    method CopyOf(parent: TaskMm) returns (ok: bool, child: TaskMm)
      requires Valid() && parent in tasks
      modifies this`contents, this`owner, this`tasks, pmm`lastAllocated, pmm.words
      ensures fresh(child) && tasks == old(tasks) + {child} && child.areas == parent.areas
      ensures child.brk == child.brkStart == child.initialBrk == child.guardPage == 0 && !child.regular
      ensures ok ==> Owned() && child.framesUsed == |child.pages| && Kept(old(owner), old(contents), owner, contents)
      ensures ok ==> Copied(parent.pages, child.pages, contents, USER_TOP)
      ensures if ok then |child.pages| <= old(FreeCount()) else |parent.pages| > old(FreeCount())
    {
      hide Owned, FreeCount, Kept, Copied, MapOk, StackOk, HeapOk, Maps;
      child := new TaskMm();
      AddTask(child);
      child.areas := parent.areas;
      ok := ClonePages(parent, child);
    }

    method ClonePages(parent: TaskMm, child: TaskMm) returns (ok: bool)
      requires Owned() && parent in tasks && child in tasks && parent != child && child.pages == map[] && child.framesUsed == 0
      modifies this`contents, this`owner, pmm`lastAllocated, pmm.words, child`pages, child`framesUsed
      ensures ok ==> Owned() && child.framesUsed == |child.pages| && Kept(old(owner), old(contents), owner, contents)
      ensures ok ==> Copied(parent.pages, child.pages, contents, USER_TOP)
      ensures !ok ==> |parent.pages| > old(FreeCount())
      ensures ok ==> |child.pages| <= old(FreeCount())
    {
      hide Owned, FreeCount, Kept, Copied;
      KeptSelf(owner, contents);
      CopiedStart(parent.pages, contents);
      var addr := USER_BASE;
      while addr < USER_TOP
        invariant USER_BASE <= addr <= USER_TOP && addr % PAGE == 0
        invariant Owned() && child.framesUsed == |child.pages| && FreeCount() == old(FreeCount()) - |child.pages|
        invariant Kept(old(owner), old(contents), owner, contents)
        invariant Copied(parent.pages, child.pages, contents, addr)
      {
        ghost var o, c, p := owner, contents, child.pages;
        CopiedNext(parent.pages, p, contents, addr);
        ok := ClonePage(parent, child, addr);
        if !ok {
          return;
        }
        KeptOn(old(owner), old(contents), o, c, owner, contents);
        addr := addr + PAGE;
      }
      ok := true;
    }

    lemma Recorded()
      requires Owned()
      ensures OwnerOk(Maps(), owner) && pmm.Used() == reserved + owner.Keys && owner.Keys <= contents.Keys
    {
      hide OwnerOk;
    }

    /** The same page maps mean the same owners, and the same frames in use. */
    lemma SameUse(maps: map<TaskMm, map<nat, Page>>, owner: map<nat, (TaskMm, nat)>)
      requires Owned() && Maps() == maps && OwnerOk(maps, owner)
      ensures this.owner == owner && pmm.Used() == reserved + owner.Keys
    {
      hide OwnerOk, UsedIn, HintHolds;
      OwnersDetermined(maps, this.owner, owner);
    }

    lemma OwnedFrames(mm: TaskMm)
      requires Owned() && mm in tasks
      ensures forall a | a in mm.pages :: mm.pages[a].frame in owner && mm.pages[a].frame in contents && mm.pages[a].frame != 0
      ensures forall a | a in mm.pages :: owner[mm.pages[a].frame] == (mm, a)
    {
      hide UsedIn, HintHolds, OwnerOk;
      OwnedPages(Maps(), owner, mm, mm.pages);
    }

    /** copy_page_physical into a frame that is not mapped yet. */
    method CopyFrame(from: nat, to: nat)
      requires OwnedBut(to) && from in contents
      modifies this`contents
      ensures OwnedBut(to) && contents == old(contents)[to := old(contents)[from]]
    {
      hide UsedIn, HintHolds, OwnerOk;
      contents := contents[to := contents[from]];
    }

    /** One page of a clone, if the parent has it. */
    method ClonePage(parent: TaskMm, child: TaskMm, addr: nat) returns (ok: bool)
      requires Owned() && parent in tasks && child in tasks && parent != child && addr !in child.pages
      requires Copied(parent.pages, child.pages, contents, addr) && addr >= USER_BASE && addr % PAGE == 0 && child.framesUsed == |child.pages|
      modifies this`contents, this`owner, pmm`lastAllocated, pmm.words, child`pages, child`framesUsed
      ensures !ok ==> addr in parent.pages && old(FreeCount()) == 0
      ensures ok ==> Owned() && child.framesUsed == |child.pages|
      ensures ok ==> FreeCount() + |child.pages| == old(FreeCount() + |child.pages|)
      ensures ok ==> Kept(old(owner), old(contents), owner, contents)
      ensures ok ==> Copied(parent.pages, child.pages, contents, addr + PAGE)
    {
      hide Owned, OwnedBut, FreeCount, Copied, Kept;
      OwnedFrames(parent);
      OwnedFrames(child);
      KeptSelf(owner, contents);
      if addr in parent.pages && parent.pages[addr].frame != 0 {
        var frame := AllocFrame();
        if frame.None? {
          return false;
        }
        child.framesUsed := child.framesUsed + 1;
        CopyFrame(parent.pages[addr].frame, frame.value);
        KeptFresh(old(owner), old(contents), frame.value, (child, addr), contents[frame.value]);
        assert contents == old(contents)[frame.value := contents[frame.value]];
        Enter(child, addr, parent.pages[addr].(frame := frame.value));
        CopiedStep(parent.pages, old(child.pages), child.pages, old(contents), contents, addr, frame.value);
      } else {
        CopiedSkip(parent.pages, child.pages, contents, addr);
      }
      ok := true;
    }

    /** vmm_destroy_task_mm: every page of every area is freed, and nothing else. It cannot fail. */
    method Destroy(mm: TaskMm)
      requires Valid() && mm in tasks
      modifies this`owner, this`tasks, pmm`lastAllocated, pmm.words, mm`pages
      ensures Valid() && tasks == old(tasks) - {mm}
      ensures owner == OwnersBut(old(owner), mm) && contents == old(contents)
    {
      hide FreeCount, MapOk, StackOk, HeapOk, UsedIn, HintHolds, OwnerOk, Freed, OwnersBut;
      ghost var maps, owners := Maps(), owner;
      UnmapAreas(mm);
      FreedAll(mm.areas, old(mm.pages), mm.pages);
      assert Maps() == maps[mm := map[]];
      OwnerDrops(maps, owners, owner, mm);
      DropTask(mm);
    }

    method DropTask(mm: TaskMm)
      requires Owned() && mm in tasks && mm.pages == map[]
      modifies this`tasks
      ensures Owned() && tasks == old(tasks) - {mm}
    {
      hide UsedIn, HintHolds, OwnerOk;
      ghost var maps := Maps();
      assert maps[mm := map[]] == maps;
      OwnerDrops(maps, owner, owner, mm);
      tasks := tasks - {mm};
      assert Maps() == maps - {mm};
      hide Maps;
    }

    method UnmapAreas(mm: TaskMm)
      requires Owned() && mm in tasks && MapOk(mm.areas, mm.pages)
      modifies this`owner, pmm`lastAllocated, pmm.words, mm`pages
      ensures Owned() && Freed(mm.areas, old(mm.pages), mm.pages, |mm.areas|)
      ensures forall m | m in tasks && m != mm :: m.pages == old(m.pages)
    {
      hide Owned, Freed, MapOk, Unmapped;
      FreedNone(mm.areas, mm.pages);
      AreasFine(mm.areas, mm.pages);
      var i := 0;
      while i < |mm.areas|
        invariant i <= |mm.areas| && Owned() && Freed(mm.areas, old(mm.pages), mm.pages, i)
      {
        var area := mm.areas[i];
        ghost var p := mm.pages;
        FreedNext(mm.areas, old(mm.pages), p, i);
        UnmapRange(mm, area.start, area.end);
        FreedStep(mm.areas, old(mm.pages), p, mm.pages, i);
        i := i + 1;
      }
    }

    /** A task's write to one of its pages: possible when the page is present and writable. Nobody else sees it. */
    method Store(mm: TaskMm, a: nat, c: Contents) returns (ok: bool)
      requires Valid() && mm in tasks
      modifies this`contents
      ensures Valid() && (ok <==> a in mm.pages && mm.pages[a].present && mm.pages[a].rw)
      ensures forall m | m in tasks :: SpaceOf(m) == if m == mm then Written(old(SpaceOf(m)), a, c) else old(SpaceOf(m))
      ensures contents.Keys == old(contents.Keys)
    {
      hide Owned, MapOk, StackOk, HeapOk, Views, OwnerOk;
      Recorded();
      OwnedFrames(mm);
      ViewedAt(mm.pages, contents, a);
      ghost var maps := Maps();
      StoreViews(maps, owner, contents, mm, a, c);
      ok := a in mm.pages && mm.pages[a].present && mm.pages[a].rw;
      if ok {
        WriteFrame(mm.pages[a].frame, c);
      }
      forall m | m in tasks
        ensures SpaceOf(m) == if m == mm then Written(old(SpaceOf(m)), a, c) else old(SpaceOf(m))
      {
        assert maps[m] == m.pages;
      }
    }

    method WriteFrame(f: nat, c: Contents)
      requires Owned() && f in contents
      modifies this`contents
      ensures Owned() && contents == old(contents)[f := c]
    {
      hide UsedIn, HintHolds, OwnerOk;
      contents := contents[f := c];
    }
  }

  /** No frame that had an owner has lost it or changed its contents. */
  ghost predicate Kept(owner: map<nat, (TaskMm, nat)>, contents: map<nat, Contents>, owner': map<nat, (TaskMm, nat)>,
                       contents': map<nat, Contents>)
  {
    forall f | f in owner && f in contents :: f in owner' && owner'[f] == owner[f] && f in contents' && contents'[f] == contents[f]
  }

  lemma FreeOthers(words: seq<bv32>, n: nat, reserved: set<nat>, owned: set<nat>)
    requires n <= 32 * |words| && UsedIn(words) == reserved + owned && reserved !! owned && forall f | f in owned :: f < n
    ensures |FreeIn(words, n)| == n - |set f | f in reserved && f < n| - |owned|
  {
    hide BitAt;
    var all, kept := FramesBelow(n), set f | f in reserved && f < n;
    assert all == FreeIn(words, n) + kept + owned;
  }

  ghost function FramesBelow(n: nat): (r: set<nat>)
    ensures |r| == n && forall f: nat :: f in r <==> f < n
  {
    if n == 0 then {} else FramesBelow(n - 1) + {n - 1}
  }

  lemma KeptSelf(owner: map<nat, (TaskMm, nat)>, contents: map<nat, Contents>)
    ensures Kept(owner, contents, owner, contents)
  {
  }

  lemma KeptOn(o0: map<nat, (TaskMm, nat)>, c0: map<nat, Contents>, o1: map<nat, (TaskMm, nat)>, c1: map<nat, Contents>,
               o2: map<nat, (TaskMm, nat)>, c2: map<nat, Contents>)
    requires Kept(o0, c0, o1, c1) && Kept(o1, c1, o2, c2)
    ensures Kept(o0, c0, o2, c2)
  {
  }

  /** The pages of a range are gone, the rest is as it was. */
  ghost predicate Unmapped(was: map<nat, Page>, now: map<nat, Page>, start: nat, end: nat) {
    && (forall a: nat :: a in now <==> a in was && !InRange(a, start, end))
    && (forall a | a in now :: now[a] == was[a])
  }

  /** Resizing finds an area to cut short, and no area before it ends where it is to end. */
  ghost predicate CanCut(areas: seq<Area>, start: nat, newEnd: nat) {
    var k := AreaAt(areas, start);
    && k < |areas| && U32(start + PAGE) <= newEnd && start < newEnd < areas[k].end
    && (forall i | 0 <= i < k :: areas[i].end != newEnd)
  }

  /** Resizing finds an area to make longer. */
  ghost predicate Lengthens(areas: seq<Area>, start: nat, newEnd: nat) {
    var k := AreaAt(areas, start);
    k < |areas| && newEnd > areas[k].end
  }

  lemma UnmappedViews(was: map<nat, Page>, now: map<nat, Page>, c: map<nat, Contents>, start: nat, end: nat)
    requires Unmapped(was, now, start, end) && forall a | a in was :: a % PAGE == 0
    ensures Views(now, c) == Without(Views(was, c), start, end)
  {
  }

  lemma AreasFine(areas: seq<Area>, pages: map<nat, Page>)
    requires MapOk(areas, pages)
    ensures AreasOk(areas)
  {
  }

  lemma AreaMapped(areas: seq<Area>, pages: map<nat, Page>, i: nat)
    requires MapOk(areas, pages) && i < |areas|
    ensures forall a | InRange(a, areas[i].start, areas[i].end) :: a in pages && pages[a].present == !pages[a].guard
  {
    forall a: nat | InRange(a, areas[i].start, areas[i].end)
      ensures a in pages
    {
      assert areas[i].Covers(a);
      MappedIsCovered(areas, pages, a);
    }
  }

  lemma UnmappedCut(areas: seq<Area>, was: map<nat, Page>, now: map<nat, Page>, i: nat, newEnd: nat)
    requires MapOk(areas, was) && i < |areas| && areas[i].start < newEnd <= areas[i].end && newEnd % PAGE == 0
    requires Unmapped(was, now, newEnd, areas[i].end)
    ensures MapOk(Cut(areas, i, newEnd), now)
  {
    CutMaps(areas, was, Cut(areas, i, newEnd), now, i, newEnd);
  }

  /** The heap of a regular task can grow exactly when it stays below the stack's region and there are frames for it. */
  predicate CanGrow(brk: nat, frames: nat, delta: nat) {
    USER_BASE <= brk && RoundUp(brk + delta) < STACK_FLOOR && (RoundUp(brk + delta) - brk) / PAGE <= frames
  }

  ghost predicate CutTo(was: seq<Area>, now: seq<Area>, start: nat, end: nat) {
    var k := AreaAt(was, start);
    k < |was| && now == Cut(was, k, end)
  }

  /** The owners left when a task's mappings go. */
  ghost function OwnersBut(owner: map<nat, (TaskMm, nat)>, mm: TaskMm): map<nat, (TaskMm, nat)> {
    map f | f in owner && owner[f].0 != mm :: owner[f]
  }

  /** The pages of the first n areas are gone. */
  ghost predicate Freed(areas: seq<Area>, was: map<nat, Page>, now: map<nat, Page>, n: nat)
    requires n <= |areas|
  {
    && (forall a: nat :: a in now <==> a in was && !Covered(areas[..n], a))
    && (forall a | a in now :: now[a] == was[a])
  }

  /** The child has the parent's pages below an address, with the same flags and the same bytes in other frames. */
  ghost predicate Copied(parent: map<nat, Page>, child: map<nat, Page>, contents: map<nat, Contents>, top: nat) {
    && (forall a: nat :: a in child <==> a in parent && USER_BASE <= a < top && a % PAGE == 0)
    && (forall a | a in child :: child[a] == parent[a].(frame := child[a].frame) && child[a].frame != parent[a].frame)
    && (forall a | a in child :: child[a].frame in contents && parent[a].frame in contents
                                 && contents[child[a].frame] == contents[parent[a].frame])
  }

  /** The stack can grow once more without reaching its limit. */
  predicate BelowLimit(guardPage: nat) {
    STACK_TOP - guardPage - PAGE + STACK_GROWTH < STACK_MAX
  }

  /** The stack of a regular task grows exactly on a fault in the guard page (or on the first byte above it), below the
      limit, while there are frames. */
  predicate StackCanGrow(guardPage: nat, frames: nat, fault: nat) {
    guardPage <= fault <= guardPage + PAGE && BelowLimit(guardPage) && STACK_GROWTH / PAGE <= frames
  }

  /** The new pages below the old guard page are present except the lowest, the old guard page is present, and nothing else
      has changed. */
  ghost predicate StackGrown(was: map<nat, Page>, now: map<nat, Page>, guardPage: nat) {
    var low: int := guardPage - STACK_GROWTH;
    && low >= 0
    && (forall a: nat :: a in now <==> a in was || InRange(a, low, guardPage))
    && (forall a | a in was :: now[a] == if a == guardPage then was[a].(present := true, guard := false) else was[a])
    && (forall a | a in now && a !in was :: now[a] == Page(now[a].frame, a != low, true, a == low))
  }

  lemma KeptContents(o: map<nat, (TaskMm, nat)>, c: map<nat, Contents>, o': map<nat, (TaskMm, nat)>, c': map<nat, Contents>)
    requires Kept(o, c, o', c')
    ensures Kept(o, c, o, c')
  {
  }

  ghost predicate CanMap(pages: map<nat, Page>, start: nat, end: nat) {
    forall a: nat | InRange(a, start, end) :: USER_BASE <= a < USER_TOP && a !in pages
  }

  /** Fresh pages fill the range, everything else is as it was. */
  ghost predicate Mapped(was: map<nat, Page>, now: map<nat, Page>, start: nat, end: nat, w: bool) {
    && (forall a: nat :: a in now <==> a in was || InRange(a, start, end))
    && (forall a | a in was :: now[a] == was[a])
    && (forall a | InRange(a, start, end) :: now[a] == Page(now[a].frame, true, w, false))
  }

  lemma ViewedKeys(pages: map<nat, Page>, contents: map<nat, Contents>)
    ensures Views(pages, contents).Keys == pages.Keys
  {
  }

  lemma FlagsSeen(pages: map<nat, Page>, c: map<nat, Contents>)
    ensures Views(pages, c).Keys == pages.Keys
    ensures forall a | a in pages :: Views(pages, c)[a].present == pages[a].present && Views(pages, c)[a].guard == pages[a].guard
  {
  }

  lemma FlaggedViews(pages: map<nat, Page>, c: map<nat, Contents>, a: nat, guard: bool)
    requires a in pages && pages[a].present == guard && pages[a].guard == !guard
    ensures Flagged(Views(pages, c), a, guard) == Some(Views(pages[a := pages[a].(present := !guard, guard := guard)], c))
  {
    var p := pages[a].(present := !guard, guard := guard);
    assert Views(pages[a := p], c) == Views(pages, c)[a := ViewOf(p, c)];
  }

  /** What is seen of the old pages stays, and the new ones are zero. */
  lemma MappedViews(was: map<nat, Page>, now: map<nat, Page>, o: map<nat, (TaskMm, nat)>, o': map<nat, (TaskMm, nat)>,
                    c: map<nat, Contents>, c': map<nat, Contents>, start: nat, end: nat, w: bool)
    requires Mapped(was, now, start, end, w) && CanMap(was, start, end) && Kept(o, c, o', c')
    requires forall a | a in was :: was[a].frame in o && was[a].frame in c
    requires forall a | InRange(a, start, end) && a in now :: now[a].frame in c' && c'[now[a].frame] == ZEROS
    ensures Views(now, c') == Views(was, c) + Fresh(start, end, w)
  {
  }

  lemma ViewedAt(pages: map<nat, Page>, c: map<nat, Contents>, a: nat)
    ensures a in Views(pages, c) <==> a in pages
    ensures a in pages ==> Views(pages, c)[a].present == pages[a].present && Views(pages, c)[a].rw == pages[a].rw
    ensures a in pages && pages[a].frame in c ==> Views(pages, c)[a].bytes == c[pages[a].frame]
  {
  }

  /** A write through one page is seen there and nowhere else. */
  lemma StoreViews(maps: map<TaskMm, map<nat, Page>>, o: map<nat, (TaskMm, nat)>, c: map<nat, Contents>, mm: TaskMm, a: nat, bytes: Contents)
    requires OwnerOk(maps, o) && o.Keys <= c.Keys && mm in maps
    ensures a in maps[mm] && maps[mm][a].present && maps[mm][a].rw ==>
              var c' := c[maps[mm][a].frame := bytes];
              && Views(maps[mm], c') == Views(maps[mm], c)[a := Views(maps[mm], c)[a].(bytes := bytes)]
              && forall m | m in maps && m != mm :: Views(maps[m], c') == Views(maps[m], c)
  {
    if a in maps[mm] {
      var c' := c[maps[mm][a].frame := bytes];
      assert Views(maps[mm], c') == Views(maps[mm], c)[a := Views(maps[mm], c)[a].(bytes := bytes)];
      forall m | m in maps && m != mm
        ensures Views(maps[m], c') == Views(maps[m], c)
      {
        OwnedPages(maps, o, m, maps[m]);
      }
    }
  }

  lemma KeptViews(maps: map<TaskMm, map<nat, Page>>, o: map<nat, (TaskMm, nat)>, o': map<nat, (TaskMm, nat)>,
                  c: map<nat, Contents>, c': map<nat, Contents>)
    requires OwnerOk(maps, o) && o.Keys <= c.Keys && Kept(o, c, o', c')
    ensures forall m | m in maps :: Views(maps[m], c') == Views(maps[m], c)
  {
    forall m | m in maps
      ensures Views(maps[m], c') == Views(maps[m], c)
    {
      OwnedPages(maps, o, m, maps[m]);
    }
  }

  lemma MappedStart(pages: map<nat, Page>, start: nat, w: bool)
    ensures Mapped(pages, pages, start, start, w) && CanMap(pages, start, start)
  {
  }

  lemma MappedNext(was: map<nat, Page>, now: map<nat, Page>, start: nat, addr: nat, w: bool)
    requires Mapped(was, now, start, addr, w)
    ensures addr in now <==> addr in was
  {
  }

  lemma MappedStep(was: map<nat, Page>, mid: map<nat, Page>, now: map<nat, Page>, start: nat, addr: nat, w: bool)
    requires Mapped(was, mid, start, addr, w) && CanMap(was, start, addr) && start <= addr && addr % PAGE == 0 && start % PAGE == 0
    requires addr !in mid && USER_BASE <= addr < USER_TOP && addr in now && now == mid[addr := Page(now[addr].frame, true, w, false)]
    ensures Mapped(was, now, start, addr + PAGE, w) && CanMap(was, start, addr + PAGE)
  {
  }

  lemma CanMapUpTo(pages: map<nat, Page>, start: nat, addr: nat, end: nat)
    requires start <= addr < end && addr % PAGE == 0
    ensures CanMap(pages, start, end) ==> USER_BASE <= addr < USER_TOP && addr !in pages
  {
    assert InRange(addr, start, end);
  }

  lemma InRangeNext(a: nat, start: nat, addr: nat)
    requires InRange(a, start, addr + PAGE) && addr % PAGE == 0
    ensures InRange(a, start, addr) || a == addr
  {
  }

  lemma AllocChecks(pages: map<nat, Page>, frames: nat, start: nat, end: nat)
    ensures CanAlloc(pages.Keys, frames, start, end) ==> CanMap(pages, start, end)
    ensures CanAlloc(pages.Keys, frames, start, end) ==> start < end && start % PAGE == 0 && end % PAGE == 0 && (end - start) / PAGE <= frames
    ensures (forall a | a in pages :: a % PAGE == 0) ==>
              CanAlloc(pages.Keys, frames, start, end)
              == (start < end && start % PAGE == 0 && end % PAGE == 0 && CanMap(pages, start, end) && (end - start) / PAGE <= frames)
  {
    if start < end && start % PAGE == 0 && end % PAGE == 0 {
      assert InRange(start, start, end) && InRange(end - PAGE, start, end);
    }
  }

  lemma KeptFrame(owner: map<nat, (TaskMm, nat)>, contents: map<nat, Contents>, owner': map<nat, (TaskMm, nat)>,
                  contents': map<nat, Contents>, f: nat)
    requires Kept(owner, contents, owner', contents') && f in owner && f in contents
    ensures f in owner' && owner'[f] == owner[f] && f in contents' && contents'[f] == contents[f]
  {
  }

  lemma MappedStored(areas: seq<Area>, was: map<nat, Page>, now: map<nat, Page>, start: nat, end: nat, w: bool)
    requires MapOk(areas, was) && Mapped(was, now, start, end, w) && CanMap(was, start, end)
    requires start < end && start % PAGE == 0 && end % PAGE == 0
    ensures AreasOk(areas) && Vacant(areas, start, end) && Area(start, end, w).Ok()
    ensures MapOk(Stored(areas, start, end, w), now)
  {
    assert InRange(start, start, end) && InRange(end - PAGE, start, end);
    hide AreasOk, Grants, Stored, Vacant;
    StoredMaps(areas, was, now, start, end, w);
  }

  lemma PagesAligned(areas: seq<Area>, pages: map<nat, Page>)
    requires MapOk(areas, pages)
    ensures forall a | a in pages :: a % PAGE == 0
  {
  }

  lemma AllocIsAligned(pages: map<nat, Page>, frames: nat, start: nat, end: nat)
    requires CanAlloc(pages.Keys, frames, start, end)
    ensures USER_BASE <= start < end && end % PAGE == 0
  {
  }

  lemma HeapBounds(areas: seq<Area>, guardPage: nat, brkStart: nat, brk: nat)
    requires HeapOk(areas, guardPage, brkStart, brk)
    ensures brkStart <= brk <= STACK_FLOOR && brkStart % PAGE == 0
  {
  }

  /** In a regular task nothing is mapped between the break and the stack. */
  lemma AboveBreak(areas: seq<Area>, pages: map<nat, Page>, guardPage: nat, brkStart: nat, brk: nat, a: nat)
    requires MapOk(areas, pages) && StackOk(areas, pages, guardPage) && HeapOk(areas, guardPage, brkStart, brk)
    requires a in pages
    ensures a < brk || a >= guardPage > STACK_FLOOR
  {
    MappedIsCovered(areas, pages, a);
    var i :| 0 <= i < |areas| && areas[i].Covers(a);
  }

  /** What sbrk computes in 32 bits, and what vmm_alloc_user checks, amount to CanGrow. */
  lemma GrowChecks(areas: seq<Area>, pages: map<nat, Page>, guardPage: nat, brkStart: nat, brk: nat, frames: nat, delta: nat)
    requires MapOk(areas, pages) && StackOk(areas, pages, guardPage) && HeapOk(areas, guardPage, brkStart, brk)
    requires 0 < delta < 0x8000_0000
    ensures var newEnd := GrownBreak(brk, delta);
            && (newEnd < STACK_FLOOR && CanAlloc(pages.Keys, frames, brk, newEnd) <==> CanGrow(brk, frames, delta))
            && (CanGrow(brk, frames, delta) ==> newEnd == RoundUp(brk + delta))
  {
    forall a | a in pages
      ensures a < brk || a >= guardPage > STACK_FLOOR
    {
      AboveBreak(areas, pages, guardPage, brkStart, brk, a);
    }
    HeapBounds(areas, guardPage, brkStart, brk);
    hide MapOk, StackOk;
    assert brk % PAGE == 0;
    hide HeapOk;
  }

  lemma GrownRegular(areas: seq<Area>, was: map<nat, Page>, now: map<nat, Page>, guardPage: nat, brkStart: nat, brk: nat, newEnd: nat)
    requires MapOk(areas, was) && StackOk(areas, was, guardPage) && HeapOk(areas, guardPage, brkStart, brk)
    requires brk < newEnd <= STACK_FLOOR && newEnd % PAGE == 0 && Mapped(was, now, brk, newEnd, true)
    ensures StackOk(Stored(areas, brk, newEnd, true), now, guardPage)
    ensures HeapOk(Stored(areas, brk, newEnd, true), guardPage, brkStart, newEnd)
  {
    hide Stored;
    AreasFine(areas, was);
    hide AreasOk, Grants;
    assert forall a | a in now :: now[a].guard <==> a == guardPage;
    StackStays(areas, was, now, guardPage, brk, newEnd, true);
    HeapGrows(areas, guardPage, brkStart, brk, newEnd);
  }

  lemma ShrinkChecks(areas: seq<Area>, pages: map<nat, Page>, guardPage: nat, brkStart: nat, brk: nat, newEnd: nat)
    requires MapOk(areas, pages) && StackOk(areas, pages, guardPage) && HeapOk(areas, guardPage, brkStart, brk)
    requires brkStart + PAGE <= newEnd < brk && newEnd % PAGE == 0
    ensures CanCut(areas, brkStart, newEnd) && areas[AreaAt(areas, brkStart)].end == brk
  {
    AreasFine(areas, pages);
    HeapShrinks(areas, guardPage, brkStart, brk, newEnd);
  }

  /** The new end of the heap, in 32 bits. */
  lemma ShrunkTo(brk: nat, delta: nat)
    requires brk % PAGE == 0 && brk < 0x1_0000_0000 && PAGE <= delta <= 0x8000_0000
    ensures var decr := delta - delta % PAGE;
            && ShrunkBreak(brk, delta) == U32(brk - decr) && ShrunkBreak(brk, delta) % PAGE == 0 && decr == RoundDown(delta) >= PAGE
            && (decr <= brk ==> ShrunkBreak(brk, delta) == brk - decr) && (decr <= brk <==> delta < brk + PAGE)
  {
  }

  /** A regular task's heap can be cut exactly down to a page above its start. */
  lemma ShrinkOutcome(areas: seq<Area>, pages: map<nat, Page>, guardPage: nat, brkStart: nat, brk: nat, newEnd: nat)
    requires MapOk(areas, pages) && StackOk(areas, pages, guardPage) && HeapOk(areas, guardPage, brkStart, brk)
    requires newEnd < brk && newEnd % PAGE == 0
    ensures U32(brkStart + PAGE) == brkStart + PAGE
    ensures newEnd >= brkStart + PAGE ==>
              CanCut(areas, brkStart, newEnd) && areas[AreaAt(areas, brkStart)].end == brk && CutTo(areas, Cut(areas, AreaAt(areas, brkStart), newEnd), brkStart, newEnd)
  {
    HeapBounds(areas, guardPage, brkStart, brk);
    if newEnd >= brkStart + PAGE {
      ShrinkChecks(areas, pages, guardPage, brkStart, brk, newEnd);
    }
  }

  lemma ShrunkRegular(areas: seq<Area>, was: map<nat, Page>, now: map<nat, Page>, guardPage: nat, brkStart: nat, brk: nat, newEnd: nat)
    requires MapOk(areas, was) && StackOk(areas, was, guardPage) && HeapOk(areas, guardPage, brkStart, brk)
    requires brkStart + PAGE <= newEnd < brk && newEnd % PAGE == 0 && Unmapped(was, now, newEnd, brk)
    ensures var k := AreaAt(areas, brkStart);
            && k < |areas| && StackOk(Cut(areas, k, newEnd), now, guardPage)
            && HeapOk(Cut(areas, k, newEnd), guardPage, brkStart, newEnd)
  {
    AreasFine(areas, was);
    HeapShrinks(areas, guardPage, brkStart, brk, newEnd);
    hide AreasOk, Grants, MapOk;
    StackKept(areas, was, now, guardPage, AreaAt(areas, brkStart), newEnd);
  }

  lemma UnmappedStart(pages: map<nat, Page>, start: nat)
    ensures Unmapped(pages, pages, start, start)
  {
  }

  lemma UnmappedNext(was: map<nat, Page>, now: map<nat, Page>, start: nat, addr: nat)
    requires Unmapped(was, now, start, addr)
    ensures addr in was ==> addr in now && now[addr] == was[addr]
  {
  }

  lemma UnmappedStep(was: map<nat, Page>, mid: map<nat, Page>, now: map<nat, Page>, start: nat, addr: nat)
    requires Unmapped(was, mid, start, addr) && now == mid - {addr} && start <= addr && addr % PAGE == 0
    ensures Unmapped(was, now, start, addr + PAGE)
  {
  }

  lemma FlagsOwned(maps: map<TaskMm, map<nat, Page>>, owner: map<nat, (TaskMm, nat)>, mm: TaskMm, a: nat, now: map<nat, Page>)
    requires OwnerOk(maps, owner) && mm in maps && a in maps[mm] && a in now
    requires now == maps[mm][a := now[a]] && now[a].frame == maps[mm][a].frame
    ensures OwnerOk(maps[mm := now], owner)
  {
    assert PagesOwned(maps[mm := now], owner) by {
      hide OwnersMapped;
    }
    assert OwnersMapped(maps[mm := now], owner) by {
      hide PagesOwned;
    }
    hide PagesOwned, OwnersMapped;
  }

  /** Moving a page between present and guard leaves the mapping in step with the areas. */
  lemma FlagsMapOk(areas: seq<Area>, was: map<nat, Page>, now: map<nat, Page>, a: nat)
    requires MapOk(areas, was) && a in was && a in now && now == was[a := now[a]]
    requires now[a].rw == was[a].rw && now[a].present == !now[a].guard
    ensures MapOk(areas, now)
  {
    forall b: nat, v: bool | b % PAGE == 0
      ensures (b in now && now[b].rw == v) <==> Grants(areas, b, v)
    {
      MapAt(areas, was, b, v);
    }
  }

  /** For a regular task the handler's 32-bit arithmetic is exact, and the pages it asks for are vacant. */
  lemma StackChecks(areas: seq<Area>, pages: map<nat, Page>, guardPage: nat, brkStart: nat, brk: nat, frames: nat)
    requires MapOk(areas, pages) && StackOk(areas, pages, guardPage) && HeapOk(areas, guardPage, brkStart, brk)
    ensures STACK_FLOOR < guardPage <= STACK_TOP - PAGE && guardPage % PAGE == 0
    ensures BelowLimit(guardPage) ==>
              (STACK_FLOOR < guardPage - STACK_GROWTH
               && (CanAlloc(pages.Keys, frames, guardPage - STACK_GROWTH, guardPage) <==> STACK_GROWTH / PAGE <= frames))
  {
    forall a | a in pages
      ensures a < brk || a >= guardPage > STACK_FLOOR
    {
      AboveBreak(areas, pages, guardPage, brkStart, brk, a);
    }
    HeapBounds(areas, guardPage, brkStart, brk);
    hide MapOk, HeapOk, Grants;
  }

  /** Below the limit a regular task's stack grows exactly when there are frames. */
  lemma StackPushes(areas: seq<Area>, pages: map<nat, Page>, s: Space, frames: nat)
    requires MapOk(areas, pages) && StackOk(areas, pages, s.guardPage) && HeapOk(areas, s.guardPage, s.brkStart, s.brk)
    requires s.areas == areas && s.pages.Keys == pages.Keys
    requires forall a | a in pages :: s.pages[a].present == pages[a].present && s.pages[a].guard == pages[a].guard
    ensures STACK_FLOOR < s.guardPage <= STACK_TOP - PAGE && s.guardPage % PAGE == 0
    ensures BelowLimit(s.guardPage) ==>
              (s.guardPage - STACK_GROWTH >= 0
               && (PushedTo(s, frames, s.guardPage - STACK_GROWTH, s.guardPage).Some? <==> STACK_GROWTH / PAGE <= frames))
  {
    hide Stored;
    StackChecks(areas, pages, s.guardPage, s.brkStart, s.brk, frames);
    if BelowLimit(s.guardPage) {
      StackVacant(areas, pages, s.guardPage, s.brkStart, s.brk);
      hide MapOk, HeapOk, CanAlloc;
      var low := s.guardPage - STACK_GROWTH;
      assert low in Fresh(low, s.guardPage, true);
    }
  }

  lemma GrownFlags(was: map<nat, Page>, mapped: map<nat, Page>, cleared: map<nat, Page>, now: map<nat, Page>,
                   guardPage: nat)
    requires STACK_FLOOR < guardPage - STACK_GROWTH && guardPage % PAGE == 0 && guardPage in was
    requires forall a | a in was :: was[a].guard <==> a == guardPage
    requires Mapped(was, mapped, guardPage - STACK_GROWTH, guardPage, true)
    requires guardPage in mapped && guardPage - STACK_GROWTH in cleared
    requires cleared == mapped[guardPage := mapped[guardPage].(present := true, guard := false)]
    requires now == cleared[guardPage - STACK_GROWTH := cleared[guardPage - STACK_GROWTH].(present := false, guard := true)]
    requires forall a | InRange(a, guardPage - STACK_GROWTH, guardPage) :: a !in was
    ensures StackGrown(was, now, guardPage)
    ensures forall a | a in now :: now[a].guard <==> a == guardPage - STACK_GROWTH
  {
  }

  /** The pages to grow into are vacant, and the guard page is mapped. */
  lemma StackVacant(areas: seq<Area>, was: map<nat, Page>, guardPage: nat, brkStart: nat, brk: nat)
    requires MapOk(areas, was) && StackOk(areas, was, guardPage) && HeapOk(areas, guardPage, brkStart, brk) && BelowLimit(guardPage)
    ensures STACK_FLOOR < guardPage - STACK_GROWTH && guardPage % PAGE == 0 && guardPage in was
    ensures forall a | InRange(a, guardPage - STACK_GROWTH, guardPage) :: a !in was
  {
    StackChecks(areas, was, guardPage, brkStart, brk, 0);
    var s :| StackAt(areas, guardPage, s);
    assert areas[s].Covers(guardPage);
    MappedIsCovered(areas, was, guardPage);
    forall a | InRange(a, guardPage - STACK_GROWTH, guardPage)
      ensures a !in was
    {
      if a in was {
        AboveBreak(areas, was, guardPage, brkStart, brk, a);
      }
    }
  }

  lemma GrownStack(areas: seq<Area>, was: map<nat, Page>, mapped: map<nat, Page>, cleared: map<nat, Page>, now: map<nat, Page>,
                   guardPage: nat, brkStart: nat, brk: nat)
    requires MapOk(areas, was) && StackOk(areas, was, guardPage) && HeapOk(areas, guardPage, brkStart, brk)
    requires BelowLimit(guardPage)
    requires Mapped(was, mapped, guardPage - STACK_GROWTH, guardPage, true)
    requires guardPage in mapped && guardPage - STACK_GROWTH in cleared
    requires cleared == mapped[guardPage := mapped[guardPage].(present := true, guard := false)]
    requires now == cleared[guardPage - STACK_GROWTH := cleared[guardPage - STACK_GROWTH].(present := false, guard := true)]
    ensures StackGrown(was, now, guardPage) && StackOk(Stored(areas, guardPage - STACK_GROWTH, guardPage, true), now, guardPage - STACK_GROWTH)
    ensures HeapOk(Stored(areas, guardPage - STACK_GROWTH, guardPage, true), guardPage - STACK_GROWTH, brkStart, brk)
  {
    StackVacant(areas, was, guardPage, brkStart, brk);
    GrownFlags(was, mapped, cleared, now, guardPage);
    AreasFine(areas, was);
    StackGrows(areas, guardPage, guardPage - STACK_GROWTH, brkStart, brk);
    hide Stored, MapOk, Grants, AreasOk, HeapOk, Mapped, StackGrown;
  }

  lemma OwnerAdds(maps: map<TaskMm, map<nat, Page>>, owner: map<nat, (TaskMm, nat)>, mm: TaskMm, now: map<TaskMm, map<nat, Page>>)
    requires OwnerOk(maps, owner) && mm !in maps
    requires now.Keys == maps.Keys + {mm} && now[mm] == map[] && forall m | m in maps :: now[m] == maps[m]
    ensures OwnerOk(now, owner)
  {
  }

  lemma NothingMapped()
    ensures MapOk([], map[])
  {
    forall a: nat, w: bool
      ensures !Grants([], a, w)
    {
    }
  }

  /** A first stack can be allocated exactly when there are frames for it. */
  lemma StackAllocates(frames: nat)
    ensures CanAlloc({}, frames, STACK_TOP - (STACK_INITIAL + PAGE), STACK_TOP + PAGE) <==> frames >= STACK_INITIAL / PAGE + 2
  {
  }

  lemma NoViews(c: map<nat, Contents>)
    ensures Views(map[], c) == map[]
  {
  }

  lemma StackCreates(frames: nat)
    ensures Alloc(NOTHING, frames, STACK_LOW, STACK_TOP + PAGE, true).Some? <==> frames >= STACK_INITIAL / PAGE + 2
    ensures Created(frames).Some? <==> frames >= STACK_INITIAL / PAGE + 2
  {
    assert NOTHING.pages.Keys == {};
    assert STACK_LOW in Fresh(STACK_LOW, STACK_TOP + PAGE, true);
  }

  lemma FirstStack(mapped: map<nat, Page>)
    requires Mapped(map[], mapped, STACK_TOP - (STACK_INITIAL + PAGE), STACK_TOP + PAGE, true)
    ensures var low := STACK_TOP - (STACK_INITIAL + PAGE);
            low in mapped && mapped[low].present && !mapped[low].guard
  {
    assert InRange(STACK_TOP - (STACK_INITIAL + PAGE), STACK_TOP - (STACK_INITIAL + PAGE), STACK_TOP + PAGE);
  }

  lemma FirstStackGuarded(mapped: map<nat, Page>, now: map<nat, Page>)
    requires Mapped(map[], mapped, STACK_TOP - (STACK_INITIAL + PAGE), STACK_TOP + PAGE, true)
    requires var low := STACK_TOP - (STACK_INITIAL + PAGE);
             low in mapped && now == mapped[low := mapped[low].(present := false, guard := true)]
    ensures var low := STACK_TOP - (STACK_INITIAL + PAGE);
            var areas := Stored([], low, STACK_TOP + PAGE, true);
            && areas == [Area(low, STACK_TOP + PAGE, true)]
            && StackOk(areas, now, low) && HeapOk(areas, low, 0, 0)
  {
    var low := STACK_TOP - (STACK_INITIAL + PAGE);
    assert StackAt([Area(low, STACK_TOP + PAGE, true)], low, 0);
  }

  /** Loading a segment below the stack's region keeps the break above all of them and the stack as it is. */
  lemma LoadedRegular(areas: seq<Area>, was: map<nat, Page>, now: map<nat, Page>, guardPage: nat, brk: nat, start: nat, end: nat, w: bool)
    requires MapOk(areas, was) && StackOk(areas, was, guardPage) && HeapOk(areas, guardPage, brk, brk)
    requires start < end <= STACK_FLOOR && end % PAGE == 0 && Mapped(was, now, start, end, w)
    ensures StackOk(Stored(areas, start, end, w), now, guardPage)
    ensures var b := if end > brk then end else brk;
            HeapOk(Stored(areas, start, end, w), guardPage, b, b)
  {
    hide Stored;
    AreasFine(areas, was);
    hide AreasOk, Grants;
    assert forall a | a in now :: now[a].guard <==> a == guardPage;
    StackStays(areas, was, now, guardPage, start, end, w);
    var next := Stored(areas, start, end, w);
    var b := if end > brk then end else brk;
    forall i | 0 <= i < |next|
      ensures next[i].start == guardPage || next[i].end <= b
    {
      StoredAt(areas, start, end, w, i);
    }
  }

  /** The pages of a task are on frames that are its own. */
  lemma OwnedPages(maps: map<TaskMm, map<nat, Page>>, owner: map<nat, (TaskMm, nat)>, mm: TaskMm, pages: map<nat, Page>)
    requires OwnerOk(maps, owner) && mm in maps && maps[mm] == pages
    ensures forall a | a in pages :: pages[a].frame in owner && owner[pages[a].frame] == (mm, a)
  {
  }

  lemma CopiedStart(parent: map<nat, Page>, contents: map<nat, Contents>)
    ensures Copied(parent, map[], contents, USER_BASE)
  {
  }

  lemma CopiedNext(parent: map<nat, Page>, child: map<nat, Page>, contents: map<nat, Contents>, addr: nat)
    requires Copied(parent, child, contents, addr)
    ensures addr !in child
    ensures addr in parent ==> |child| < |parent|
  {
    assert child.Keys <= parent.Keys;
    if addr in parent {
      Fewer(child.Keys, parent.Keys, addr);
    }
  }

  lemma {:induction false} Fewer(s: set<nat>, t: set<nat>, x: nat)
    requires s <= t && x in t && x !in s
    ensures |s| < |t|
  {
    NoMore(s, t - {x});
  }

  lemma {:induction false} NoMore(s: set<nat>, t: set<nat>)
    requires s <= t
    ensures |s| <= |t|
  {
    if s != {} {
      var x :| x in s;
      NoMore(s - {x}, t - {x});
    }
  }

  lemma CopiedSkip(parent: map<nat, Page>, child: map<nat, Page>, contents: map<nat, Contents>, addr: nat)
    requires Copied(parent, child, contents, addr) && addr !in parent && addr % PAGE == 0
    ensures Copied(parent, child, contents, addr + PAGE)
  {
  }

  lemma CopiedStep(parent: map<nat, Page>, child: map<nat, Page>, now: map<nat, Page>, contents: map<nat, Contents>,
                   contents': map<nat, Contents>, addr: nat, frame: nat)
    requires Copied(parent, child, contents, addr) && addr in parent && addr % PAGE == 0 && addr >= USER_BASE
    requires now == child[addr := parent[addr].(frame := frame)]
    requires parent[addr].frame in contents && contents'.Keys == contents.Keys + {frame}
    requires contents'[frame] == contents[parent[addr].frame] && forall f | f in contents && f != frame :: contents'[f] == contents[f]
    requires forall a | a in parent :: parent[a].frame != frame
    requires forall a | a in child :: child[a].frame != frame
    ensures Copied(parent, now, contents', addr + PAGE)
  {
  }

  lemma CopiedAll(areas: seq<Area>, parent: map<nat, Page>, child: map<nat, Page>, contents: map<nat, Contents>)
    requires MapOk(areas, parent) && Copied(parent, child, contents, USER_TOP)
    ensures MapOk(areas, child) && child.Keys == parent.Keys && |child| == |parent|
  {
    PagesAligned(areas, parent);
    forall a | a in parent
      ensures USER_BASE <= a < USER_TOP
    {
      MappedIsCovered(areas, parent, a);
      var i :| 0 <= i < |areas| && areas[i].Covers(a);
      assert areas[i].Ok();
    }
    hide AreasOk, Grants;
    forall a: nat, v: bool | a % PAGE == 0
      ensures (a in child && child[a].rw == v) <==> Grants(areas, a, v)
    {
      MapAt(areas, parent, a, v);
    }
    assert child.Keys == parent.Keys;
    assert |child| == |child.Keys| && |parent| == |parent.Keys|;
    assert forall a | a in child :: child[a].present == !child[a].guard;
  }

  lemma CopiedViews(parent: map<nat, Page>, child: map<nat, Page>, o: map<nat, (TaskMm, nat)>, o': map<nat, (TaskMm, nat)>,
                    c: map<nat, Contents>, c': map<nat, Contents>)
    requires Copied(parent, child, c', USER_TOP) && child.Keys == parent.Keys && Kept(o, c, o', c')
    requires forall a | a in parent :: parent[a].frame in o && parent[a].frame in c
    ensures Views(child, c') == Views(parent, c)
  {
  }

  lemma ForkedIs(s: Space, frames: nat, pages: map<nat, Page>, c: map<nat, Contents>)
    requires s.pages == Views(pages, c)
    ensures if |pages| <= frames then Forked(s, frames) == Some(Space(s.areas, s.pages, 0, 0, 0, 0)) else Forked(s, frames) == None
  {
    ViewsCount(pages, c);
  }

  lemma AlignedSum(brk: nat, size: nat)
    requires brk % PAGE == 0 && size % PAGE == 0
    ensures U32(brk + size) % PAGE == 0 && U32(brk + size) < 0x1_0000_0000
  {
  }

  lemma KeptFresh(owner: map<nat, (TaskMm, nat)>, contents: map<nat, Contents>, frame: nat, mapping: (TaskMm, nat), c: Contents)
    requires frame !in owner
    ensures Kept(owner, contents, owner[frame := mapping], contents[frame := c])
  {
  }

  lemma FreedNone(areas: seq<Area>, pages: map<nat, Page>)
    ensures Freed(areas, pages, pages, 0)
  {
  }

  /** The pages of an area are still there when its turn comes: no other area covers them. */
  lemma FreedNext(areas: seq<Area>, was: map<nat, Page>, now: map<nat, Page>, i: nat)
    requires MapOk(areas, was) && i < |areas| && Freed(areas, was, now, i)
    ensures forall a | InRange(a, areas[i].start, areas[i].end) :: a in now && now[a].present == !now[a].guard
  {
    AreaMapped(areas, was, i);
    forall a | InRange(a, areas[i].start, areas[i].end)
      ensures a in now
    {
      assert a in was;
      NotEarlier(areas, i, a);
    }
  }

  lemma NotEarlier(areas: seq<Area>, i: nat, a: nat)
    requires AreasOk(areas) && i < |areas| && areas[i].Covers(a)
    ensures !Covered(areas[..i], a)
  {
    forall j | 0 <= j < i
      ensures !areas[..i][j].Covers(a)
    {
      assert areas[j].end <= areas[i].start || areas[i].end <= areas[j].start;
    }
  }

  lemma FreedStep(areas: seq<Area>, was: map<nat, Page>, mid: map<nat, Page>, now: map<nat, Page>, i: nat)
    requires MapOk(areas, was) && i < |areas| && Freed(areas, was, mid, i) && Unmapped(mid, now, areas[i].start, areas[i].end)
    ensures Freed(areas, was, now, i + 1)
  {
    PagesAligned(areas, was);
    hide MapOk;
    forall a: nat
      ensures Covered(areas[..i + 1], a) <==> Covered(areas[..i], a) || areas[i].Covers(a)
    {
      CoveredOneMore(areas, i, a);
    }
    hide Covered;
  }

  lemma CoveredOneMore(areas: seq<Area>, i: nat, a: nat)
    requires i < |areas|
    ensures Covered(areas[..i + 1], a) <==> Covered(areas[..i], a) || areas[i].Covers(a)
  {
    if areas[i].Covers(a) {
      assert areas[..i + 1][i].Covers(a);
    }
    if Covered(areas[..i], a) {
      var j :| 0 <= j < i && areas[..i][j].Covers(a);
      assert areas[..i + 1][j].Covers(a);
    }
    if Covered(areas[..i + 1], a) {
      var j :| 0 <= j <= i && areas[..i + 1][j].Covers(a);
      assert j < i ==> areas[..i][j].Covers(a);
    }
  }

  lemma FreedAll(areas: seq<Area>, was: map<nat, Page>, now: map<nat, Page>)
    requires MapOk(areas, was) && Freed(areas, was, now, |areas|)
    ensures now == map[]
  {
    assert areas[..|areas|] == areas;
    forall a | a in now
      ensures false
    {
      MappedIsCovered(areas, was, a);
    }
  }

  /** Page maps determine the owners. */
  lemma OwnersDetermined(maps: map<TaskMm, map<nat, Page>>, o1: map<nat, (TaskMm, nat)>, o2: map<nat, (TaskMm, nat)>)
    requires OwnerOk(maps, o1) && OwnerOk(maps, o2)
    ensures o1 == o2
  {
    forall f | f in o1
      ensures f in o2 && o2[f] == o1[f]
    {
    }
    forall f | f in o2
      ensures f in o1
    {
    }
  }

  lemma OthersOwn(maps: map<TaskMm, map<nat, Page>>, owner: map<nat, (TaskMm, nat)>, mm: TaskMm)
    requires OwnerOk(maps, owner)
    ensures OwnerOk(maps - {mm}, OwnersBut(owner, mm))
  {
  }

  lemma NothingOwned(maps: map<TaskMm, map<nat, Page>>, owner: map<nat, (TaskMm, nat)>, mm: TaskMm)
    requires OwnerOk(maps[mm := map[]], owner)
    ensures OwnerOk(maps - {mm}, owner)
  {
    var emptied := maps[mm := map[]];
    assert forall m | m in maps - {mm} :: m in emptied && emptied[m] == maps[m];
    assert OwnerOk(emptied, owner);
  }

  /** A task without pages can be dropped; the owners left are the others' of before. */
  lemma OwnerDrops(maps: map<TaskMm, map<nat, Page>>, owner: map<nat, (TaskMm, nat)>, owner': map<nat, (TaskMm, nat)>, mm: TaskMm)
    requires OwnerOk(maps, owner) && mm in maps && OwnerOk(maps[mm := map[]], owner')
    ensures OwnerOk(maps - {mm}, owner') && owner' == OwnersBut(owner, mm)
  {
    OthersOwn(maps, owner, mm);
    NothingOwned(maps, owner', mm);
    OwnersDetermined(maps - {mm}, owner', OwnersBut(owner, mm));
  }

  /** The handler's 32-bit sums are exact when the guard page is below the top of the stack. */
  lemma StackSums(guardPage: nat)
    requires guardPage <= STACK_TOP - PAGE && guardPage % PAGE == 0 && guardPage > STACK_FLOOR
    ensures var oldSize := U32(STACK_TOP - guardPage - PAGE);
            var newSize := U32(oldSize + STACK_GROWTH);
            && oldSize % PAGE == 0 && newSize % PAGE == 0 && (newSize < STACK_MAX <==> BelowLimit(guardPage))
            && U32(STACK_TOP - (newSize + PAGE)) == guardPage - STACK_GROWTH && U32(STACK_TOP - (oldSize + PAGE)) == guardPage
  {
  }

  lemma StackApart(guardPage: nat)
    ensures var oldSize := U32(STACK_TOP - guardPage - PAGE);
            var newSize := U32(oldSize + STACK_GROWTH);
            U32(STACK_TOP - (newSize + PAGE)) != U32(STACK_TOP - (oldSize + PAGE))
  {
  }
}
