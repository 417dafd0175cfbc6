/** What holds for whole runs of address space operations (src/kernel/vmm.c, src/kernel/pmm.c). */
module VirtualMemoryClient {
  import opened Options
  import opened FrameAllocators
  import opened AddressSpaces
  import opened Spaces
  import opened VirtualMemory

  // ----- conservation

  /** Two mappings never share a frame; a mapped frame is in use and is not the kernel's. */
  lemma FramesApart(machine: Machine, m: TaskMm, a: nat, n: TaskMm, b: nat)
    requires machine.Valid() && m in machine.tasks && n in machine.tasks && a in m.pages && b in n.pages
    ensures m.pages[a].frame == n.pages[b].frame <==> m == n && a == b
    ensures m.pages[a].frame in machine.pmm.Used() && m.pages[a].frame !in machine.reserved
  {
    machine.OwnedFrames(m);
    machine.OwnedFrames(n);
  }

  /** A frame in use is the kernel's or mapped by some task. */
  lemma EveryFrameAccounted(machine: Machine, f: nat) returns (m: TaskMm, a: nat)
    requires machine.Valid() && f in machine.pmm.Used() && f !in machine.reserved
    ensures m in machine.tasks && a in m.pages && m.pages[a].frame == f
  {
    m, a := machine.owner[f].0, machine.owner[f].1;
  }

  /** Pages mapped by all tasks together. */
  ghost function TotalPages(maps: map<TaskMm, map<nat, Page>>): nat
    decreases |maps|
  {
    if maps == map[] then 0 else
      var mm :| mm in maps;
      |maps[mm]| + TotalPages(maps - {mm})
  }

  lemma {:induction false} OwnedByOne(maps: map<TaskMm, map<nat, Page>>, owner: map<nat, (TaskMm, nat)>, mm: TaskMm)
    requires OwnerOk(maps, owner) && mm in maps
    ensures |owner| == |OwnersBut(owner, mm)| + |maps[mm]|
    decreases |maps[mm]|
  {
    hide OwnerOk;
    if maps[mm] == map[] {
      NoneOwned(maps, owner, mm);
    } else {
      var a :| a in maps[mm];
      var rest: map<nat, Page> := maps[mm] - {a};
      var f := maps[mm][a].frame;
      OwnerUnmaps(maps, owner, mm, a, rest);
      assert |rest| == |maps[mm]| - 1;
      OneFewer(owner, f);
      OwnedByOne(maps[mm := rest], owner - {f}, mm);
      assert OwnersBut(owner - {f}, mm) == OwnersBut(owner, mm);
    }
  }

  lemma NoneOwned(maps: map<TaskMm, map<nat, Page>>, owner: map<nat, (TaskMm, nat)>, mm: TaskMm)
    requires OwnerOk(maps, owner) && mm in maps && maps[mm] == map[]
    ensures OwnersBut(owner, mm) == owner
  {
  }

  lemma OneFewer(owner: map<nat, (TaskMm, nat)>, f: nat)
    requires f in owner
    ensures |owner - {f}| == |owner| - 1
  {
    assert |owner - {f}| == |(owner - {f}).Keys| && (owner - {f}).Keys == owner.Keys - {f};
  }

  /** There are as many owned frames as mapped pages, so the counts of all tasks together account for all user frames. */
  lemma {:induction false} FramesCounted(maps: map<TaskMm, map<nat, Page>>, owner: map<nat, (TaskMm, nat)>)
    requires OwnerOk(maps, owner)
    ensures |owner| == TotalPages(maps)
    decreases |maps|
  {
    if maps == map[] {
      assert owner.Keys == {};
      assert |owner| == |owner.Keys|;
    } else {
      var mm :| mm in maps && TotalPages(maps) == |maps[mm]| + TotalPages(maps - {mm});
      OwnedByOne(maps, owner, mm);
      FramesCounted(maps - {mm}, OwnersBut(owner, mm));
    }
  }

  // ----- round trips

  /** A clone that is destroyed again leaves the frame allocator, the other tasks and their memory as they were. */
  method CloneThenDestroy(machine: Machine, parent: TaskMm) returns (cloned: bool)
    requires machine.Valid() && parent in machine.tasks
    modifies machine`contents, machine`owner, machine`tasks, machine.pmm`lastAllocated, machine.pmm.words
    ensures cloned <==> old(machine.FreeCount()) >= |parent.pages|
    ensures cloned ==> machine.Valid() && machine.tasks == old(machine.tasks) && machine.owner == old(machine.owner)
    ensures cloned ==> machine.pmm.Used() == old(machine.pmm.Used())
    ensures cloned ==> Kept(machine.owner, old(machine.contents), machine.owner, machine.contents)
  {
    hide Machine.FreeCount, TaskMm.Ok, Kept, Copied, OwnersBut, OwnerOk, UsedIn, HintHolds;
    ghost var maps, owner := machine.Maps(), machine.owner;
    var child := machine.Clone(parent);
    if child.None? {
      return false;
    }
    ghost var mid := machine.owner;
    machine.Destroy(child.value);
    assert machine.Maps() == maps;
    machine.SameUse(maps, owner);
    KeptContents(owner, old(machine.contents), mid, machine.contents);
    cloned := true;
  }

  /** The child of a clone reads what the parent had, and the parent's later writes do not reach it. */
  method WriteAfterClone(machine: Machine, parent: TaskMm, a: nat, c: Contents) returns (r: Option<TaskMm>)
    requires machine.Valid() && parent in machine.tasks && a in parent.pages && parent.pages[a].present && parent.pages[a].rw
    requires machine.FreeCount() >= |parent.pages|
    modifies machine`contents, machine`owner, machine`tasks, machine.pmm`lastAllocated, machine.pmm.words
    ensures r.Some? && machine.Valid() && r.value in machine.tasks && r.value.pages.Keys == parent.pages.Keys
    ensures forall b, v | old(machine.Reads(parent, b, v)) :: machine.Reads(r.value, b, v)
    ensures machine.Reads(parent, a, c)
  {
    hide Machine.Owned, Machine.FreeCount, TaskMm.Ok, Kept;
    machine.OwnedFrames(parent);
    ghost var was := machine.SpaceOf(parent);
    forall b, v | machine.Reads(parent, b, v)
      ensures b in was.pages && was.pages[b].bytes == v
    {
    }
    r := machine.Clone(parent);
    var child := r.value;
    machine.OwnedFrames(parent);
    ghost var seen := machine.SpaceOf(child);
    var stored := machine.Store(parent, a, c);
    machine.OwnedFrames(parent);
    machine.OwnedFrames(child);
    assert machine.SpaceOf(child) == seen;
    forall b, v | old(machine.Reads(parent, b, v))
      ensures machine.Reads(child, b, v)
    {
      assert seen.pages[b].bytes == v;
    }
    assert machine.SpaceOf(parent).pages[a].bytes == c;
  }

  /** Growing the heap by whole pages and shrinking it by as much restores break, pages and free frames. It works exactly when
      the heap had a page before: to give back its very first page fails an assertion of vmm_resize_area. */
  method GrowThenShrink(machine: Machine, mm: TaskMm, delta: int) returns (grown: bool, shrunk: bool)
    requires machine.Valid() && mm in machine.tasks && mm.regular && 0 < delta < 0x8000_0000 && delta % PAGE == 0
    modifies machine`contents, machine`owner, machine.pmm`lastAllocated, machine.pmm.words
    modifies mm`pages, mm`framesUsed, mm`areas, mm`brk, mm`regular
    ensures grown <==> CanGrow(old(mm.brk), old(machine.FreeCount()), delta)
    ensures grown ==> (shrunk <==> old(mm.brk) >= mm.brkStart + PAGE)
    ensures grown && shrunk ==> machine.Valid() && mm.regular && mm.brk == old(mm.brk) && mm.pages == old(mm.pages)
    ensures grown && shrunk ==> machine.pmm.Used() == old(machine.pmm.Used()) && machine.owner == old(machine.owner)
  {
    hide Machine.Owned, Machine.FreeCount, Machine.Maps, MapOk, StackOk, HeapOk, OwnerOk, Mapped, Unmapped, CanGrow, TaskMm.Ok;
    machine.Recorded();
    MapsAre(machine);
    OkParts(mm);
    ghost var maps, owner, areas, was, brk := machine.Maps(), machine.owner, mm.areas, mm.pages, mm.brk;
    grown := TakePages(machine, mm, delta);
    shrunk := false;
    if grown {
      ghost var mid := mm.pages;
      shrunk := GiveBackPages(machine, mm, delta);
      if shrunk {
        BackAgain(areas, was, mid, mm.pages, mm.guardPage, mm.brkStart, brk, brk + delta);
        Restored(machine, maps, owner);
      }
    }
  }

  lemma OkParts(mm: TaskMm)
    requires mm.Ok()
    ensures MapOk(mm.areas, mm.pages)
    ensures mm.regular ==> StackOk(mm.areas, mm.pages, mm.guardPage) && HeapOk(mm.areas, mm.guardPage, mm.brkStart, mm.brk)
  {
  }

  lemma MapsAre(machine: Machine)
    ensures machine.Maps().Keys == machine.tasks && forall t | t in machine.tasks :: machine.Maps()[t] == t.pages
  {
  }

  lemma Restored(machine: Machine, maps: map<TaskMm, map<nat, Page>>, owner: map<nat, (TaskMm, nat)>)
    requires machine.Valid() && OwnerOk(maps, owner) && maps.Keys == machine.tasks && forall t | t in machine.tasks :: t.pages == maps[t]
    ensures machine.owner == owner && machine.pmm.Used() == machine.reserved + owner.Keys
  {
    hide OwnerOk, TaskMm.Ok, Machine.Owned;
    assert machine.Maps() == maps;
    machine.SameUse(maps, owner);
  }

  method TakePages(machine: Machine, mm: TaskMm, delta: int) returns (ok: bool)
    requires machine.Valid() && mm in machine.tasks && mm.regular && 0 < delta < 0x8000_0000 && delta % PAGE == 0
    modifies machine`contents, machine`owner, machine.pmm`lastAllocated, machine.pmm.words
    modifies mm`pages, mm`framesUsed, mm`areas, mm`brk, mm`regular
    ensures ok <==> CanGrow(old(mm.brk), old(machine.FreeCount()), delta)
    ensures ok ==> machine.Valid() && mm.regular && mm.brk == old(mm.brk) + delta <= STACK_FLOOR
    ensures ok ==> Mapped(old(mm.pages), mm.pages, old(mm.brk), mm.brk, true)
  {
    hide Machine.Owned, Machine.FreeCount, MapOk, StackOk, HeapOk, Kept, Mapped, Unmapped, Stored, CutTo, CanGrow, RoundUp, RoundDown;
    WholePages(mm.brk, delta);
    var r := machine.Sbrk(mm, delta);
    ok := r.Some?;
    if ok {
      assert mm in machine.tasks && mm.Ok();
      HeapBounds(mm.areas, mm.guardPage, mm.brkStart, mm.brk);
    }
  }

  method GiveBackPages(machine: Machine, mm: TaskMm, delta: int) returns (ok: bool)
    requires machine.Valid() && mm in machine.tasks && mm.regular && 0 < delta < 0x8000_0000 && delta % PAGE == 0 && delta <= mm.brk
    modifies machine`contents, machine`owner, machine.pmm`lastAllocated, machine.pmm.words
    modifies mm`pages, mm`framesUsed, mm`areas, mm`brk, mm`regular
    ensures ok <==> old(mm.brk) - delta >= mm.brkStart + PAGE
    ensures ok ==> machine.Valid() && mm.regular && mm.brk == old(mm.brk) - delta
    ensures ok ==> Unmapped(old(mm.pages), mm.pages, mm.brk, old(mm.brk))
  {
    hide Machine.Owned, Machine.FreeCount, MapOk, StackOk, HeapOk, Kept, Mapped, Unmapped, Stored, CutTo, CanGrow, RoundUp, RoundDown;
    WholePages(mm.brk, delta);
    var r := machine.Sbrk(mm, 0 - delta);
    ok := r.Some?;
  }

  lemma WholePages(brk: nat, delta: nat)
    requires brk % PAGE == 0 && delta % PAGE == 0
    ensures RoundUp(brk + delta) == brk + delta && RoundDown(delta) == delta
    ensures delta > 0 ==> delta >= PAGE
  {
  }

  lemma BackAgain(areas: seq<Area>, was: map<nat, Page>, mid: map<nat, Page>, now: map<nat, Page>, guardPage: nat, brkStart: nat,
                  brk: nat, end: nat)
    requires MapOk(areas, was) && StackOk(areas, was, guardPage) && HeapOk(areas, guardPage, brkStart, brk)
    requires end <= STACK_FLOOR && Mapped(was, mid, brk, end, true) && Unmapped(mid, now, brk, end)
    ensures now == was
  {
    forall a | a in was
      ensures !InRange(a, brk, end)
    {
      AboveBreak(areas, was, guardPage, brkStart, brk, a);
    }
  }

  // ----- the heap of a forked child

  /** sbrk calls in a row by one task, which has this much room for pages; none after one that panics. */
  function Requests(s: Space, room: int, deltas: seq<int>): Option<Space> {
    if deltas == [] then Some(s)
    else match Requests(s, room, deltas[..|deltas| - 1])
      case None => None
      case Some(t) => Broken(t, room - |t.pages|, deltas[|deltas| - 1])
  }

  /** What sbrk does in an address space whose break starts at 0, as a fork leaves it: no area holds that address, so a decrement
      frees nothing and only moves the break, in 32 bits, anywhere but into the first page and to the end of an area. */
  lemma ChildBreak(s: Space, frames: int, delta: int)
    requires s.brkStart == s.initialBrk == 0 && AreasOk(s.areas)
    ensures delta <= -PAGE ==>
              var brk := ShrunkBreak(s.brk, -delta);
              Broken(s, frames, delta) == if brk >= PAGE && forall i | 0 <= i < |s.areas| :: s.areas[i].end != brk then Some(s.(brk := brk)) else None
    ensures -PAGE < delta <= 0 ==> Broken(s, frames, delta) == Some(s)
    ensures delta > 0 ==>
              (Broken(s, frames, delta).Some? <==>
               GrownBreak(s.brk, delta) < STACK_FLOOR && CanAlloc(s.pages.Keys, frames, s.brk, GrownBreak(s.brk, delta)))
  {
    hide GrownBreak, ShrunkBreak, CanAlloc, Stored;
    forall i | 0 <= i < |s.areas|
      ensures !s.areas[i].Covers(0)
    {
      assert s.areas[i].Ok();
    }
    assert AreaAt(s.areas, 0) == |s.areas|;
  }

  /** Until it asks for a decrement of a page or more, a child has no heap: the first request for more panics. */
  lemma {:induction false} ChildIsStuck(s: Space, room: int, deltas: seq<int>)
    requires s.brk == s.brkStart == s.initialBrk == 0 && AreasOk(s.areas)
    requires forall i | 0 <= i < |deltas| :: deltas[i] > -PAGE
    ensures Requests(s, room, deltas) == if exists i :: 0 <= i < |deltas| && deltas[i] > 0 then None else Some(s)
  {
    hide Broken;
    if deltas != [] {
      var last := deltas[|deltas| - 1];
      ChildIsStuck(s, room, deltas[..|deltas| - 1]);
      ChildBreak(s, room - |s.pages|, last);
    }
  }

  /** A decrement that wraps the break around to an unused page gives it one. */
  lemma WrappedHeap(s: Space, room: int)
    requires s.brk == s.brkStart == s.initialBrk == 0 && AreasOk(s.areas) && room > |s.pages|
    requires 0x9000_0000 !in s.pages && (forall a | a in s.pages :: a % PAGE == 0) && forall i | 0 <= i < |s.areas| :: s.areas[i].end != 0x9000_0000
    ensures var r := Requests(s, room, [-0x7000_0000, PAGE]);
            r.Some? && r.value.brk == 0x9000_0000 + PAGE && r.value.pages == s.pages[0x9000_0000 := PageView(true, true, false, ZEROS)]
  {
    var t := s.(brk := 0x9000_0000);
    WrappedTo(s, room - |s.pages|);
    OnePage(t, room - |s.pages|);
    hide Broken;
    TwoRequests(s, room, t, -0x7000_0000, PAGE);
  }

  lemma WrappedTo(s: Space, frames: int)
    requires s.brk == s.brkStart == s.initialBrk == 0 && AreasOk(s.areas) && forall i | 0 <= i < |s.areas| :: s.areas[i].end != 0x9000_0000
    ensures Broken(s, frames, -0x7000_0000) == Some(s.(brk := 0x9000_0000))
  {
    hide Broken;
    ChildBreak(s, frames, -0x7000_0000);
    assert ShrunkBreak(0, 0x7000_0000) == 0x9000_0000;
  }

  lemma TwoRequests(s: Space, room: int, t: Space, first: int, second: int)
    requires Broken(s, room - |s.pages|, first) == Some(t)
    ensures Requests(s, room, [first, second]) == Broken(t, room - |t.pages|, second)
  {
    hide Broken;
    assert [first, second][..1] == [first] && [first][..0] == [];
    assert Requests(s, room, []) == Some(s);
    assert Requests(s, room, [first]) == Some(t);
  }

  lemma OnePage(t: Space, frames: int)
    requires t.brk == 0x9000_0000 && t.brk !in t.pages && (forall a | a in t.pages :: a % PAGE == 0) && frames >= 1
    ensures var r := Broken(t, frames, PAGE);
            r.Some? && r.value.brk == t.brk + PAGE && r.value.pages == t.pages[t.brk := PageView(true, true, false, ZEROS)]
  {
    hide Stored;
    assert GrownBreak(t.brk, PAGE) == t.brk + PAGE;
    assert t.pages + Fresh(t.brk, t.brk + PAGE, true) == t.pages[t.brk := PageView(true, true, false, ZEROS)];
  }

  /** Nor does its stack ever grow: its guard page is 0 as well, which makes the stack too large in 32 bits. */
  lemma ChildStackIsStuck(s: Space, frames: int, fault: nat)
    requires s.guardPage == 0
    ensures Pushed(s, frames, fault) == None
  {
    assert U32(STACK_TOP - PAGE) == STACK_TOP - PAGE && U32(STACK_TOP - PAGE + STACK_GROWTH) >= STACK_MAX;
  }

  function Breaks(task: nat, deltas: seq<int>): seq<Op> {
    seq(|deltas|, k requires 0 <= k < |deltas| => Brk(task, deltas[k]))
  }

  /** A fork, and then any sbrk calls of the child: they do what they do in an address space with its parent's areas and pages and a
      break of 0, and nothing to anybody else. */
  lemma {:induction false} ForkThenBreaks(s: State, i: nat, deltas: seq<int>)
    requires i < |s.spaces| && |s.spaces[i].pages| <= Free(s) && forall k | 0 <= k < |deltas| :: -0x8000_0000 <= deltas[k] < 0x8000_0000
    ensures var child := Space(s.spaces[i].areas, s.spaces[i].pages, 0, 0, 0, 0);
            Outcome([Fork(i)] + Breaks(|s.spaces|, deltas), s)
            == match Requests(child, Free(s), deltas) case None => None case Some(t) => Some(s.(spaces := s.spaces + [t]))
  {
    hide Broken;
    var child := Space(s.spaces[i].areas, s.spaces[i].pages, 0, 0, 0, 0);
    var ops, n := [Fork(i)] + Breaks(|s.spaces|, deltas), |s.spaces|;
    if deltas == [] {
      assert ops == [Fork(i)] && ops[..0] == [];
      assert Outcome([], s) == Some(s);
    } else {
      var front := deltas[..|deltas| - 1];
      ForkThenBreaks(s, i, front);
      assert ops[..|ops| - 1] == [Fork(i)] + Breaks(n, front) && ops[|ops| - 1] == Brk(n, deltas[|deltas| - 1]);
      var r := Requests(child, Free(s), front);
      if r.Some? {
        TakenWith(s.spaces, r.value);
        var b := Broken(r.value, Free(s) - |r.value.pages|, deltas[|deltas| - 1]);
        if b.Some? {
          LastReplaced(s.spaces, r.value, b.value);
        }
      }
    }
  }

  lemma LastReplaced(spaces: seq<Space>, x: Space, t: Space)
    ensures (spaces + [x])[|spaces|] == x && (spaces + [x])[|spaces| := t] == spaces + [t]
  {
  }

  lemma TakenWith(spaces: seq<Space>, t: Space)
    ensures Taken(spaces + [t]) == Taken(spaces) + |t.pages|
  {
    assert (spaces + [t])[..|spaces|] == spaces;
  }

  // ----- whole runs

  /** What the tasks alive are, and that each is its own. */
  ghost predicate Alive(machine: Machine, live: seq<TaskMm>)
    reads machine, machine.pmm, machine.pmm.words, machine.tasks
  {
    && machine.Valid() && (forall i | 0 <= i < |live| :: live[i] in machine.tasks)
    && (forall m | m in machine.tasks :: m in live)
    && (forall i, j | 0 <= i < j < |live| :: live[i] != live[j])
  }

  ghost function SpacesOf(machine: Machine, live: seq<TaskMm>): (r: seq<Space>)
    reads machine`contents, live
    ensures |r| == |live| && forall i | 0 <= i < |live| :: r[i] == machine.SpaceOf(live[i])
  {
    if live == [] then [] else SpacesOf(machine, live[..|live| - 1]) + [machine.SpaceOf(live[|live| - 1])]
  }

  /** The address spaces of the tasks alive, without their frames. */
  ghost function Snapshot(machine: Machine, live: seq<TaskMm>): State
    reads machine`contents, live
  {
    State(SpacesOf(machine, live), machine.Capacity())
  }

  lemma {:induction false} TakenIsOwned(maps: map<TaskMm, map<nat, Page>>, owner: map<nat, (TaskMm, nat)>, live: seq<TaskMm>, spaces: seq<Space>)
    requires OwnerOk(maps, owner) && |spaces| == |live| && Lists(maps, live)
    requires forall i | 0 <= i < |live| :: |spaces[i].pages| == |maps[live[i]]|
    ensures Taken(spaces) == |owner|
  {
    hide OwnerOk, Lists, OwnersBut;
    if live == [] {
      NobodyOwns(maps, owner);
    } else {
      var n := |live| - 1;
      var m := live[n];
      ListsFewer(maps, live);
      OwnedByOne(maps, owner, m);
      OthersOwn(maps, owner, m);
      TakenIsOwned(maps - {m}, OwnersBut(owner, m), live[..n], spaces[..n]);
    }
  }

  /** The page maps are those of these tasks. */
  ghost predicate Lists(maps: map<TaskMm, map<nat, Page>>, live: seq<TaskMm>) {
    && (forall i | 0 <= i < |live| :: live[i] in maps) && (forall m | m in maps :: m in live)
    && (forall i, j | 0 <= i < j < |live| :: live[i] != live[j])
  }

  lemma ListsFewer(maps: map<TaskMm, map<nat, Page>>, live: seq<TaskMm>)
    requires Lists(maps, live)
    ensures live == [] ==> maps == map[]
    ensures live != [] ==>
              var m := live[|live| - 1];
              && m in maps && Lists(maps - {m}, live[..|live| - 1])
              && forall i | 0 <= i < |live| - 1 :: live[..|live| - 1][i] in maps - {m} && (maps - {m})[live[..|live| - 1][i]] == maps[live[i]]
  {
    if live != [] {
      var n := |live| - 1;
      forall m | m in maps && m != live[n]
        ensures m in live[..n]
      {
        var i :| 0 <= i < |live| && live[i] == m;
        assert live[..n][i] == m;
      }
    }
  }

  lemma NobodyOwns(maps: map<TaskMm, map<nat, Page>>, owner: map<nat, (TaskMm, nat)>)
    requires OwnerOk(maps, owner) && Lists(maps, [])
    ensures |owner| == 0
  {
    assert owner.Keys == {};
    assert |owner| == |owner.Keys|;
  }

  /** The frames left are those that the address spaces do not take. */
  lemma FreeIsLeft(machine: Machine, live: seq<TaskMm>)
    requires Alive(machine, live)
    ensures Free(Snapshot(machine, live)) == machine.FreeCount()
  {
    hide OwnerOk, UsedIn, HintHolds, Machine.FreeCount;
    machine.FreeIs();
    machine.Recorded();
    hide Machine.Owned, TaskMm.Ok;
    forall i | 0 <= i < |live|
      ensures |Snapshot(machine, live).spaces[i].pages| == |machine.Maps()[live[i]]|
    {
      ViewsCount(live[i].pages, machine.contents);
    }
    TakenIsOwned(machine.Maps(), machine.owner, live, Snapshot(machine, live).spaces);
  }

  /** What the tasks saw stays as it was where only fresh frames are written, or none. */
  lemma SeenStays(maps: map<TaskMm, map<nat, Page>>, live: seq<TaskMm>, o: map<nat, (TaskMm, nat)>, o': map<nat, (TaskMm, nat)>,
                  c: map<nat, Contents>, c': map<nat, Contents>)
    requires Lists(maps, live) && OwnerOk(maps, o) && o.Keys <= c.Keys && (Kept(o, c, o', c') || c' == c)
    ensures forall j | 0 <= j < |live| :: Views(maps[live[j]], c') == Views(maps[live[j]], c)
  {
    hide Kept, Views, OwnerOk;
    if Kept(o, c, o', c') {
      KeptViews(maps, o, o', c, c');
    }
  }

  lemma Noted(machine: Machine, live: seq<TaskMm>)
    requires Alive(machine, live)
    ensures OwnerOk(machine.Maps(), machine.owner) && machine.owner.Keys <= machine.contents.Keys && Lists(machine.Maps(), live)
    ensures forall j | 0 <= j < |live| :: machine.Maps()[live[j]] == live[j].pages
  {
    hide OwnerOk, TaskMm.Ok;
    machine.Recorded();
  }

  lemma AddedAt(was: seq<Space>, now: seq<Space>, t: Space)
    requires |now| == |was| + 1 && now[|was|] == t && forall j | 0 <= j < |was| :: now[j] == was[j]
    ensures now == was + [t]
  {
  }

  lemma OneReplaced(was: seq<Space>, now: seq<Space>, i: nat)
    requires |now| == |was| && i < |was| && forall j | 0 <= j < |was| && j != i :: now[j] == was[j]
    ensures now == was[i := now[i]]
  {
  }

  method StepLoad(machine: Machine, live: seq<TaskMm>, i: nat, start: nat, size: nat, w: bool) returns (ok: bool)
    requires Alive(machine, live) && i < |live| && start < 0x1_0000_0000 && size < 0x1_0000_0000
    modifies machine`contents, machine`owner, machine.pmm`lastAllocated, machine.pmm.words, live[i]
    ensures ok <==> Effect(Load(i, start, size, w), old(Snapshot(machine, live))).Some?
    ensures ok ==> Alive(machine, live) && Effect(Load(i, start, size, w), old(Snapshot(machine, live))) == Some(Snapshot(machine, live))
  {
    hide SpacesOf, Machine.Owned, TaskMm.Ok, Machine.FreeCount, Machine.Maps, Lists, Kept, Views, OwnerOk, Mapped, Unmapped, Stored, Loaded;
    FreeIsLeft(machine, live);
    Noted(machine, live);
    ghost var maps, o, c := machine.Maps(), machine.owner, machine.contents;
    ok := machine.LoadSegment(live[i], start, size, w);
    if ok {
      SeenStays(maps, live, o, machine.owner, c, machine.contents);
      OneReplaced(old(SpacesOf(machine, live)), SpacesOf(machine, live), i);
    }
  }

  method StepExtend(machine: Machine, live: seq<TaskMm>, i: nat, size: nat, arguments: bool) returns (ok: bool)
    requires Alive(machine, live) && i < |live| && size % PAGE == 0
    modifies machine`contents, machine`owner, machine.pmm`lastAllocated, machine.pmm.words, live[i]
    ensures ok <==> Effect(Extend(i, size, arguments), old(Snapshot(machine, live))).Some?
    ensures ok ==> Alive(machine, live) && Effect(Extend(i, size, arguments), old(Snapshot(machine, live))) == Some(Snapshot(machine, live))
  {
    hide SpacesOf, Machine.Owned, TaskMm.Ok, Machine.FreeCount, Machine.Maps, Lists, Kept, Views, OwnerOk, Mapped, Unmapped, Stored, Extended;
    FreeIsLeft(machine, live);
    Noted(machine, live);
    ghost var maps, o, c := machine.Maps(), machine.owner, machine.contents;
    ok := machine.ExtendBreak(live[i], size, arguments);
    if ok {
      SeenStays(maps, live, o, machine.owner, c, machine.contents);
      OneReplaced(old(SpacesOf(machine, live)), SpacesOf(machine, live), i);
    }
  }

  method StepBrk(machine: Machine, live: seq<TaskMm>, i: nat, delta: int) returns (ok: bool)
    requires Alive(machine, live) && i < |live| && -0x8000_0000 <= delta < 0x8000_0000
    modifies machine`contents, machine`owner, machine.pmm`lastAllocated, machine.pmm.words, live[i]
    ensures ok <==> Effect(Brk(i, delta), old(Snapshot(machine, live))).Some?
    ensures ok ==> Alive(machine, live) && Effect(Brk(i, delta), old(Snapshot(machine, live))) == Some(Snapshot(machine, live))
  {
    hide SpacesOf, Machine.Owned, TaskMm.Ok, Machine.FreeCount, Machine.Maps, Lists, Kept, Views, OwnerOk, Mapped, Unmapped, Stored, Broken, CanGrow, CutTo;
    FreeIsLeft(machine, live);
    Noted(machine, live);
    ghost var maps, o, c := machine.Maps(), machine.owner, machine.contents;
    var r := machine.Sbrk(live[i], delta);
    ok := r.Some?;
    if ok {
      SeenStays(maps, live, o, machine.owner, c, machine.contents);
      OneReplaced(old(SpacesOf(machine, live)), SpacesOf(machine, live), i);
    }
  }

  method StepFault(machine: Machine, live: seq<TaskMm>, i: nat, address: nat) returns (ok: bool)
    requires Alive(machine, live) && i < |live|
    modifies machine`contents, machine`owner, machine.pmm`lastAllocated, machine.pmm.words, live[i]
    ensures ok <==> Effect(Fault(i, address), old(Snapshot(machine, live))).Some?
    ensures ok ==> Alive(machine, live) && Effect(Fault(i, address), old(Snapshot(machine, live))) == Some(Snapshot(machine, live))
  {
    hide SpacesOf, Machine.Owned, TaskMm.Ok, Machine.FreeCount, Machine.Maps, Lists, Kept, Views, OwnerOk, Mapped, Unmapped, Stored, Pushed, StackGrown, StackCanGrow;
    FreeIsLeft(machine, live);
    Noted(machine, live);
    ghost var maps, o, c := machine.Maps(), machine.owner, machine.contents;
    ok := machine.GrowStack(live[i], address, true);
    if ok {
      SeenStays(maps, live, o, machine.owner, c, machine.contents);
      OneReplaced(old(SpacesOf(machine, live)), SpacesOf(machine, live), i);
    }
  }

  method StepCreate(machine: Machine, live: seq<TaskMm>) returns (ok: bool, now: seq<TaskMm>)
    requires Alive(machine, live)
    modifies machine`contents, machine`owner, machine`tasks, machine.pmm`lastAllocated, machine.pmm.words
    ensures ok <==> Effect(Create, old(Snapshot(machine, live))).Some?
    ensures ok ==> Alive(machine, now) && Effect(Create, old(Snapshot(machine, live))) == Some(Snapshot(machine, now))
    ensures ok ==> |now| == |live| + 1 && now[..|live|] == live && fresh(now[|live|])
  {
    hide SpacesOf, Machine.Owned, TaskMm.Ok, Machine.FreeCount, Machine.Maps, Lists, Kept, Views, OwnerOk, Created;
    FreeIsLeft(machine, live);
    Noted(machine, live);
    ghost var maps, o, c := machine.Maps(), machine.owner, machine.contents;
    var r := machine.CreateUser();
    ok, now := r.Some?, live;
    if ok {
      SeenStays(maps, live, o, machine.owner, c, machine.contents);
      assert SpacesOf(machine, live) == old(SpacesOf(machine, live));
      now := live + [r.value];
      AddedAt(old(SpacesOf(machine, live)), SpacesOf(machine, now), machine.SpaceOf(r.value));
    }
  }

  method StepFork(machine: Machine, live: seq<TaskMm>, i: nat) returns (ok: bool, now: seq<TaskMm>)
    requires Alive(machine, live) && i < |live|
    modifies machine`contents, machine`owner, machine`tasks, machine.pmm`lastAllocated, machine.pmm.words
    ensures ok <==> Effect(Fork(i), old(Snapshot(machine, live))).Some?
    ensures ok ==> Alive(machine, now) && Effect(Fork(i), old(Snapshot(machine, live))) == Some(Snapshot(machine, now))
    ensures ok ==> |now| == |live| + 1 && now[..|live|] == live && fresh(now[|live|])
  {
    hide SpacesOf, Machine.Owned, TaskMm.Ok, Machine.FreeCount, Machine.Maps, Lists, Kept, Views, OwnerOk, Forked, Copied;
    FreeIsLeft(machine, live);
    Noted(machine, live);
    ghost var maps, o, c := machine.Maps(), machine.owner, machine.contents;
    var r := machine.Clone(live[i]);
    ok, now := r.Some?, live;
    if ok {
      SeenStays(maps, live, o, machine.owner, c, machine.contents);
      assert SpacesOf(machine, live) == old(SpacesOf(machine, live));
      now := live + [r.value];
      AddedAt(old(SpacesOf(machine, live)), SpacesOf(machine, now), machine.SpaceOf(r.value));
    }
  }

  method StepExit(machine: Machine, live: seq<TaskMm>, i: nat) returns (now: seq<TaskMm>)
    requires Alive(machine, live) && i < |live|
    modifies machine`owner, machine`tasks, machine.pmm`lastAllocated, machine.pmm.words, live[i]
    ensures Alive(machine, now) && Effect(Exit(i), old(Snapshot(machine, live))) == Some(Snapshot(machine, now))
    ensures now == live[..i] + live[i + 1..]
  {
    hide SpacesOf, Machine.Owned, TaskMm.Ok, Machine.FreeCount, Views, OwnersBut;
    ghost var tasks, spaces := machine.tasks, SpacesOf(machine, live);
    machine.Destroy(live[i]);
    now := live[..i] + live[i + 1..];
    OneDropped(live, i, tasks);
    Survivors(machine, live, i, spaces);
  }

  /** The others are as they were. */
  lemma Survivors(machine: Machine, live: seq<TaskMm>, i: nat, spaces: seq<Space>)
    requires i < |live| == |spaces| && forall j | 0 <= j < |live| && j != i :: machine.SpaceOf(live[j]) == spaces[j]
    ensures SpacesOf(machine, live[..i] + live[i + 1..]) == spaces[..i] + spaces[i + 1..]
  {
    hide SpacesOf;
    var now := live[..i] + live[i + 1..];
    forall j | 0 <= j < |now|
      ensures SpacesOf(machine, now)[j] == (spaces[..i] + spaces[i + 1..])[j]
    {
      assert now[j] == live[if j < i then j else j + 1];
    }
  }

  lemma OneDropped(live: seq<TaskMm>, i: nat, tasks: set<TaskMm>)
    requires i < |live| && (forall j | 0 <= j < |live| :: live[j] in tasks) && (forall m | m in tasks :: m in live)
    requires forall j, k | 0 <= j < k < |live| :: live[j] != live[k]
    ensures var now := live[..i] + live[i + 1..];
            && (forall j | 0 <= j < |now| :: now[j] in tasks - {live[i]}) && (forall m | m in tasks - {live[i]} :: m in now)
            && (forall j, k | 0 <= j < k < |now| :: now[j] != now[k])
  {
    var now := live[..i] + live[i + 1..];
    forall m | m in tasks - {live[i]}
      ensures m in now
    {
      var j :| 0 <= j < |live| && live[j] == m;
      assert now[if j < i then j else j - 1] == m;
    }
  }

  method StepWrite(machine: Machine, live: seq<TaskMm>, i: nat, a: nat, c: Contents)
    requires Alive(machine, live) && i < |live|
    modifies machine`contents
    ensures Alive(machine, live) && Effect(Write(i, a, c), old(Snapshot(machine, live))) == Some(Snapshot(machine, live))
  {
    hide Machine.Owned, Machine.FreeCount, TaskMm.Ok, Views, OwnerOk, Written;
    var written := machine.Store(live[i], a, c);
    assert SpacesOf(machine, live) == old(SpacesOf(machine, live))[i := machine.SpaceOf(live[i])];
  }

  /** One operation does what it does to address spaces without frames, and panics exactly when it has no effect there. */
  method Step(machine: Machine, live: seq<TaskMm>, op: Op) returns (ok: bool, now: seq<TaskMm>)
    requires Alive(machine, live) && Possible(op, |live|)
    modifies machine`contents, machine`owner, machine`tasks, machine.pmm`lastAllocated, machine.pmm.words, machine.tasks
    ensures ok <==> Effect(op, old(Snapshot(machine, live))).Some?
    ensures ok ==> Alive(machine, now) && Effect(op, old(Snapshot(machine, live))) == Some(Snapshot(machine, now))
    ensures ok ==> forall m | m in machine.tasks && m !in old(machine.tasks) :: fresh(m)
  {
    hide Machine.Valid, Effect, Snapshot;
    now := live;
    match op
    case Create => ok, now := StepCreate(machine, live);
    case Load(i, start, size, w) => ok := StepLoad(machine, live, i, start, size, w);
    case Extend(i, size, arguments) => ok := StepExtend(machine, live, i, size, arguments);
    case Brk(i, delta) => ok := StepBrk(machine, live, i, delta);
    case Fault(i, address) => ok := StepFault(machine, live, i, address);
    case Fork(i) => ok, now := StepFork(machine, live, i);
    case Exit(i) =>
      now := StepExit(machine, live, i);
      ok := true;
    case Write(i, a, c) =>
      StepWrite(machine, live, i, a, c);
      ok := true;
  }

  /** Any run on any number of tasks does what it does to address spaces without frames, and panics exactly where that stops. Beneath,
      each frame in use is the kernel's or mapped exactly once. Operations that name no task alive do nothing. */
  method Run(machine: Machine, live: seq<TaskMm>, ops: seq<Op>) returns (ok: bool, now: seq<TaskMm>)
    requires Alive(machine, live)
    modifies machine`contents, machine`owner, machine`tasks, machine.pmm`lastAllocated, machine.pmm.words, machine.tasks
    ensures ok <==> Outcome(ops, old(Snapshot(machine, live))).Some?
    ensures ok ==> Alive(machine, now) && Outcome(ops, old(Snapshot(machine, live))) == Some(Snapshot(machine, now))
    ensures ok ==> forall m, a, n, b | m in machine.tasks && n in machine.tasks && a in m.pages && b in n.pages ::
                     m.pages[a].frame == n.pages[b].frame ==> m == n && a == b
    ensures ok ==> machine.pmm.Used() == machine.reserved + machine.owner.Keys
    ensures ok ==> |machine.owner| == Taken(SpacesOf(machine, now))
  {
    hide Machine.Owned, TaskMm.Ok, Effect, Snapshot, OwnerOk;
    ghost var s := Snapshot(machine, live);
    now := live;
    var k := 0;
    SnapshotSize(machine, live);
    assert ops[..0] == [];
    while k < |ops|
      invariant k <= |ops| && Alive(machine, now) && |Snapshot(machine, now).spaces| == |now|
      invariant Outcome(ops[..k], s) == Some(Snapshot(machine, now))
      invariant forall m | m in machine.tasks && m !in old(machine.tasks) :: fresh(m)
    {
      assert ops[..k + 1][..k] == ops[..k];
      if Possible(ops[k], |now|) {
        ok, now := Step(machine, now, ops[k]);
        if !ok {
          StoppedFor(ops, s, k + 1);
          return;
        }
        SnapshotSize(machine, now);
      }
      k := k + 1;
    }
    ok := true;
    assert ops[..k] == ops;
    Accounted(machine, now);
  }

  lemma SnapshotSize(machine: Machine, live: seq<TaskMm>)
    ensures |Snapshot(machine, live).spaces| == |live|
  {
  }

  /** A run that has stopped stays stopped. */
  lemma {:induction false} StoppedFor(ops: seq<Op>, s: State, k: nat)
    requires k <= |ops| && Outcome(ops[..k], s).None?
    ensures Outcome(ops, s).None?
  {
    hide Effect;
    if k == |ops| {
      assert ops[..k] == ops;
    } else {
      var front := ops[..|ops| - 1];
      assert front[..k] == ops[..k];
      StoppedFor(front, s, k);
    }
  }

  lemma Accounted(machine: Machine, live: seq<TaskMm>)
    requires Alive(machine, live)
    ensures forall m, a, n, b | m in machine.tasks && n in machine.tasks && a in m.pages && b in n.pages ::
              m.pages[a].frame == n.pages[b].frame ==> m == n && a == b
    ensures machine.pmm.Used() == machine.reserved + machine.owner.Keys && |machine.owner| == Taken(SpacesOf(machine, live))
  {
    hide OwnerOk, UsedIn, HintHolds, TaskMm.Ok, Machine.FreeCount;
    machine.Recorded();
    machine.FreeIs();
    FreeIsLeft(machine, live);
    forall m, a, n, b | m in machine.tasks && n in machine.tasks && a in m.pages && b in n.pages
      ensures m.pages[a].frame == n.pages[b].frame ==> m == n && a == b
    {
      FramesApart(machine, m, a, n, b);
    }
  }
}
