/** The area list and the page map of one address space (src/kernel/vmm.c), as values. */
module AddressSpaces {
  import opened FrameAllocators

  /** User space; the page tables outside it belong to the kernel. */
  const USER_BASE := 0x1000_0000
  const USER_TOP := 0xc000_0000

  /** What the source keeps of a page table entry, apart from bits nothing reads. */
  datatype Page = Page(frame: nat, present: bool, rw: bool, guard: bool)

  /** Pages [start, end). */
  datatype Area = Area(start: nat, end: nat, writable: bool) {
    predicate Covers(a: nat) {
      start <= a < end
    }

    predicate Ok() {
      start < end && start % PAGE == 0 && end % PAGE == 0 && USER_BASE <= start && end <= USER_TOP
    }
  }

  ghost predicate AreasOk(areas: seq<Area>) {
    && (forall i | 0 <= i < |areas| :: areas[i].Ok())
    && (forall i, j | 0 <= i < j < |areas| :: areas[i].end <= areas[j].start || areas[j].end <= areas[i].start)
  }

  /** Some area grants access of this kind to this address. */
  ghost predicate Grants(areas: seq<Area>, a: nat, w: bool) {
    exists i :: 0 <= i < |areas| && areas[i].Covers(a) && areas[i].writable == w
  }

  ghost predicate Covered(areas: seq<Area>, a: nat) {
    exists i :: 0 <= i < |areas| && areas[i].Covers(a)
  }

  /** The pages mapped are exactly those of the areas, each with its area's access right. */
  ghost predicate MapOk(areas: seq<Area>, pages: map<nat, Page>) {
    AreasOk(areas) && RightsOk(areas, pages) && FlagsOk(pages)
  }

  ghost predicate RightsOk(areas: seq<Area>, pages: map<nat, Page>) {
    && (forall a | a in pages :: a % PAGE == 0)
    && (forall a: nat, w: bool | a % PAGE == 0 :: (a in pages && pages[a].rw == w) <==> Grants(areas, a, w))
  }

  ghost predicate FlagsOk(pages: map<nat, Page>) {
    forall a | a in pages :: pages[a].present == !pages[a].guard
  }

  lemma MapAt(areas: seq<Area>, pages: map<nat, Page>, a: nat, w: bool)
    requires MapOk(areas, pages)
    ensures (a in pages && pages[a].rw == w) <==> (a % PAGE == 0 && Grants(areas, a, w))
  {
  }

  ghost predicate InRange(a: nat, start: nat, end: nat) {
    start <= a < end && a % PAGE == 0
  }

  /** An area that ends at the new one's start, or starts at its end, with the same access right. */
  predicate Adjoins(area: Area, start: nat, end: nat, w: bool) {
    area.writable == w && (area.start == end || area.end == start)
  }

  /** The overlap test that panics. It misses a new area around an old one. */
  predicate Clashes(area: Area, start: nat, end: nat) {
    area.Covers(start) || area.start < end < area.end
  }

  /** Index of the first area that adjoins a new one, or the number of areas. */
  function FirstAdjoining(areas: seq<Area>, start: nat, end: nat, w: bool): (k: nat)
    ensures k <= |areas|
    ensures k < |areas| ==> Adjoins(areas[k], start, end, w)
    ensures forall i | 0 <= i < k :: !Adjoins(areas[i], start, end, w)
  {
    if areas == [] then 0
    else if Adjoins(areas[0], start, end, w) then 0
    else 1 + FirstAdjoining(areas[1..], start, end, w)
  }

  /** The list after a new area is stored: the first adjoining area is extended, towards lower addresses if it can be
      either way; else the area is appended. */
  function Stored(areas: seq<Area>, start: nat, end: nat, w: bool): seq<Area> {
    var k := FirstAdjoining(areas, start, end, w);
    if k == |areas| then areas + [Area(start, end, w)]
    else if areas[k].start == end then areas[k := areas[k].(start := start)]
    else areas[k := areas[k].(end := end)]
  }

  /** No page of the range is covered. */
  ghost predicate Vacant(areas: seq<Area>, start: nat, end: nat) {
    forall a: nat | InRange(a, start, end) :: !Covered(areas, a)
  }

  lemma VacantApart(areas: seq<Area>, start: nat, end: nat, i: int)
    requires AreasOk(areas) && Vacant(areas, start, end) && 0 <= i < |areas|
    requires start < end && start % PAGE == 0 && end % PAGE == 0
    ensures areas[i].end <= start || end <= areas[i].start
    ensures !Clashes(areas[i], start, end)
  {
    if start < areas[i].end && areas[i].start < end {
      var a := if start <= areas[i].start then areas[i].start else start;
      assert InRange(a, start, end) && areas[i].Covers(a);
    }
  }

  /** The list changes in one place only, where the area grows by the new range. */
  lemma StoredAt(areas: seq<Area>, start: nat, end: nat, w: bool, i: nat)
    requires i < |Stored(areas, start, end, w)|
    ensures var now := Stored(areas, start, end, w);
            var k := FirstAdjoining(areas, start, end, w);
            && |now| == (if k == |areas| then k + 1 else |areas|)
            && (i != k ==> i < |areas| && now[i] == areas[i])
            && (i == k == |areas| ==> now[i] == Area(start, end, w))
            && (i == k < |areas| ==>
                  (now[i].writable == w == areas[i].writable
                   && ((areas[i].start == end && now[i].start == start && now[i].end == areas[i].end)
                       || (areas[i].end == start && now[i].end == end && now[i].start == areas[i].start))))
  {
  }

  lemma StoredGrantsAt(areas: seq<Area>, start: nat, end: nat, w: bool, a: nat, v: bool)
    requires AreasOk(areas) && Area(start, end, w).Ok()
    ensures Grants(Stored(areas, start, end, w), a, v) <==> Grants(areas, a, v) || (start <= a < end && v == w)
  {
    hide FirstAdjoining, Stored;
    var k := FirstAdjoining(areas, start, end, w);
    var now := Stored(areas, start, end, w);
    if Grants(areas, a, v) {
      var i :| 0 <= i < |areas| && areas[i].Covers(a) && areas[i].writable == v;
      StoredLength(areas, start, end, w);
      StoredAt(areas, start, end, w, i);
      assert now[i].Covers(a) && now[i].writable == v;
    }
    if start <= a < end {
      StoredLength(areas, start, end, w);
      StoredAt(areas, start, end, w, k);
      assert now[k].Covers(a) && now[k].writable == w;
    }
    if Grants(now, a, v) {
      var i :| 0 <= i < |now| && now[i].Covers(a) && now[i].writable == v;
      StoredAt(areas, start, end, w, i);
      assert i < |areas| && areas[i].Covers(a) ==> Grants(areas, a, v) || (start <= a < end && v == w);
    }
  }

  lemma StoredLength(areas: seq<Area>, start: nat, end: nat, w: bool)
    ensures |areas| <= |Stored(areas, start, end, w)| && FirstAdjoining(areas, start, end, w) < |Stored(areas, start, end, w)|
  {
  }

  lemma StoredApart(areas: seq<Area>, start: nat, end: nat, w: bool)
    requires AreasOk(areas) && Vacant(areas, start, end) && Area(start, end, w).Ok()
    ensures AreasOk(Stored(areas, start, end, w))
  {
    hide FirstAdjoining, Stored, Vacant;
    var now := Stored(areas, start, end, w);
    forall i | 0 <= i < |areas|
      ensures areas[i].end <= start || end <= areas[i].start
    {
      VacantApart(areas, start, end, i);
    }
    forall i | 0 <= i < |now|
      ensures now[i].Ok()
    {
      StoredAt(areas, start, end, w, i);
    }
    forall i, j | 0 <= i < j < |now|
      ensures now[i].end <= now[j].start || now[j].end <= now[i].start
    {
      StoredAt(areas, start, end, w, i);
      StoredAt(areas, start, end, w, j);
    }
  }

  /** Storing an area over vacant pages adds exactly those pages, and keeps the areas apart. */
  lemma StoredGrants(areas: seq<Area>, start: nat, end: nat, w: bool)
    requires AreasOk(areas) && Vacant(areas, start, end) && Area(start, end, w).Ok()
    ensures AreasOk(Stored(areas, start, end, w))
    ensures forall a: nat, v: bool ::
              Grants(Stored(areas, start, end, w), a, v) <==> Grants(areas, a, v) || (start <= a < end && v == w)
  {
    hide *;
    StoredApart(areas, start, end, w);
    forall a: nat, v: bool
      ensures Grants(Stored(areas, start, end, w), a, v) <==> Grants(areas, a, v) || (start <= a < end && v == w)
    {
      StoredGrantsAt(areas, start, end, w, a, v);
    }
  }

  /** Index of the area that contains an address, or the number of areas. */
  function AreaAt(areas: seq<Area>, a: nat): (k: nat)
    ensures k <= |areas|
    ensures k < |areas| ==> areas[k].Covers(a)
    ensures forall i | 0 <= i < k :: !areas[i].Covers(a)
  {
    if areas == [] then 0 else if areas[0].Covers(a) then 0 else 1 + AreaAt(areas[1..], a)
  }

  /** The list with one area cut short. */
  function Cut(areas: seq<Area>, k: nat, end: nat): (r: seq<Area>)
    requires k < |areas|
  {
    areas[k := Area(areas[k].start, end, areas[k].writable)]
  }

  /** Cutting an area short takes away exactly the pages from its new end on. */
  lemma CutGrants(areas: seq<Area>, k: nat, end: nat, a: nat, v: bool)
    requires AreasOk(areas) && k < |areas| && areas[k].start < end <= areas[k].end
    ensures Grants(Cut(areas, k, end), a, v) <==> Grants(areas, a, v) && !(end <= a < areas[k].end)
  {
    var now := Cut(areas, k, end);
    if Grants(areas, a, v) && !(end <= a < areas[k].end) {
      var i :| 0 <= i < |areas| && areas[i].Covers(a) && areas[i].writable == v;
      assert now[i].Covers(a) && now[i].writable == v;
    }
    if Grants(now, a, v) {
      var i :| 0 <= i < |now| && now[i].Covers(a) && now[i].writable == v;
      assert areas[i].Covers(a) && areas[i].writable == v;
      assert i != k ==> areas[i].end <= areas[k].start || areas[k].end <= areas[i].start;
    }
  }

  lemma CutApart(areas: seq<Area>, k: nat, end: nat)
    requires AreasOk(areas) && k < |areas| && areas[k].start < end <= areas[k].end && end % PAGE == 0
    ensures AreasOk(Cut(areas, k, end))
  {
    assert areas[k].Ok();
  }

  /** A covered page is granted by the area that covers it. */
  lemma CoveredGrants(areas: seq<Area>, a: nat)
    ensures Covered(areas, a) <==> Grants(areas, a, true) || Grants(areas, a, false)
  {
    if Covered(areas, a) {
      var i :| 0 <= i < |areas| && areas[i].Covers(a);
      assert Grants(areas, a, areas[i].writable);
    }
  }

  lemma MappedIsCovered(areas: seq<Area>, pages: map<nat, Page>, a: nat)
    requires MapOk(areas, pages)
    ensures a in pages <==> a % PAGE == 0 && Covered(areas, a)
  {
    CoveredGrants(areas, a);
    if a in pages {
      assert Grants(areas, a, pages[a].rw);
    }
  }

  /** Mapping the pages of a range and storing its area keep pages and areas in step. */
  lemma StoredMaps(areas: seq<Area>, pages: map<nat, Page>, now: map<nat, Page>, start: nat, end: nat, w: bool)
    requires MapOk(areas, pages) && Area(start, end, w).Ok()
    requires forall a | InRange(a, start, end) :: a !in pages
    requires forall a: nat :: a in now <==> a in pages || InRange(a, start, end)
    requires forall a | a in pages :: now[a] == pages[a]
    requires forall a | InRange(a, start, end) && a in now :: now[a].rw == w && now[a].present && !now[a].guard
    ensures Vacant(areas, start, end) && MapOk(Stored(areas, start, end, w), now)
  {
    hide Grants, Covered, Stored, AreasOk;
    forall a: nat | InRange(a, start, end)
      ensures !Covered(areas, a)
    {
      MappedIsCovered(areas, pages, a);
    }
    StoredGrants(areas, start, end, w);
    forall a: nat, v: bool | a % PAGE == 0
      ensures (a in now && now[a].rw == v) <==> Grants(Stored(areas, start, end, w), a, v)
    {
      MapAt(areas, pages, a, v);
      assert a in now ==> a in pages || InRange(a, start, end);
    }
  }

  /** Unmapping the end of an area and moving its end keep them in step, too. */
  lemma CutMaps(areas: seq<Area>, pages: map<nat, Page>, cut: seq<Area>, now: map<nat, Page>, k: nat, end: nat)
    requires MapOk(areas, pages)
    requires k < |areas| && areas[k].start < end <= areas[k].end && end % PAGE == 0
    requires cut == Cut(areas, k, end)
    requires forall a: nat :: a in now <==> a in pages && !InRange(a, end, areas[k].end)
    requires forall a | a in now :: now[a] == pages[a]
    ensures MapOk(cut, now)
  {
    CutApart(areas, k, end);
    hide Grants, AreasOk;
    forall a: nat, v: bool | a % PAGE == 0
      ensures (a in now && now[a].rw == v) <==> Grants(cut, a, v)
    {
      CutGrants(areas, k, end, a, v);
      MapAt(areas, pages, a, v);
    }
  }

  // ----- the stack and the heap of a task

  /** Address of the topmost stack page. */
  const STACK_TOP := 0xbfff_f000
  const STACK_INITIAL := 0x1_0000
  const STACK_MAX := 0x80_0000
  const STACK_GROWTH := 0x2_0000
  /** The stack and its guard page stay above this, the heap below. */
  const STACK_FLOOR := STACK_TOP - STACK_MAX

  ghost predicate StackAt(areas: seq<Area>, guardPage: nat, i: int) {
    0 <= i < |areas| && areas[i] == Area(guardPage, STACK_TOP + PAGE, true)
  }

  /** The stack is one area whose lowest page is the task's only guard page, between the limits the fault handler keeps. */
  ghost predicate StackOk(areas: seq<Area>, pages: map<nat, Page>, guardPage: nat) {
    && STACK_FLOOR < guardPage < STACK_TOP && (STACK_TOP - PAGE - guardPage) % STACK_GROWTH == STACK_INITIAL
    && (exists i :: StackAt(areas, guardPage, i))
    && (forall a | a in pages :: pages[a].guard <==> a == guardPage)
  }

  /** Below the stack all areas end by the break, and the pages from the start of the heap to the break are one writable area. */
  ghost predicate HeapOk(areas: seq<Area>, guardPage: nat, brkStart: nat, brk: nat) {
    && brkStart <= brk <= STACK_FLOOR && brk % PAGE == 0 && brkStart % PAGE == 0
    && (forall i | 0 <= i < |areas| :: areas[i].start == guardPage || areas[i].end <= brk)
    && (brkStart < brk ==> exists i :: HeapAt(areas, brkStart, brk, i))
  }

  ghost predicate HeapAt(areas: seq<Area>, brkStart: nat, brk: nat, i: int) {
    0 <= i < |areas| && areas[i].start <= brkStart && areas[i].end == brk && areas[i].writable
  }

  /** Growing the heap at the break keeps it one area: no other area can adjoin the new pages. */
  lemma HeapGrows(areas: seq<Area>, guardPage: nat, brkStart: nat, brk: nat, end: nat)
    requires AreasOk(areas) && HeapOk(areas, guardPage, brkStart, brk) && STACK_FLOOR < guardPage
    requires brk < end <= STACK_FLOOR && end % PAGE == 0
    ensures HeapOk(Stored(areas, brk, end, true), guardPage, brkStart, end)
  {
    hide FirstAdjoining, Stored;
    var k := FirstAdjoining(areas, brk, end, true);
    var now := Stored(areas, brk, end, true);
    StoredLength(areas, brk, end, true);
    forall i | 0 <= i < |now|
      ensures now[i].start == guardPage || now[i].end <= end
    {
      StoredAt(areas, brk, end, true, i);
    }
    StoredAt(areas, brk, end, true, k);
    if brkStart < brk {
      var h :| HeapAt(areas, brkStart, brk, h);
      assert Adjoins(areas[h], brk, end, true);
      assert k == h;
    }
    assert HeapAt(now, brkStart, end, k);
  }

  /** Storing an area below the break, or one that ends at it, disturbs neither heap nor stack. */
  lemma StackStays(areas: seq<Area>, pages: map<nat, Page>, now: map<nat, Page>, guardPage: nat, start: nat, end: nat, w: bool)
    requires StackOk(areas, pages, guardPage) && start < end <= STACK_FLOOR
    requires forall a | a in now :: now[a].guard <==> a == guardPage
    ensures StackOk(Stored(areas, start, end, w), now, guardPage)
  {
    hide FirstAdjoining, Stored;
    var i :| StackAt(areas, guardPage, i);
    StoredLength(areas, start, end, w);
    StoredAt(areas, start, end, w, i);
    assert StackAt(Stored(areas, start, end, w), guardPage, i);
  }

  /** The stack area is the one that grows towards lower addresses. */
  lemma StackGrows(areas: seq<Area>, guardPage: nat, start: nat, brkStart: nat, brk: nat)
    requires AreasOk(areas) && HeapOk(areas, guardPage, brkStart, brk) && STACK_FLOOR < start < guardPage
    requires exists i :: StackAt(areas, guardPage, i)
    ensures exists i :: StackAt(Stored(areas, start, guardPage, true), start, i)
    ensures HeapOk(Stored(areas, start, guardPage, true), start, brkStart, brk)
  {
    hide FirstAdjoining, Stored;
    var k := FirstAdjoining(areas, start, guardPage, true);
    var now := Stored(areas, start, guardPage, true);
    StoredLength(areas, start, guardPage, true);
    var s :| StackAt(areas, guardPage, s);
    assert Adjoins(areas[s], start, guardPage, true);
    assert k == s;
    StoredAt(areas, start, guardPage, true, k);
    assert StackAt(now, start, k);
    forall i | 0 <= i < |now|
      ensures now[i].start == start || now[i].end <= brk
    {
      StoredAt(areas, start, guardPage, true, i);
    }
    if brkStart < brk {
      var h :| HeapAt(areas, brkStart, brk, h);
      StoredAt(areas, start, guardPage, true, h);
      assert HeapAt(now, brkStart, brk, h);
    }
  }

  /** The heap's area is the one resizing finds, and cutting it short keeps the rest. */
  lemma HeapShrinks(areas: seq<Area>, guardPage: nat, brkStart: nat, brk: nat, end: nat)
    requires AreasOk(areas) && HeapOk(areas, guardPage, brkStart, brk) && STACK_FLOOR < guardPage
    requires brkStart < end < brk && end % PAGE == 0
    ensures var k := AreaAt(areas, brkStart);
            && k < |areas| && areas[k].end == brk && areas[k].start <= brkStart
            && (forall i | 0 <= i < k :: areas[i].end != end)
            && HeapOk(Cut(areas, k, end), guardPage, brkStart, end)
  {
    var k := AreaAt(areas, brkStart);
    var h :| HeapAt(areas, brkStart, brk, h);
    assert areas[h].Covers(brkStart) && k == h;
    var now := Cut(areas, k, end);
    assert HeapAt(now, brkStart, end, k);
    forall i | 0 <= i < |now|
      ensures now[i].start == guardPage || now[i].end <= end
    {
      assert i != k ==> areas[i].end <= areas[k].start || areas[k].end <= areas[i].start;
    }
  }

  /** Cutting the heap short leaves the stack alone. */
  lemma StackKept(areas: seq<Area>, pages: map<nat, Page>, now: map<nat, Page>, guardPage: nat, k: nat, end: nat)
    requires StackOk(areas, pages, guardPage) && k < |areas| && areas[k].end <= STACK_FLOOR
    requires forall a | a in now :: a in pages && now[a] == pages[a]
    ensures StackOk(Cut(areas, k, end), now, guardPage)
  {
    var i :| StackAt(areas, guardPage, i);
    assert StackAt(Cut(areas, k, end), guardPage, i);
  }
}
