/** User address spaces without their frames: what a task can reach, page by page, and what each operation of
    src/kernel/vmm.c and src/kernel/elf.c makes of it. None stands for a panic or a failing assertion. */
module Spaces {
  import opened Options
  import opened FrameAllocators
  import opened AddressSpaces

  /** The bytes of one frame. */
  type Contents = seq<bv8>
  const ZEROS: Contents := Zeros(PAGE)

  function Zeros(n: nat): Contents {
    seq(n, _ => 0)
  }

  /** What a page table entry allows, and what is read through it. */
  datatype PageView = PageView(present: bool, rw: bool, guard: bool, bytes: Contents)

  datatype Space = Space(areas: seq<Area>, pages: map<nat, PageView>, brkStart: nat, brk: nat, initialBrk: nat, guardPage: nat) {
    function With(areas: seq<Area>, pages: map<nat, PageView>): Space {
      Space(areas, pages, brkStart, brk, initialBrk, guardPage)
    }
  }

  function ViewOf(p: Page, contents: map<nat, Contents>): PageView {
    PageView(p.present, p.rw, p.guard, if p.frame in contents then contents[p.frame] else [])
  }

  function Views(pages: map<nat, Page>, contents: map<nat, Contents>): map<nat, PageView> {
    map a | a in pages :: ViewOf(pages[a], contents)
  }

  lemma ViewsCount(pages: map<nat, Page>, contents: map<nat, Contents>)
    ensures |Views(pages, contents)| == |pages|
  {
    var r := Views(pages, contents);
    assert r.Keys == pages.Keys && |r| == |r.Keys| && |pages| == |pages.Keys|;
  }

  // ----- arithmetic

  function RoundDown(x: nat): nat {
    x - x % PAGE
  }

  function RoundUp(x: nat): nat {
    if x % PAGE == 0 then x else RoundDown(x) + PAGE
  }

  /** The new break as sbrk computes it, in 32 bits. */
  function GrownBreak(brk: nat, delta: nat): nat {
    var sum := U32(brk + delta);
    if sum % PAGE != 0 then U32(sum - sum % PAGE + PAGE) else sum
  }

  /** The same for a decrement, which wraps around below 0. */
  function ShrunkBreak(brk: nat, delta: nat): nat {
    U32(brk - RoundDown(delta))
  }

  /** End of a segment's pages, in 32 bits. */
  function SegmentEnd(start: nat, size: nat): (end: nat)
    ensures end % PAGE == 0 && end < 0x1_0000_0000
  {
    var end := U32(start + size);
    if end % PAGE != 0 then U32(end - end % PAGE + PAGE) else end
  }

  // ----- one address space

  /** The range lies in user space, none of its pages is mapped, and there are frames for it. */
  predicate CanAlloc(mapped: set<nat>, frames: int, start: nat, end: nat) {
    && start < end && start % PAGE == 0 && end % PAGE == 0 && USER_BASE <= start && end <= USER_TOP
    && (forall a | a in mapped :: !(start <= a < end))
    && (end - start) / PAGE <= frames
  }

  /** Zeroed pages that are present. */
  function Fresh(start: nat, end: nat, w: bool): map<nat, PageView> {
    map a: nat | start <= a < end && a % PAGE == 0 :: PageView(true, w, false, ZEROS)
  }

  /** vmm_alloc_user. */
  function Alloc(s: Space, frames: int, start: nat, end: nat, w: bool): Option<Space> {
    if CanAlloc(s.pages.Keys, frames, start, end)
    then Some(s.With(Stored(s.areas, start, end, w), s.pages + Fresh(start, end, w)))
    else None
  }

  function Without(pages: map<nat, PageView>, start: nat, end: nat): map<nat, PageView> {
    map a | a in pages && !(start <= a < end) :: pages[a]
  }

  /** One of the areas that the search looks at ends here. */
  predicate EndsUpTo(areas: seq<Area>, k: nat, end: nat) {
    exists i :: 0 <= i <= k && i < |areas| && areas[i].end == end
  }

  /** vmm_resize_area: the area that holds start gets a new end; nothing happens when there is none. */
  function Resize(s: Space, frames: int, start: nat, newEnd: nat): Option<Space> {
    var k := AreaAt(s.areas, start);
    if newEnd < U32(start + PAGE) || EndsUpTo(s.areas, k, newEnd) then None
    else if k == |s.areas| then Some(s)
    else if newEnd > s.areas[k].end then Alloc(s, frames, s.areas[k].end, newEnd, s.areas[k].writable)
    else Some(s.With(Cut(s.areas, k, newEnd), Without(s.pages, newEnd, s.areas[k].end)))
  }

  /** sbrk with a positive number. */
  function Grow(s: Space, frames: int, delta: nat): Option<Space> {
    var newEnd := GrownBreak(s.brk, delta);
    if newEnd >= STACK_FLOOR then None
    else match Alloc(s, frames, s.brk, newEnd, true)
      case None => None
      case Some(t) => Some(t.(brk := newEnd))
  }

  /** sbrk with a negative number of at least a page. */
  function Shrink(s: Space, frames: int, delta: nat): Option<Space> {
    var newEnd := ShrunkBreak(s.brk, delta);
    if newEnd < s.initialBrk then None
    else match Resize(s, frames, s.brkStart, newEnd)
      case None => None
      case Some(t) => Some(t.(brk := newEnd))
  }

  function Broken(s: Space, frames: int, delta: int): Option<Space> {
    if delta > 0 then Grow(s, frames, delta) else if -delta < PAGE then Some(s) else Shrink(s, frames, -delta)
  }

  /** _vmm_set_guard: a page changes between present and guard. */
  function Flagged(pages: map<nat, PageView>, a: nat, guard: bool): Option<map<nat, PageView>> {
    if a in pages && pages[a].present == guard && pages[a].guard == !guard
    then Some(pages[a := pages[a].(present := !guard, guard := guard)])
    else None
  }

  /** The guard moves from one page to another. */
  function MovedFlags(pages: map<nat, PageView>, from: nat, to: nat): Option<map<nat, PageView>> {
    match Flagged(pages, from, false)
    case None => None
    case Some(cleared) => Flagged(cleared, to, true)
  }

  /** New pages below the stack, the lowest of which becomes the guard. */
  function PushedTo(s: Space, frames: int, start: nat, end: nat): Option<Space> {
    match Alloc(s, frames, start, end, true)
    case None => None
    case Some(t) =>
      match MovedFlags(t.pages, end, start)
      case None => None
      case Some(pages) => Some(t.(pages := pages, guardPage := start))
  }

  /** The page fault handler, in 32 bits. */
  function Pushed(s: Space, frames: int, fault: nat): Option<Space> {
    var oldSize := U32(STACK_TOP - s.guardPage - PAGE);
    var newSize := U32(oldSize + STACK_GROWTH);
    if !(s.guardPage <= fault <= s.guardPage + PAGE) || oldSize % PAGE != 0 || newSize % PAGE != 0 || newSize >= STACK_MAX then None
    else PushedTo(s, frames, U32(STACK_TOP - (newSize + PAGE)), U32(STACK_TOP - (oldSize + PAGE)))
  }

  const NOTHING := Space([], map[], 0, 0, 0, 0)
  const STACK_LOW := STACK_TOP - (STACK_INITIAL + PAGE)

  /** vmm_create_user_mm: a stack with its guard page. */
  function Created(frames: int): Option<Space> {
    match Alloc(NOTHING, frames, STACK_LOW, STACK_TOP + PAGE, true)
    case None => None
    case Some(s) =>
      match Flagged(s.pages, STACK_LOW, true)
      case None => None
      case Some(pages) => Some(s.(pages := pages, guardPage := STACK_LOW))
  }

  /** A segment of a program. */
  function Loaded(s: Space, frames: int, start: nat, size: nat, w: bool): Option<Space> {
    var end := SegmentEnd(start, size);
    Alloc(if end > s.brkStart then s.(brkStart := end, brk := end) else s, frames, RoundDown(start), end, w)
  }

  /** The loader's allocations at the break: the C library's state, then the arguments. */
  function Extended(s: Space, frames: int, size: nat, arguments: bool): Option<Space> {
    var at := if arguments then s.brkStart else s.brk;
    match Alloc(s, frames, at, U32(at + size), true)
    case None => None
    case Some(t) =>
      var brk, brkStart := U32(s.brk + size), U32(s.brkStart + size);
      if arguments then Some(t.(brk := brk, brkStart := brkStart))
      else if brk != brkStart then None
      else Some(t.(brk := brk, brkStart := brkStart, initialBrk := brkStart))
  }

  /** vmm_clone_mm: areas and pages are copied, and nothing else. */
  function Forked(s: Space, frames: int): Option<Space> {
    if |s.pages| <= frames then Some(Space(s.areas, s.pages, 0, 0, 0, 0)) else None
  }

  /** A write by the program itself, where the page allows it. */
  function Written(s: Space, a: nat, c: Contents): Space {
    if a in s.pages && s.pages[a].present && s.pages[a].rw then s.(pages := s.pages[a := s.pages[a].(bytes := c)]) else s
  }

  // ----- all of them

  /** The address spaces alive, and how many frames there are for all of them together. */
  datatype State = State(spaces: seq<Space>, frames: int)

  function Taken(spaces: seq<Space>): nat {
    if spaces == [] then 0 else Taken(spaces[..|spaces| - 1]) + |spaces[|spaces| - 1].pages|
  }

  function Free(s: State): int {
    s.frames - Taken(s.spaces)
  }

  /** What can happen to address spaces; one is named by its place among those alive. */
  datatype Op =
    | Create
    | Load(task: nat, start: nat, size: nat, writable: bool)
    | Extend(task: nat, size: nat, arguments: bool)
    | Brk(task: nat, delta: int)
    | Fault(task: nat, address: nat)
    | Fork(task: nat)
    | Exit(task: nat)
    | Write(task: nat, address: nat, bytes: Contents)

  predicate Possible(op: Op, alive: nat) {
    match op
    case Create => true
    case Load(i, start, size, w) => i < alive && start < 0x1_0000_0000 && size < 0x1_0000_0000
    case Extend(i, size, _) => i < alive && size % PAGE == 0
    case Brk(i, delta) => i < alive && -0x8000_0000 <= delta < 0x8000_0000
    case _ => op.task < alive
  }

  function Replaced(s: State, i: nat, r: Option<Space>): Option<State>
    requires i < |s.spaces|
  {
    match r
    case None => None
    case Some(t) => Some(s.(spaces := s.spaces[i := t]))
  }

  function Added(s: State, r: Option<Space>): Option<State> {
    match r
    case None => None
    case Some(t) => Some(s.(spaces := s.spaces + [t]))
  }

  /** What an operation does. */
  function Effect(op: Op, s: State): Option<State>
    requires Possible(op, |s.spaces|)
  {
    match op
    case Create => Added(s, Created(Free(s)))
    case Load(i, start, size, w) => Replaced(s, i, Loaded(s.spaces[i], Free(s), start, size, w))
    case Extend(i, size, arguments) => Replaced(s, i, Extended(s.spaces[i], Free(s), size, arguments))
    case Brk(i, delta) => Replaced(s, i, Broken(s.spaces[i], Free(s), delta))
    case Fault(i, address) => Replaced(s, i, Pushed(s.spaces[i], Free(s), address))
    case Fork(i) => Added(s, Forked(s.spaces[i], Free(s)))
    case Exit(i) => Some(s.(spaces := s.spaces[..i] + s.spaces[i + 1..]))
    case Write(i, a, c) => Replaced(s, i, Some(Written(s.spaces[i], a, c)))
  }

  /** What a sequence of operations does; those that name no task alive do nothing. */
  function Outcome(ops: seq<Op>, s: State): Option<State> {
    if ops == [] then Some(s)
    else match Outcome(ops[..|ops| - 1], s)
      case None => None
      case Some(t) => var op := ops[|ops| - 1]; if Possible(op, |t.spaces|) then Effect(op, t) else Some(t)
  }
}
