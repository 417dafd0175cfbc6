/** What clients of the kernel heap can rely on, over whole runs of allocations, releases and stores. */
module HeapClient {
  import opened Options
  import opened Tiling
  import opened HeapMemory
  import opened HeapSteps
  import opened Heaps

  /** A pointer that was handed out and the number of bytes its owner asked for. */
  datatype Grant = Grant(p: int, size: int)

  datatype Request =
    | Get(size: int, pageAlign: bool)
    | Put(which: nat)
    | Write(which: nat, offset: int, value: int)

  /** The grant's bytes lie between the header and the footer of a used area, the one its pointer is for. */
  ghost predicate HeldBy(a: Area, g: Grant) {
    a.kind.Used? && Pointer(a.start) == g.p && 0 <= g.size && g.p + g.size <= a.End() - FOOTER
  }

  ghost predicate Holds(areas: seq<Area>, g: Grant) {
    exists n :: 0 <= n < |areas| && HeldBy(areas[n], g)
  }

  lemma HoldsAt(areas: seq<Area>, n: nat, g: Grant)
    requires n < |areas| && HeldBy(areas[n], g)
    ensures Holds(areas, g)
  {
  }

  lemma CarvedHolds(was: seq<Area>, hole: nat, lead: int, gross: int, g: Grant)
    requires hole < |was| && was[hole].kind.Free? && 0 <= lead && (hole == 0 ==> lead == 0 || lead > OVERHEAD)
    requires Holds(was, g)
    ensures Holds(Carved(was, hole, lead, gross), g)
  {
    CarvedSurroundings(was, hole, lead, gross);
    var carved, placed := Carved(was, hole, lead, gross), Placed(was[hole].start + lead, was[hole].size - lead, gross);
    hide Carved, Placed, CarvedAround;
    var n :| 0 <= n < |was| && HeldBy(was[n], g);
    AroundHolds(was, carved, hole, lead, placed, n, g);
  }

  lemma AroundHolds(was: seq<Area>, carved: seq<Area>, hole: nat, lead: int, placed: seq<Area>, n: nat, g: Grant)
    requires hole < |was| && 0 <= lead && (hole == 0 ==> lead == 0 || lead > OVERHEAD)
    requires CarvedAround(was, carved, hole, lead, placed)
    requires n < |was| && n != hole && HeldBy(was[n], g)
    ensures Holds(carved, g)
  {
    var u := UsedAt(hole, lead);
    if n < hole {
      assert carved[n] == carved[..u][n];
      HoldsAt(carved, n, g);
    } else {
      var back := carved[u + |placed|..];
      assert back[n - hole - 1] == was[hole + 1..][n - hole - 1] == was[n];
      assert back[n - hole - 1] == carved[u + |placed| + n - hole - 1];
      HoldsAt(carved, u + |placed| + n - hole - 1, g);
    }
  }

  lemma GrownHolds(areas: seq<Area>, extra: int, g: Grant)
    requires |areas| > 0 && Holds(areas, g)
    ensures Holds(Grown(areas, extra), g)
  {
    var n :| 0 <= n < |areas| && HeldBy(areas[n], g);
    HoldsAt(Grown(areas, extra), n, g);
  }

  lemma ShrunkHolds(areas: seq<Area>, end: int, g: Grant)
    requires |areas| > 0 && Holds(areas, g)
    ensures Holds(Shrunk(areas, end), g)
  {
    var n :| 0 <= n < |areas| && HeldBy(areas[n], g);
    HoldsAt(Shrunk(areas, end), n, g);
  }

  lemma CoalescedHolds(areas: seq<Area>, i: nat, g: Grant)
    requires i < |areas| && Holds(areas, g) && Pointer(areas[i].start) != g.p
    ensures Holds(Coalesced(areas, i), g)
  {
    var n :| 0 <= n < |areas| && HeldBy(areas[n], g);
    var l, r := i - FreeLeft(areas, i), i + 1 + FreeRight(areas, i);
    if n < l {
      HoldsAt(Coalesced(areas, i), n, g);
    } else {
      assert n >= r;
      HoldsAt(Coalesced(areas, i), n - r + l + 1, g);
    }
  }

  /** Two grants never share a byte. */
  lemma GrantsDisjoint(areas: seq<Area>, lo: int, hi: int, g: Grant, h: Grant)
    requires Tiled(areas, lo, hi) && Holds(areas, g) && Holds(areas, h) && g.p != h.p
    ensures g.p + g.size <= h.p || h.p + h.size <= g.p
  {
    AllOrdered(areas, lo, hi);
    var n :| 0 <= n < |areas| && HeldBy(areas[n], g);
    var k :| 0 <= k < |areas| && HeldBy(areas[k], h);
    assert n != k;
  }

  /** A new allocation's pointer is not one that is still held. */
  lemma NewPointer(was: seq<Area>, lo: int, hi: int, hole: nat, lead: int, g: Grant)
    requires Tiled(was, lo, hi) && hole < |was| && was[hole].kind.Free? && 0 <= lead && was[hole].size - lead > OVERHEAD
    requires Holds(was, g)
    ensures Pointer(was[hole].start + lead) != g.p
  {
    AllOrdered(was, lo, hi);
    var n :| 0 <= n < |was| && HeldBy(was[n], g);
    assert n != hole;
  }

  // ----- runs

  ghost predicate Apart(live: seq<Grant>) {
    forall j, k | 0 <= j < k < |live| :: live[j].p != live[k].p
  }

  /** Address a is a word inside one of the grants. */
  ghost predicate Owned(live: seq<Grant>, a: int) {
    exists k :: 0 <= k < |live| && live[k].p <= a && a + 4 <= live[k].p + live[k].size
  }

  /** The state of a run: the grants are held, and what was written and not released is what the heap keeps. */
  ghost predicate Kept(areas: seq<Area>, data: Memory, live: seq<Grant>, written: Memory) {
    && (forall k | 0 <= k < |live| :: Holds(areas, live[k]))
    && Apart(live)
    && (forall a | a in written :: Owned(live, a) && a in data && data[a] == written[a])
  }

  lemma KeptAfterGet(was: seq<Area>, grown: seq<Area>, extra: int, end: int, areas: seq<Area>, data: Memory, live: seq<Grant>, written: Memory,
                     hole: nat, lead: int, gross: int, g: Grant)
    requires Kept(was, data, live, written) && |was| > 0
    requires grown == Grown(was, extra)
    requires Tiled(grown, HEAP_BASE, end) && hole < |grown| && grown[hole].kind.Free? && grown[hole].size - lead > OVERHEAD
    requires 0 <= lead && (hole == 0 ==> lead == 0 || lead > OVERHEAD) && areas == Carved(grown, hole, lead, gross)
    requires Holds(areas, g) && g.p == Pointer(grown[hole].start + lead)
    ensures Kept(areas, data, live + [g], written)
  {
    hide Carved, Grown, Tiled, Pointer, Holds;
    var live' := live + [g];
    forall k | 0 <= k < |live|
      ensures Holds(areas, live[k]) && live[k].p != g.p
    {
      GrownHolds(was, extra, live[k]);
      CarvedHolds(grown, hole, lead, gross, live[k]);
      NewPointer(grown, HEAP_BASE, end, hole, lead, live[k]);
    }
    forall a | a in written
      ensures Owned(live', a)
    {
      var k :| 0 <= k < |live| && live[k].p <= a && a + 4 <= live[k].p + live[k].size;
      assert live'[k] == live[k];
    }
  }

  /** The words of a grant that is given back are no longer remembered. */
  function Dropped(written: Memory, g: Grant): Memory {
    map a | a in written && !(g.p <= a && a + 4 <= g.p + g.size) :: written[a]
  }

  /** The grant's area, by index. */
  lemma AreaOf(areas: seq<Area>, g: Grant) returns (i: nat)
    requires Holds(areas, g)
    ensures i < |areas| && HeldBy(areas[i], g)
  {
    i :| 0 <= i < |areas| && HeldBy(areas[i], g);
  }

  lemma KeptAfterPut(was: seq<Area>, end: int, areas: seq<Area>, data: Memory, live: seq<Grant>, written: Memory, which: nat, i: nat)
    requires Kept(was, data, live, written) && which < |live| && i < |was| && HeldBy(was[i], live[which])
    requires Tiled(was, HEAP_BASE, end) && areas == Shrunk(Coalesced(was, i), end)
    ensures Kept(areas, Without(data, was[i]), live[..which] + live[which + 1..], Dropped(written, live[which]))
  {
    hide Coalesced, Shrunk, Tiled, Holds;
    var live' := live[..which] + live[which + 1..];
    forall k | 0 <= k < |live'|
      ensures Holds(areas, live'[k])
    {
      var k' := if k < which then k else k + 1;
      assert live'[k] == live[k'];
      CoalescedHolds(was, i, live[k']);
      CoalescedSome(was, i);
      ShrunkHolds(Coalesced(was, i), end, live[k']);
    }
    DroppedKept(was, end, data, live, written, which, i);
  }

  lemma CoalescedSome(areas: seq<Area>, i: nat)
    requires i < |areas|
    ensures |Coalesced(areas, i)| > 0
  {
  }

  lemma DroppedKept(was: seq<Area>, end: int, data: Memory, live: seq<Grant>, written: Memory, which: nat, i: nat)
    requires Kept(was, data, live, written) && which < |live| && i < |was| && HeldBy(was[i], live[which])
    requires Tiled(was, HEAP_BASE, end)
    ensures forall a | a in Dropped(written, live[which])
              :: Owned(live[..which] + live[which + 1..], a) && a in Without(data, was[i]) && Without(data, was[i])[a] == written[a]
  {
    hide Tiled, Holds;
    var live' := live[..which] + live[which + 1..];
    forall a | a in Dropped(written, live[which])
      ensures Owned(live', a) && a in Without(data, was[i])
    {
      var k :| 0 <= k < |live| && live[k].p <= a && a + 4 <= live[k].p + live[k].size;
      assert k != which;
      assert live'[if k < which then k else k - 1] == live[k];
      OutsideArea(was, HEAP_BASE, end, live[k], live[which], i, a);
    }
  }

  /** A word of one grant lies outside the area of another. */
  lemma OutsideArea(areas: seq<Area>, lo: int, hi: int, g: Grant, h: Grant, i: nat, a: int)
    requires Tiled(areas, lo, hi) && Holds(areas, g) && i < |areas| && HeldBy(areas[i], h) && g.p != h.p
    requires g.p <= a && a + 4 <= g.p + g.size
    ensures a + 4 <= areas[i].start || areas[i].End() <= a
  {
    AllOrdered(areas, lo, hi);
    var n :| 0 <= n < |areas| && HeldBy(areas[n], g);
    assert n != i;
  }

  lemma KeptAfterWrite(areas: seq<Area>, data: Memory, live: seq<Grant>, written: Memory, which: nat, at: int, v: int)
    requires Kept(areas, data, live, written) && which < |live|
    requires live[which].p <= at && at + 4 <= live[which].p + live[which].size
    ensures Kept(areas, Written(data, at, v), live, Written(written, at, v))
  {
    assert Owned(live, at);
  }

  /** An allocation as the client sees it. */
  lemma AllocatedKept(was: seq<Area>, end: int, areas: seq<Area>, end': int, data: Memory, live: seq<Grant>, written: Memory,
                      p: int, size: int, pageAlign: bool, growths: nat, hole: nat)
    requires Kept(was, data, live, written) && 0 <= size && size + OverheadOf(pageAlign) < WORD
    requires Tiled(was, HEAP_BASE, end) && Tiled(areas, HEAP_BASE, end') && end % PAGE == 0 && end' % PAGE == 0
    requires Allocated(was, end, areas, end', p, size, pageAlign, growths, hole)
    ensures Kept(areas, data, live + [Grant(p, size)], written)
    ensures pageAlign ==> p % PAGE == 0
  {
    hide Kept, Gross, Pointer, Lead, Tiled;
    var grown := Grown(was, end' - end);
    var lead := Lead(grown[hole].start, pageAlign);
    var gross := Gross(size, pageAlign, growths + 1);
    var u := UsedAt(hole, lead);
    GrownTiled(was, HEAP_BASE, end, end' - end);
    HoldsAt(areas, u, Grant(p, size));
    UsedSize(grown, hole, lead, gross, areas, HEAP_BASE, end');
    hide Grown, Carved;
    KeptAfterGet(was, grown, end' - end, end', areas, data, live, written, hole, lead, gross, Grant(p, size));
  }

  lemma UsedSize(was: seq<Area>, hole: nat, lead: int, gross: int, areas: seq<Area>, lo: int, hi: int)
    requires hole < |was| && 0 <= lead && (hole == 0 ==> lead == 0 || lead > OVERHEAD)
    requires areas == Carved(was, hole, lead, gross) && Tiled(areas, lo, hi) && gross <= was[hole].size - lead
    ensures was[hole].size - lead > OVERHEAD
  {
    var placed := Placed(was[hole].start + lead, was[hole].size - lead, gross);
    CarvedSurroundings(was, hole, lead, gross);
    hide Carved;
    var u := UsedAt(hole, lead);
    assert areas[u] == areas[u..u + |placed|][0];
  }

  // ----- what the requests ask for

  /** A size that does not wrap around with the overhead, a grant that is held, a word inside it; other requests are passed over. */
  predicate Sensible(request: Request, live: seq<Grant>) {
    match request
    case Get(size, pageAlign) => 0 <= size && size + OverheadOf(pageAlign) < WORD
    case Put(which) => which < |live|
    case Write(which, offset, _) => which < |live| && 0 <= offset && offset + 4 <= live[which].size
  }

  /** Where a run stands: what clients hold and have stored, and the heap. */
  datatype Moment = Moment(live: seq<Grant>, written: Memory, m: Memory, areas: seq<Area>, end: int)

  ghost function Now(h: Heap, live: seq<Grant>, written: Memory): Moment
    reads h
  {
    Moment(live, written, h.mem, h.areas, h.endAddress)
  }

  ghost predicate Gets(t: Moment, size: int, pageAlign: bool, t': Moment)
    requires 0 <= size < WORD
  {
    && t'.written == t.written && |t'.live| == |t.live| + 1
    && var p := t'.live[|t.live|].p;
    && t'.live == t.live + [Grant(p, size)] && (pageAlign ==> p % PAGE == 0)
    && exists growths: nat, hole: nat :: Allocated(t.areas, t.end, t'.areas, t'.end, p, size, pageAlign, growths, hole)
  }

  lemma GetsIf(t: Moment, size: int, pageAlign: bool, t': Moment, growths: nat, hole: nat)
    requires 0 <= size < WORD && t'.written == t.written && |t'.live| == |t.live| + 1
    requires var p := t'.live[|t.live|].p;
             && t'.live == t.live + [Grant(p, size)] && (pageAlign ==> p % PAGE == 0)
             && Allocated(t.areas, t.end, t'.areas, t'.end, p, size, pageAlign, growths, hole)
    ensures Gets(t, size, pageAlign, t')
  {
  }

  /** A pointer above the maximum address is passed over. */
  ghost predicate Puts(t: Moment, which: nat, t': Moment)
    requires which < |t.live|
  {
    && t'.live == t.live[..which] + t.live[which + 1..] && t'.written == Dropped(t.written, t.live[which])
    && if t.live[which].p > KHEAP_MAX then t'.m == t.m && t'.areas == t.areas && t'.end == t.end
       else exists i: nat :: i < |t.areas| && HeldBy(t.areas[i], t.live[which]) && Freed(t.areas, i, t.end, t'.areas, t'.end)
  }

  ghost predicate Freed(was: seq<Area>, i: nat, end: int, areas: seq<Area>, end': int) {
    i < |was| && |Coalesced(was, i)| > 0 && areas == Shrunk(Coalesced(was, i), end) && end' == areas[|areas| - 1].End()
  }

  /** What is held, what is stored and what the heap is after a request that went well. */
  ghost predicate Follows(request: Request, t: Moment, t': Moment) {
    if !Sensible(request, t.live) then t' == t
    else match request
      case Get(size, pageAlign) => Gets(t, size, pageAlign, t')
      case Put(which) => Puts(t, which, t')
      case Write(which, offset, v) =>
        var at := t.live[which].p + offset;
        t'.(m := t.m) == t.(written := Written(t.written, at, v)) && Stored(t.m, t'.m, at, v)
  }

  /** An allocation that the row of areas cannot serve, however far it grows, or may not. */
  ghost predicate Refused(request: Request, t: Moment) {
    request.Get? && (!Decided(request, t) || !Serviceable(t.areas, t.end, request.size, request.pageAlign))
  }

  /** The row of areas decides whether the allocation succeeds. */
  ghost predicate Decided(request: Request, t: Moment) {
    request.Get? && IndexRoom(t.areas) && (request.size > 0 || !request.pageAlign)
  }

  /** A release that the words behind the heap's end mislead. */
  ghost predicate Derails(request: Request, t: Moment) {
    && request.Put? && Sensible(request, t.live) && t.live[request.which].p <= KHEAP_MAX
    && exists i: nat :: i < |t.areas| && HeldBy(t.areas[i], t.live[request.which]) && Misleads(t.m, t.areas, i, t.end)
  }

  lemma HeldOnce(areas: seq<Area>, end: int, i: nat, j: nat, g: Grant)
    requires Tiled(areas, HEAP_BASE, end) && i < |areas| && j < |areas| && HeldBy(areas[i], g) && HeldBy(areas[j], g)
    ensures i == j
  {
    AllOrdered(areas, HEAP_BASE, end);
  }

  lemma DerailsIf(which: nat, t: Moment, i: nat)
    requires Tiled(t.areas, HEAP_BASE, t.end) && which < |t.live| && i < |t.areas| && HeldBy(t.areas[i], t.live[which])
    ensures Derails(Put(which), t) <==> t.live[which].p <= KHEAP_MAX && Misleads(t.m, t.areas, i, t.end)
  {
    hide HeldBy, Misleads, Tiled;
    if Derails(Put(which), t) {
      var j: nat :| j < |t.areas| && HeldBy(t.areas[j], t.live[which]) && Misleads(t.m, t.areas, j, t.end);
      HeldOnce(t.areas, t.end, i, j, t.live[which]);
    }
  }

  method DoGet(h: Heap, size: int, pageAlign: bool, live: seq<Grant>, ghost written: Memory) returns (ok: bool, live': seq<Grant>)
    requires h.Valid() && Kept(h.areas, h.data.words, live, written) && 0 <= size && size + OverheadOf(pageAlign) < WORD
    modifies h.Repr()
    ensures h.data == old(h.data) && (ok ==> h.Valid() && Kept(h.areas, h.data.words, live', written))
    ensures ok ==> Gets(old(Now(h, live, written)), size, pageAlign, Now(h, live', written))
    ensures !ok ==> Refused(Get(size, pageAlign), old(Now(h, live, written)))
    ensures ok && Decided(Get(size, pageAlign), old(Now(h, live, written))) ==> !Refused(Get(size, pageAlign), old(Now(h, live, written)))
  {
    hide Kept, Consistent, Settled, Allocated, Tiled, FirstFit, Ample, Gross, Gets, IndexRoom, Serviceable;
    h.Extent();
    ghost var was, end, m := h.areas, h.endAddress, h.mem;
    var r, growths, hole := h.HeapAlloc(size, pageAlign);
    if r == None {
      return false, live;
    }
    h.Extent();
    AllocatedKept(was, end, h.areas, h.endAddress, h.data.words, live, written, r.value, size, pageAlign, growths, hole);
    live' := live + [Grant(r.value, size)];
    GetsIf(Moment(live, written, m, was, end), size, pageAlign, Now(h, live', written), growths, hole);
    return true, live';
  }

  /** A pointer above the maximum address is not released, but its owner has given it up. */
  lemma IgnoredPut(areas: seq<Area>, data: Memory, live: seq<Grant>, written: Memory, which: nat)
    requires Kept(areas, data, live, written) && which < |live|
    ensures Kept(areas, data, live[..which] + live[which + 1..], Dropped(written, live[which]))
  {
    var live' := live[..which] + live[which + 1..];
    forall a | a in Dropped(written, live[which])
      ensures Owned(live', a)
    {
      var k :| 0 <= k < |live| && live[k].p <= a && a + 4 <= live[k].p + live[k].size;
      assert live'[if k < which then k else k - 1] == live[k];
    }
  }

  lemma KeptAtStart(areas: seq<Area>, data: Memory)
    ensures Kept(areas, data, [], map[])
  {
  }

  lemma KeptHolds(areas: seq<Area>, data: Memory, live: seq<Grant>, written: Memory, which: nat)
    requires Kept(areas, data, live, written) && which < |live|
    ensures Holds(areas, live[which])
  {
  }

  lemma AboveBase(areas: seq<Area>, end: int, i: nat)
    requires Tiled(areas, HEAP_BASE, end) && i < |areas|
    ensures HEAP_BASE < Pointer(areas[i].start)
  {
    AllOrdered(areas, HEAP_BASE, end);
  }

  /** A release; misled when the words behind the heap's end pass for an area, which then ends the run. */
  method DoPut(h: Heap, which: nat, live: seq<Grant>, written: Memory) returns (misled: bool, live': seq<Grant>, written': Memory)
    requires h.Valid() && Kept(h.areas, h.data.words, live, written) && which < |live|
    modifies h.Repr()
    ensures !misled ==> h.Valid() && Kept(h.areas, h.data.words, live', written')
    ensures !misled ==> Puts(old(Now(h, live, written)), which, Now(h, live', written'))
    ensures h.data.strays == old(h.data.strays) && (misled ==> old(h.endAddress) + 8 in h.data.strays && WrongRow(h.mem, h.areas))
    ensures misled <==> Derails(Put(which), old(Now(h, live, written)))
  {
    hide Kept, Consistent, Settled, Coalesced, Shrunk, Tiled, Without, Dropped, Misleads, WrongRow, PayloadStays, Derails;
    ghost var was, end, words := h.areas, h.endAddress, h.data.words;
    KeptHolds(was, words, live, written, which);
    ghost var i := AreaOf(was, live[which]);
    h.Extent();
    AboveBase(was, end, i);
    hide Pointer;
    DerailsIf(which, Now(h, live, written), i);
    misled := h.HeapFree(live[which].p, i);
    live' := live[..which] + live[which + 1..];
    written' := Dropped(written, live[which]);
    if live[which].p > KHEAP_MAX {
      IgnoredPut(was, words, live, written, which);
    } else if !misled {
      h.Extent();
      CoalescedSome(was, i);
      assert Freed(was, i, end, h.areas, h.endAddress);
      KeptAfterPut(was, end, h.areas, words, live, written, which, i);
    }
  }

  method DoWrite(h: Heap, which: nat, offset: int, v: int, live: seq<Grant>, written: Memory) returns (written': Memory)
    requires h.Valid() && Kept(h.areas, h.data.words, live, written) && which < |live|
    requires 0 <= offset && offset + 4 <= live[which].size
    modifies h.Repr()
    ensures h.Valid() && Kept(h.areas, h.data.words, live, written')
    ensures Follows(Write(which, offset, v), old(Now(h, live, written)), Now(h, live, written'))
    ensures (v != MAGIC ==> h.data.strays == old(h.data.strays))
  {
    hide Kept, Consistent, Settled, Written;
    KeptHolds(h.areas, h.data.words, live, written, which);
    ghost var i := AreaOf(h.areas, live[which]);
    var at := live[which].p + offset;
    KeptAfterWrite(h.areas, h.data.words, live, written, which, at, v);
    h.WritePayload(at, v, i);
    written' := Written(written, at, v);
  }

  /** How a run goes on after a request: ok, or stopped by a failed allocation, or by a release that was misled. */
  datatype Outcome = Going | Panicked | Misled

  /** A request that ends the run. */
  ghost predicate Fails(request: Request, t: Moment) {
    Derails(request, t) || (Sensible(request, t.live) && Decided(request, t) && Refused(request, t))
  }

  /** Why a run stops there. */
  ghost predicate Stops(request: Request, t: Moment, r: Outcome) {
    match r
    case Going => false
    case Panicked => Sensible(request, t.live) && Refused(request, t)
    case Misled => Derails(request, t)
  }

  method Step(h: Heap, request: Request, live: seq<Grant>, written: Memory) returns (r: Outcome, live': seq<Grant>, written': Memory)
    requires h.Valid() && Kept(h.areas, h.data.words, live, written)
    modifies h.Repr()
    ensures r.Going? ==> h.Valid() && Kept(h.areas, h.data.words, live', written') && Follows(request, old(Now(h, live, written)), Now(h, live', written'))
    ensures if r.Going? then !Fails(request, old(Now(h, live, written))) else Stops(request, old(Now(h, live, written)), r)
    ensures r.Misled? ==> old(h.data.strays) != {} && WrongRow(h.mem, h.areas)
    ensures r.Going? && h.data.strays != old(h.data.strays) ==> StoresMagic(request)
  {
    hide Kept, Consistent, Settled, WrongRow, Dropped, Written, Misleads, Tiled, Gets, Puts, Stored, IndexRoom, Serviceable;
    r, live', written' := Going, live, written;
    if Sensible(request, live) {
      match request
      case Get(size, pageAlign) =>
        var ok;
        ok, live' := DoGet(h, size, pageAlign, live, written);
        r := if ok then Going else Panicked;
      case Put(which) =>
        var misled;
        misled, live', written' := DoPut(h, which, live, written);
        r := if misled then Misled else Going;
      case Write(which, offset, v) =>
        written' := DoWrite(h, which, offset, v, live, written);
    }
  }

  predicate StoresMagic(request: Request) {
    request.Write? && request.value == MAGIC
  }

  predicate MagicAmong(requests: seq<Request>) {
    exists n | 0 <= n < |requests| :: StoresMagic(requests[n])
  }

  lemma MagicLater(requests: seq<Request>, n: nat)
    requires n < |requests|
    ensures MagicAmong(requests[..n]) || StoresMagic(requests[n]) ==> MagicAmong(requests[..n + 1])
    ensures MagicAmong(requests[..n + 1]) ==> MagicAmong(requests)
  {
    assert requests[..n] == requests[..n + 1][..n] && requests[..n + 1][n] == requests[n];
  }

  /** No two grants overlap, and every word that was stored and not given back is in memory. */
  ghost predicate Intact(t: Moment) {
    && (forall a | a in t.written :: a in t.m && t.m[a] == t.written[a])
    && forall j, k | 0 <= j < k < |t.live|
         :: t.live[j].p + t.live[j].size <= t.live[k].p || t.live[k].p + t.live[k].size <= t.live[j].p
  }

  lemma KeptMeans(t: Moment, data: Memory)
    requires Kept(t.areas, data, t.live, t.written) && Tiled(t.areas, HEAP_BASE, t.end) && forall k | k in data :: k in t.m && t.m[k] == data[k]
    ensures Intact(t)
  {
    forall j, k | 0 <= j < k < |t.live|
      ensures t.live[j].p + t.live[j].size <= t.live[k].p || t.live[k].p + t.live[k].size <= t.live[j].p
    {
      GrantsDisjoint(t.areas, HEAP_BASE, t.end, t.live[j], t.live[k]);
    }
  }

  /** The areas of a new heap. */
  function FirstRow(): seq<Area> {
    [Area(HEAP_BASE, KHEAP_INITIAL_SIZE - 2 * 4 * INDEX_SIZE, Free)]
  }

  /** The moments of a run, each after the request that leads to it. */
  ghost predicate Leads(requests: seq<Request>, trace: seq<Moment>) {
    && 0 < |trace| <= |requests| + 1 && trace[0].live == [] && trace[0].written == map[]
    && trace[0].areas == FirstRow() && trace[0].end == FirstRow()[0].End()
    && (forall k | 0 <= k < |trace| :: Intact(trace[k]))
    && forall k | 0 <= k < |trace| - 1
         :: Follows(requests[k], trace[k], trace[k + 1]) && !Fails(requests[k], trace[k])
  }

  /** How a run ends: with the last request, or at an allocation for which there is no room, or at a release that is misled. */
  ghost predicate Ends(requests: seq<Request>, trace: seq<Moment>, r: Outcome)
    requires 0 < |trace| <= |requests| + 1
  {
    var n := |trace| - 1;
    if r.Going? then n == |requests| else n < |requests| && Stops(requests[n], trace[n], r)
  }

  lemma LeadsOn(requests: seq<Request>, trace: seq<Moment>, t: Moment)
    requires Leads(requests, trace) && |trace| <= |requests|
    requires var n := |trace| - 1; Follows(requests[n], trace[n], t) && !Fails(requests[n], trace[n]) && Intact(t)
    ensures Leads(requests, trace + [t])
  {
    hide Follows, Fails, Intact;
  }

  /** Any run of requests against the kernel heap. trace has the moments after each request: what clients hold and have stored,
      which the requests and the pointers handed out determine, and the heap. At each of them no two grants overlap, and every word
      that was stored and not given back is in memory. The run ends early at the first allocation that cannot be served,
      or at the first release that is misled, which takes a client that stored the magic number. */
  method Run(requests: seq<Request>) returns (h: Heap, r: Outcome, live: seq<Grant>, written: Memory, ghost trace: seq<Moment>)
    ensures Leads(requests, trace) && Ends(requests, trace, r)
    ensures r.Going? ==> trace[|requests|] == Now(h, live, written)
    ensures r.Going? ==> h.Valid() && Kept(h.areas, h.data.words, live, written)
    ensures r.Misled? ==> WrongRow(h.mem, h.areas) && MagicAmong(requests)
  {
    hide Kept, Consistent, Settled, Tiled, Backed, WrongRow, Leads, Follows, Fails, Stops, MagicAmong, StoresMagic, Intact;
    h := new Heap();
    r, live, written := Going, [], map[];
    KeptAtStart(h.areas, h.data.words);
    h.Extent();
    trace := [Now(h, live, written)];
    var n := 0;
    LeadsFirst(requests, trace);
    while n < |requests| && r.Going?
      invariant 0 <= n <= |requests| && Leads(requests, trace) && 0 < |trace|
      invariant if r.Going? then |trace| == n + 1 && trace[n] == Now(h, live, written) else |trace| == n && Ends(requests, trace, r)
      invariant fresh(h.Repr()) && (r.Going? ==> h.Valid() && Kept(h.areas, h.data.words, live, written))
      invariant r.Going? && h.data.strays != {} ==> MagicAmong(requests[..n])
      invariant r.Misled? ==> WrongRow(h.mem, h.areas) && MagicAmong(requests)
      decreases |requests| - n
    {
      MagicLater(requests, n);
      r, live, written := Step(h, requests[n], live, written);
      if r.Going? {
        h.Extent();
        KeptMeans(Now(h, live, written), h.data.words);
        LeadsOn(requests, trace, Now(h, live, written));
        trace := trace + [Now(h, live, written)];
      }
      n := n + 1;
    }
  }

  lemma LeadsFirst(requests: seq<Request>, trace: seq<Moment>)
    requires |trace| == 1 && trace[0].live == [] && trace[0].written == map[]
    requires trace[0].areas == FirstRow() && trace[0].end == FirstRow()[0].End()
    ensures Leads(requests, trace)
  {
  }
}
