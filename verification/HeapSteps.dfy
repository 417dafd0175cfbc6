/** The single steps heap_alloc and heap_free are made of, on values: how each changes the memory, the
    row of areas and the two indexes, and that together they stay consistent. */
module HeapSteps {
  import opened Tiling
  import opened HeapMemory

  /** The global invariant: the areas tile the heap, memory depicts each of them, no stray magic number
      but an owner's can pass for a header on a page boundary, and each index holds exactly the starts of the areas of
      its kind, each once. */
  ghost predicate Consistent(m: Memory, areas: seq<Area>, end: int, data: Stores, free: multiset<int>, used: multiset<int>) {
    && Tiled(areas, HEAP_BASE, end) && end % PAGE == 0 && end <= TOP
    && Depicts(m, areas) && NoStrayMagic(m, areas, data.strays)
    && free == Starts(areas, Free) && used == Starts(areas, Used)
    && Backed(m, areas, data)
  }

  /** k is a word an owner may use. */
  ghost predicate InPayload(areas: seq<Area>, k: int) {
    exists n :: 0 <= n < |areas| && areas[n].kind.Used? && areas[n].start + HEADER <= k && k + 4 <= areas[n].End() - FOOTER
  }

  /** data is what the owners of allocations have stored, and memory still holds it. */
  ghost predicate Backed(m: Memory, areas: seq<Area>, data: Stores) {
    forall k | k in data.words :: InPayload(areas, k) && k in m && m[k] == data.words[k]
  }

  /** The owners' words in a segment survive its replacement. */
  ghost predicate KeepsData(m': Memory, segment: seq<Area>, mid: seq<Area>, data: Stores) {
    forall k | k in data.words && InPayload(segment, k) :: InPayload(mid, k) && k in m' && m'[k] == data.words[k]
  }

  lemma NoOwners(m': Memory, segment: seq<Area>, mid: seq<Area>, data: Stores)
    requires forall n | 0 <= n < |segment| :: !segment[n].kind.Used?
    ensures KeepsData(m', segment, mid, data)
  {
  }

  lemma NoOwnWords(m': Memory, segment: seq<Area>, mid: seq<Area>, data: Stores)
    requires (forall n | 0 <= n < |segment| :: !segment[n].kind.Used?) || (forall k | k in data.words :: !InPayload(segment, k))
    ensures KeepsData(m', segment, mid, data)
  {
  }

  /** The words of the area that is about to be released are forgotten. */
  lemma Forget(m: Memory, areas: seq<Area>, end: int, data: Stores, data': Stores, free: multiset<int>, used: multiset<int>)
    requires Consistent(m, areas, end, data, free, used)
    requires data'.strays == data.strays && forall k | k in data'.words :: k in data.words && data'.words[k] == data.words[k]
    ensures Consistent(m, areas, end, data', free, used)
  {
  }

  lemma SpliceBacked(m: Memory, m': Memory, areas: seq<Area>, lo: int, hi: int, data: Stores, i: nat, j: nat, mid: seq<Area>)
    requires Tiled(areas, lo, hi) && Backed(m, areas, data) && i < j <= |areas|
    requires AgreeBelow(m, m', areas[i].start)
    requires j < |areas| ==> AgreeAbove(m, m', areas[j].start)
    requires KeepsData(m', areas[i..j], mid, data)
    ensures Backed(m', areas[..i] + mid + areas[j..], data)
  {
    var r := areas[..i] + mid + areas[j..];
    AllOrdered(areas, lo, hi);
    forall k | k in data.words
      ensures InPayload(r, k) && k in m' && m'[k] == data.words[k]
    {
      var n :| 0 <= n < |areas| && areas[n].kind.Used? && areas[n].start + HEADER <= k && k + 4 <= areas[n].End() - FOOTER;
      if n < i {
        assert r[n] == areas[n];
      } else if n < j {
        assert areas[i..j][n - i] == areas[n];
        assert InPayload(mid, k);
        var b :| 0 <= b < |mid| && mid[b].kind.Used? && mid[b].start + HEADER <= k && k + 4 <= mid[b].End() - FOOTER;
        assert r[i + b] == mid[b];
      } else {
        assert r[n - j + i + |mid|] == areas[n];
      }
    }
  }

  /** What the assertions in create_area check against every entry of an index. */
  ghost predicate NoCollision(m: Memory, index: seq<int>, a: Area) {
    forall k | 0 <= k < |index| ::
      var h := index[k];
      && IsMagic(m, h + 8) && h in m && IsMagic(m, h + m[h] - 8) && Load(m, h + m[h] - 4) == h
      && a.start != h
      && (a.start < h ==> a.End() <= h)
      && (a.start > h ==> h + m[h] <= a.start)
  }

  lemma IndexedArea(m: Memory, areas: seq<Area>, end: int, data: Stores, free: multiset<int>, used: multiset<int>, kind: Kind, x: int)
    returns (i: nat)
    requires Consistent(m, areas, end, data, free, used) && !kind.Pending?
    requires x in (if kind.Free? then free else used)
    ensures i < |areas| && areas[i].start == x && areas[i].kind == kind && Framed(m, areas[i])
  {
    i := StartsFind(areas, kind, x);
  }

  lemma CollisionFree(m: Memory, areas: seq<Area>, end: int, data: Stores, free: multiset<int>, used: multiset<int>,
                      kind: Kind, index: seq<int>, a: Area)
    requires Consistent(m, areas, end, data, free, used) && !kind.Pending?
    requires multiset(index) == if kind.Free? then free else used
    requires a.size > 0
    requires forall i | 0 <= i < |areas| && !areas[i].kind.Pending? :: areas[i].End() <= a.start || a.End() <= areas[i].start
    ensures NoCollision(m, index, a)
  {
    forall k | 0 <= k < |index|
      ensures var h := index[k];
              && IsMagic(m, h + 8) && h in m && IsMagic(m, h + m[h] - 8) && Load(m, h + m[h] - 4) == h
              && a.start != h && (a.start < h ==> a.End() <= h) && (a.start > h ==> h + m[h] <= a.start)
    {
      assert index[k] in multiset(index);
      var i := IndexedArea(m, areas, end, data, free, used, kind, index[k]);
    }
  }

  lemma WithinPending(areas: seq<Area>, end: int, i: nat, a: Area)
    requires Tiled(areas, HEAP_BASE, end) && i < |areas| && areas[i].kind.Pending?
    requires areas[i].start <= a.start && a.End() <= areas[i].End()
    ensures forall n | 0 <= n < |areas| && !areas[n].kind.Pending? :: areas[n].End() <= a.start || a.End() <= areas[n].start
    ensures HEAP_BASE <= a.start && a.End() <= end
  {
    AllOrdered(areas, HEAP_BASE, end);
  }

  lemma SpliceConsistent(m: Memory, m': Memory, areas: seq<Area>, end: int, end': int,
                         data: Stores, free: multiset<int>, used: multiset<int>, i: nat, j: nat, mid: seq<Area>)
    requires Consistent(m, areas, end, data, free, used) && i < j <= |areas|
    requires end' % PAGE == 0 && end' <= TOP && (j < |areas| ==> end' == end)
    requires if j == |areas| then ReplacesTail(m, m', areas[i..j], mid, areas[i].start, end')
             else Replaces(m, m', areas[i..j], mid, areas[i].start, areas[j - 1].End())
    requires KeepsData(m', areas[i..j], mid, data)
    ensures Consistent(m', areas[..i] + mid + areas[j..], end',
                       data, free - Starts(areas[i..j], Free) + Starts(mid, Free),
                       used - Starts(areas[i..j], Used) + Starts(mid, Used))
  {
    SpliceTiled(areas, HEAP_BASE, end, i, j, mid, end');
    SpliceDepicts(m, m', areas, HEAP_BASE, end, i, j, mid, if j == |areas| then end' else areas[j - 1].End());
    SpliceNoStrayMagic(m, m', areas, HEAP_BASE, end, i, j, mid, data.strays);
    SpliceBacked(m, m', areas, HEAP_BASE, end, data, i, j, mid);
    StartsSplice(areas, i, j, mid, Free);
    StartsSplice(areas, i, j, mid, Used);
  }

  function Only(a: Area, kind: Kind): multiset<int> {
    if a.kind == kind then multiset{a.start} else multiset{}
  }

  lemma One(a: Area)
    ensures Starts([a], Free) == Only(a, Free) && Starts([a], Used) == Only(a, Used)
  {
    assert [a][1..] == [];
  }

  lemma Two(a: Area, b: Area)
    ensures Starts([a, b], Free) == Only(a, Free) + Only(b, Free)
    ensures Starts([a, b], Used) == Only(a, Used) + Only(b, Used)
  {
    assert [a, b] == [a] + [b];
    One(a);
    One(b);
    StartsConcat([a], [b], Free);
    StartsConcat([a], [b], Used);
  }

  lemma Ranges(m: Memory, areas: seq<Area>, end: int, data: Stores, free: multiset<int>, used: multiset<int>, i: nat)
    requires Consistent(m, areas, end, data, free, used) && i < |areas|
    ensures HEAP_BASE <= areas[i].start && areas[i].End() <= end && OVERHEAD < areas[i].size < MAGIC < areas[i].start
    ensures i + 1 < |areas| ==> areas[i].End() == areas[i + 1].start
    ensures i > 0 ==> areas[i - 1].End() == areas[i].start && OVERHEAD < areas[i - 1].size
    ensures i + 1 == |areas| ==> areas[i].End() == end
    ensures end % PAGE == 0 && end <= TOP
    ensures !areas[i].kind.Pending? ==> Framed(m, areas[i])
  {
    AllOrdered(areas, HEAP_BASE, end);
  }

  lemma StartsSegment(m: Memory, areas: seq<Area>, end: int, data: Stores, free: multiset<int>, used: multiset<int>, i: nat, j: nat)
    requires Consistent(m, areas, end, data, free, used) && i <= j <= |areas|
    ensures Starts(areas[i..j], Free) <= free && Starts(areas[i..j], Used) <= used
  {
    StartsSplice(areas, i, j, [], Free);
    StartsSplice(areas, i, j, [], Used);
  }

  /** Area i leaves its index, or enters one; only the row changes. */
  lemma Rekind(m: Memory, areas: seq<Area>, end: int, data: Stores, free: multiset<int>, used: multiset<int>, i: nat, kind: Kind)
    requires Consistent(m, areas, end, data, free, used) && i < |areas|
    requires kind.Pending? || Framed(m, areas[i].(kind := kind))
    requires areas[i].kind.Used? ==> forall k | k in data.words :: !InPayload([areas[i]], k)
    ensures var a := areas[i];
            Consistent(m, areas[i := a.(kind := kind)], end,
                       data, free - Only(a, Free) + Only(a.(kind := kind), Free),
                       used - Only(a, Used) + Only(a.(kind := kind), Used))
  {
    hide Consistent, KeepsData, InPayload, Replaces, ReplacesTail, AreaWritten, Starts;
    var mid := [areas[i].(kind := kind)];
    assert areas[i..i + 1] == [areas[i]];
    Ranges(m, areas, end, data, free, used, i);
    RekindReplaces(m, areas[i], mid[0]);
    One(areas[i]);
    One(mid[0]);
    ToTail(m, m, [areas[i]], mid, areas[i].start, areas[i].End());
    NoOwnWords(m, [areas[i]], mid, data);
    SpliceConsistent(m, m, areas, end, end, data, free, used, i, i + 1, mid);
    assert areas[i := mid[0]] == areas[..i] + mid + areas[i + 1..];
  }

  /** An area that has left its index is pending. */
  lemma Unlist(m: Memory, areas: seq<Area>, end: int, data: Stores, free: multiset<int>, used: multiset<int>, i: nat)
    requires Consistent(m, areas, end, data, free, used) && i < |areas| && !areas[i].kind.Pending?
    requires areas[i].kind.Used? ==> forall k | k in data.words :: !InPayload([areas[i]], k)
    ensures var a := areas[i];
            Consistent(m, areas[i := a.(kind := Pending)], end, data,
                       if a.kind.Free? then free - multiset{a.start} else free,
                       if a.kind.Used? then used - multiset{a.start} else used)
  {
    hide Consistent;
    var a := areas[i];
    Rekind(m, areas, end, data, free, used, i, Pending);
    assert free - Only(a, Free) + multiset{} == if a.kind.Free? then free - multiset{a.start} else free;
    assert used - Only(a, Used) + multiset{} == if a.kind.Used? then used - multiset{a.start} else used;
  }

  /** A pending area that is framed as free enters the free index. */
  lemma List(m: Memory, areas: seq<Area>, end: int, data: Stores, free: multiset<int>, used: multiset<int>, i: nat)
    requires Consistent(m, areas, end, data, free, used) && i < |areas| && areas[i].kind.Pending?
    requires Framed(m, areas[i].(kind := Free))
    ensures Consistent(m, areas[i := areas[i].(kind := Free)], end, data, free + multiset{areas[i].start}, used)
  {
    hide Consistent, Framed;
    Rekind(m, areas, end, data, free, used, i, Free);
    assert free - multiset{} + multiset{areas[i].start} == free + multiset{areas[i].start};
    assert used - multiset{} + multiset{} == used;
  }

  /** An area written gives no magic number outside its own two slots. */
  lemma WrittenMagics(m: Memory, m': Memory, a: Area, k: int)
    requires OVERHEAD < a.size < MAGIC < a.start
    requires AreaWritten(m, m', a) && k in m' && m'[k] == MAGIC
    ensures k == a.start + 8 || k == a.End() - 8 || (k in m && m[k] == MAGIC && Clear(a, k))
  {
  }

  /** The magic numbers that matter after a segment has been rewritten are in the slots of the new areas. */
  ghost predicate MagicsMove(m: Memory, m': Memory, segment: seq<Area>, mid: seq<Area>) {
    forall k | k in m' && m'[k] == MAGIC && k % PAGE == 8 && !MagicSlot(mid, k) :: k in m && m[k] == MAGIC && !MagicSlot(segment, k)
  }

  lemma SlotOf(areas: seq<Area>, i: nat)
    requires i < |areas|
    ensures MagicSlot(areas, areas[i].start + 8) && MagicSlot(areas, areas[i].End() - 8)
  {
  }

  lemma StoredMove(m: Memory, m1: Memory, m': Memory, segment: seq<Area>, mid: seq<Area>, a: int, v: int)
    requires MagicsMove(m, m1, segment, mid) && Stored(m1, m', a, v) && v != MAGIC
    ensures MagicsMove(m, m', segment, mid)
  {
  }

  lemma WrittenMove(m: Memory, m': Memory, a: Area, gone: Area, mid: seq<Area>, n: nat)
    requires OVERHEAD < a.size < MAGIC < a.start && AreaWritten(m, m', a)
    requires n < |mid| && mid[n].start == a.start && mid[n].size == a.size
    requires MagicSlot(mid, gone.start + 8) && MagicSlot(mid, gone.End() - 8)
    ensures MagicsMove(m, m', [gone], mid)
  {
    SlotOf(mid, n);
    forall k | k in m' && m'[k] == MAGIC && k % PAGE == 8 && !MagicSlot(mid, k)
      ensures k in m && m[k] == MAGIC && !MagicSlot([gone], k)
    {
      WrittenMagics(m, m', a, k);
    }
  }

  /** The memory after the left neighbour has taken the lead, and after the size of what remains has been
      written for the steps that follow. */
  ghost predicate Donated(m: Memory, m': Memory, left: Area, longer: Area, size: int) {
    && Framed(m', longer)
    && AgreeOutside(m, m', left.start, longer.End() + 4)
    && longer.End() in m' && m'[longer.End()] == size
    && (forall k | left.start + HEADER <= k && k + 4 <= left.End() - FOOTER :: (k in m' <==> k in m) && (k in m ==> m'[k] == m[k]))
    && (forall k | k in m' && m'[k] == MAGIC && k != longer.End() - 8 :: k in m && m[k] == MAGIC && k != left.End() - 8)
  }

  lemma DonatedMove(m: Memory, m': Memory, left: Area, gone: Area, longer: Area, rest: Area)
    requires Donated(m, m', left, longer, rest.size)
    requires longer.start == left.start && gone.start == left.End() && rest.End() == gone.End()
    requires (gone.start + 8) % PAGE != 8
    ensures MagicsMove(m, m', [left, gone], [longer, rest])
  {
    hide AgreeOutside, Framed;
    var mid := [longer, rest];
    SlotOf(mid, 0);
    SlotOf(mid, 1);
  }

  /** What replaces a segment locally: it covers the same range, is in memory, and nothing else changed. */
  ghost predicate Replaces(m: Memory, m': Memory, segment: seq<Area>, mid: seq<Area>, lo: int, hi: int) {
    Tiled(mid, lo, hi) && AgreeOutside(m, m', lo, hi) && Depicts(m', mid) && MagicsMove(m, m', segment, mid)
  }

  /** The same for the end of the row: what lies above it does not matter. */
  ghost predicate ReplacesTail(m: Memory, m': Memory, segment: seq<Area>, mid: seq<Area>, lo: int, hi: int) {
    Tiled(mid, lo, hi) && AgreeBelow(m, m', lo) && Depicts(m', mid) && MagicsMove(m, m', segment, mid)
  }

  lemma TiledPair(a: Area, b: Area)
    requires OVERHEAD < a.size && OVERHEAD < b.size && a.End() == b.start
    ensures Tiled([a, b], a.start, b.End())
  {
  }

  lemma RekindReplaces(m: Memory, gone: Area, a: Area)
    requires OVERHEAD < gone.size && a.start == gone.start && a.size == gone.size
    requires a.kind.Pending? || Framed(m, a)
    ensures Replaces(m, m, [gone], [a], gone.start, gone.End())
  {
    SlotOf([a], 0);
  }

  lemma StoredKeepsFramed(m: Memory, m': Memory, a: Area, at: int, v: int)
    requires Framed(m, a) && Stored(m, m', at, v) && a.size > OVERHEAD
    requires at + 4 <= a.start || a.End() <= at
    ensures Framed(m', a)
  {
  }

  lemma StoredAgree(m: Memory, m1: Memory, m': Memory, lo: int, hi: int, at: int, v: int)
    requires AgreeOutside(m, m1, lo, hi) && Stored(m1, m', at, v) && lo <= at && at + 4 <= hi
    ensures AgreeOutside(m, m', lo, hi)
  {
  }

  lemma WasteReplaces(m: Memory, m1: Memory, m': Memory, gone: Area, waste: Area, rest: Area)
    requires gone.size < MAGIC < gone.start && OVERHEAD < waste.size && OVERHEAD < rest.size
    requires waste.start == gone.start && waste.kind.Free? && waste.End() == rest.start && rest.End() == gone.End() && rest.kind.Pending?
    requires AreaWritten(m, m1, waste) && Stored(m1, m', rest.start, rest.size)
    ensures Replaces(m, m', [gone], [waste, rest], gone.start, gone.End())
  {
    var mid := [waste, rest];
    hide MagicsMove, MagicSlot, Tiled;
    SlotOf(mid, 0);
    SlotOf(mid, 1);
    WrittenMove(m, m1, waste, gone, mid, 0);
    StoredMove(m, m1, m', [gone], mid, rest.start, rest.size);
    TiledPair(waste, rest);
    StoredKeepsFramed(m1, m', waste, rest.start, rest.size);
    assert AgreeOutside(m, m1, gone.start, gone.End());
    StoredAgree(m, m1, m', gone.start, gone.End(), rest.start, rest.size);
    assert Depicts(m', mid) by { hide AgreeOutside, Stored, AreaWritten, Framed; }
  }

  lemma SplitReplaces(m: Memory, m': Memory, gone: Area, front: Area, rest: Area)
    requires gone.size < MAGIC < gone.start && OVERHEAD < front.size && OVERHEAD < rest.size
    requires front.start == gone.start && front.kind.Pending? && front.End() == rest.start && rest.End() == gone.End()
    requires AreaWritten(m, m', rest)
    ensures Replaces(m, m', [gone], [front, rest], gone.start, gone.End())
  {
    var mid := [front, rest];
    SlotOf(mid, 0);
    SlotOf(mid, 1);
    WrittenMove(m, m', rest, gone, mid, 1);
    TiledPair(front, rest);
  }

  lemma DonatedReplaces(m: Memory, m': Memory, left: Area, gone: Area, longer: Area, rest: Area)
    requires OVERHEAD < longer.size && OVERHEAD < rest.size && rest.kind.Pending?
    requires Donated(m, m', left, longer, rest.size)
    requires longer.start == left.start && gone.start == left.End() && rest.End() == gone.End() && longer.End() == rest.start
    requires (gone.start + 8) % PAGE != 8
    ensures Replaces(m, m', [left, gone], [longer, rest], left.start, gone.End())
  {
    DonatedMove(m, m', left, gone, longer, rest);
    TiledPair(longer, rest);
  }

  /** The bytes in front of the page boundary become a free area of their own; m1 is the memory after
      create_area, m' after the size of what remains has been written. */
  lemma WasteStep(m: Memory, m1: Memory, m': Memory, areas: seq<Area>, end: int,
                  data: Stores, free: multiset<int>, used: multiset<int>, i: nat, lead: int, waste: Area, rest: Area)
    requires Consistent(m, areas, end, data, free, used) && i < |areas| && areas[i].kind.Pending?
    requires OVERHEAD < lead < areas[i].size - OVERHEAD
    requires waste == Area(areas[i].start, lead, Free) && rest == Area(waste.End(), areas[i].size - lead, Pending)
    requires AreaWritten(m, m1, waste) && Stored(m1, m', rest.start, rest.size)
    ensures Consistent(m', areas[..i] + [waste, rest] + areas[i + 1..], end, data, free + multiset{waste.start}, used)
  {
    hide Consistent, KeepsData, InPayload, Replaces, ReplacesTail, AreaWritten, Starts;
    Ranges(m, areas, end, data, free, used, i);
    assert areas[i..i + 1] == [areas[i]];
    WasteReplaces(m, m1, m', areas[i], waste, rest);
    One(areas[i]);
    Two(waste, rest);
    ToTail(m, m', [areas[i]], [waste, rest], areas[i].start, areas[i].End());
    NoOwners(m', [areas[i]], [waste, rest], data);
    SpliceConsistent(m, m', areas, end, end, data, free, used, i, i + 1, [waste, rest]);
    assert free - Starts(areas[i..i + 1], Free) + Starts([waste, rest], Free) == free + multiset{waste.start};
    assert used - Starts(areas[i..i + 1], Used) + Starts([waste, rest], Used) == used;
  }

  lemma ShortLead(s: int, lead: int)
    requires 0 < lead <= OVERHEAD && (s + lead + HEADER) % PAGE == 0
    ensures (s + 8) % PAGE != 8
  {
  }

  lemma DonatedKeeps(m: Memory, m': Memory, areas: seq<Area>, end: int, data: Stores, free: multiset<int>, used: multiset<int>,
                     i: nat, longer: Area, rest: Area)
    requires Consistent(m, areas, end, data, free, used) && 0 < i < |areas| && areas[i].kind.Pending?
    requires longer.start == areas[i - 1].start && longer.kind == areas[i - 1].kind && longer.size >= areas[i - 1].size
    requires Donated(m, m', areas[i - 1], longer, rest.size)
    ensures KeepsData(m', [areas[i - 1], areas[i]], [longer, rest], data)
  {
    hide Framed, AgreeOutside, Tiled, Depicts, NoStrayMagic;
    var mid := [longer, rest];
    forall k | k in data.words && InPayload([areas[i - 1], areas[i]], k)
      ensures InPayload(mid, k) && k in m' && m'[k] == data.words[k]
    {
      assert mid[0] == longer;
    }
  }

  /** The lead is too short for an area of its own: the left neighbour takes it. */
  lemma DonateStep(m: Memory, m': Memory, areas: seq<Area>, end: int, data: Stores, free: multiset<int>, used: multiset<int>,
                   i: nat, lead: int, longer: Area, rest: Area)
    requires Consistent(m, areas, end, data, free, used) && 0 < i < |areas| && areas[i].kind.Pending? && areas[i - 1].kind.Used?
    requires 0 < lead <= OVERHEAD < areas[i].size - lead && (areas[i].start + lead + HEADER) % PAGE == 0
    requires longer == areas[i - 1].(size := areas[i - 1].size + lead)
    requires rest == Area(areas[i].start + lead, areas[i].size - lead, Pending)
    requires Donated(m, m', areas[i - 1], longer, rest.size)
    ensures Consistent(m', areas[..i - 1] + [longer, rest] + areas[i + 1..], end, data, free, used)
  {
    hide Consistent, KeepsData, InPayload, Replaces, ReplacesTail, AreaWritten, Starts;
    var left, gone := areas[i - 1], areas[i];
    Ranges(m, areas, end, data, free, used, i);
    assert left.End() == gone.start;
    assert areas[i - 1..i + 1] == [left, gone];
    ShortLead(gone.start, lead);
    DonatedReplaces(m, m', left, gone, longer, rest);
    Two(left, gone);
    Two(longer, rest);
    ToTail(m, m', [left, gone], [longer, rest], left.start, gone.End());
    StartsSegment(m, areas, end, data, free, used, i - 1, i + 1);
    DonatedKeeps(m, m', areas, end, data, free, used, i, longer, rest);
    SpliceConsistent(m, m', areas, end, end, data, free, used, i - 1, i + 1, [longer, rest]);
    StartsSegment(m, areas, end, data, free, used, i - 1, i + 1);
    assert free - Starts(areas[i - 1..i + 1], Free) + Starts([longer, rest], Free) == free;
    assert used - Starts(areas[i - 1..i + 1], Used) + Starts([longer, rest], Used) == used;
  }

  lemma UseReplaces(m: Memory, m': Memory, gone: Area, taken: Area)
    requires OVERHEAD < gone.size < MAGIC < gone.start && taken == gone.(kind := Used)
    requires AreaWritten(m, m', taken)
    ensures Replaces(m, m', [gone], [taken], gone.start, gone.End())
  {
    SlotOf([taken], 0);
    WrittenMove(m, m', taken, gone, [taken], 0);
  }

  /** What the request does not need becomes a free area behind it. */
  lemma SplitStep(m: Memory, m': Memory, areas: seq<Area>, end: int, data: Stores, free: multiset<int>, used: multiset<int>,
                  i: nat, front: Area, rest: Area)
    requires Consistent(m, areas, end, data, free, used) && i < |areas| && areas[i].kind.Pending?
    requires front.start == areas[i].start && front.kind.Pending? && front.size > OVERHEAD
    requires rest.start == front.End() && rest.End() == areas[i].End() && rest.kind.Free? && rest.size > OVERHEAD
    requires AreaWritten(m, m', rest)
    ensures Consistent(m', areas[..i] + [front, rest] + areas[i + 1..], end, data, free + multiset{rest.start}, used)
  {
    hide Consistent, KeepsData, InPayload, Replaces, ReplacesTail, AreaWritten, Starts;
    Ranges(m, areas, end, data, free, used, i);
    assert areas[i..i + 1] == [areas[i]];
    SplitReplaces(m, m', areas[i], front, rest);
    One(areas[i]);
    Two(front, rest);
    ToTail(m, m', [areas[i]], [front, rest], areas[i].start, areas[i].End());
    NoOwners(m', [areas[i]], [front, rest], data);
    SpliceConsistent(m, m', areas, end, end, data, free, used, i, i + 1, [front, rest]);
    assert free - Starts(areas[i..i + 1], Free) + Starts([front, rest], Free) == free + multiset{rest.start};
    assert used - Starts(areas[i..i + 1], Used) + Starts([front, rest], Used) == used;
  }

  /** The pending area becomes the allocation. */
  lemma UseStep(m: Memory, m': Memory, areas: seq<Area>, end: int, data: Stores, free: multiset<int>, used: multiset<int>, i: nat, taken: Area)
    requires Consistent(m, areas, end, data, free, used) && i < |areas| && areas[i].kind.Pending?
    requires taken == areas[i].(kind := Used) && AreaWritten(m, m', taken)
    ensures Consistent(m', areas[..i] + [taken] + areas[i + 1..], end, data, free, used + multiset{taken.start})
  {
    hide Consistent, KeepsData, InPayload, Replaces, ReplacesTail, AreaWritten, Starts;
    Ranges(m, areas, end, data, free, used, i);
    assert areas[i..i + 1] == [areas[i]];
    UseReplaces(m, m', areas[i], taken);
    One(areas[i]);
    One(taken);
    ToTail(m, m', [areas[i]], [taken], areas[i].start, areas[i].End());
    NoOwners(m', [areas[i]], [taken], data);
    SpliceConsistent(m, m', areas, end, end, data, free, used, i, i + 1, [taken]);
    assert free - Starts(areas[i..i + 1], Free) + Starts([taken], Free) == free;
    assert used - Starts(areas[i..i + 1], Used) + Starts([taken], Used) == used + multiset{taken.start};
  }

  // ----- releasing

  /** a is framed as a free area; every other magic number was there before. */
  ghost predicate Reframed(m: Memory, m': Memory, a: Area) {
    && Framed(m', a.(kind := Free))
    && (forall k | k in m' && m'[k] == MAGIC && k != a.start + 8 && k != a.End() - 8 :: k in m && m[k] == MAGIC)
  }

  lemma MergeReplaces(m: Memory, m': Memory, l: Area, r: Area, joined: Area)
    requires OVERHEAD < l.size && OVERHEAD < r.size && l.End() == r.start
    requires joined.start == l.start && joined.size == l.size + r.size && !joined.kind.Used?
    requires Reframed(m, m', joined) && AgreeOutside(m, m', l.start, r.End())
    requires !IsMagic(m', l.End() - 8) && !IsMagic(m', r.start + 8)
    ensures Replaces(m, m', [l, r], [joined], l.start, r.End())
  {
    hide AgreeOutside;
    SlotOf([joined], 0);
  }

  lemma Reinsert(f: multiset<int>, a: multiset<int>)
    requires a <= f
    ensures f - a + a == f
  {
  }

  /** The right one is in no index and the left one stays where it is, so neither index changes. */
  lemma MergeIndexes(m: Memory, areas: seq<Area>, end: int, data: Stores, free: multiset<int>, used: multiset<int>, i: nat, joined: Area)
    requires Consistent(m, areas, end, data, free, used) && i + 1 < |areas|
    requires joined.start == areas[i].start && joined.kind == areas[i].kind && areas[i + 1].kind.Pending?
    ensures free - Starts(areas[i..i + 2], Free) + Starts([joined], Free) == free
    ensures used - Starts(areas[i..i + 2], Used) + Starts([joined], Used) == used
  {
    var l, r := areas[i], areas[i + 1];
    assert Only(joined, Free) == Only(l, Free) == Only(l, Free) + Only(r, Free);
    assert Only(joined, Used) == Only(l, Used) == Only(l, Used) + Only(r, Used);
    hide Consistent, Starts, Only;
    StartsSegment(m, areas, end, data, free, used, i, i + 2);
    assert areas[i..i + 2] == [l, r];
    Two(l, r);
    One(joined);
    Reinsert(free, Only(l, Free));
    Reinsert(used, Only(l, Used));
  }

  /** Two neighbours become one area. */
  lemma MergeStep(m: Memory, m': Memory, areas: seq<Area>, end: int, data: Stores, free: multiset<int>, used: multiset<int>, i: nat, joined: Area)
    requires Consistent(m, areas, end, data, free, used) && i + 1 < |areas|
    requires joined == areas[i].(size := areas[i].size + areas[i + 1].size) && !joined.kind.Used? && areas[i + 1].kind.Pending?
    requires Reframed(m, m', joined) && AgreeOutside(m, m', areas[i].start, areas[i + 1].End())
    requires !IsMagic(m', areas[i].End() - 8) && !IsMagic(m', areas[i + 1].start + 8)
    ensures Consistent(m', areas[..i] + [joined] + areas[i + 2..], end, data, free, used)
  {
    hide Consistent, KeepsData, InPayload, Replaces, ReplacesTail, Reframed, AgreeOutside, Starts, IsMagic;
    var l, r := areas[i], areas[i + 1];
    Ranges(m, areas, end, data, free, used, i);
    Ranges(m, areas, end, data, free, used, i + 1);
    assert areas[i..i + 2] == [l, r];
    MergeReplaces(m, m', l, r, joined);
    ToTail(m, m', [l, r], [joined], l.start, r.End());
    NoOwners(m', [l, r], [joined], data);
    MergeIndexes(m, areas, end, data, free, used, i, joined);
    SpliceConsistent(m, m', areas, end, end, data, free, used, i, i + 2, [joined]);
  }

  lemma ToTail(m: Memory, m': Memory, segment: seq<Area>, mid: seq<Area>, lo: int, hi: int)
    requires Replaces(m, m', segment, mid, lo, hi)
    ensures ReplacesTail(m, m', segment, mid, lo, hi)
  {
    hide MagicsMove, Depicts, Tiled;
  }

  lemma RetypeReplaces(m: Memory, m': Memory, a: Area)
    requires OVERHEAD < a.size && a.kind.Pending? && Stored(m, m', a.start + 4, TypeOf(Free))
    ensures Replaces(m, m', [a], [a], a.start, a.End())
  {
    assert MagicsMove(m, m, [a], [a]);
    StoredMove(m, m, m', [a], [a], a.start + 4, TypeOf(Free));
    hide MagicsMove;
  }

  /** The header of the area just released says free. */
  lemma RetypeStep(m: Memory, m': Memory, areas: seq<Area>, end: int, data: Stores, free: multiset<int>, used: multiset<int>, i: nat)
    requires Consistent(m, areas, end, data, free, used) && i < |areas| && areas[i].kind.Pending?
    requires Stored(m, m', areas[i].start + 4, TypeOf(Free))
    ensures Consistent(m', areas, end, data, free, used)
  {
    hide Consistent, Replaces, Stored;
    Ranges(m, areas, end, data, free, used, i);
    RetypeReplaces(m, m', areas[i]);
    NoOwners(m', [areas[i]], [areas[i]], data);
    SameSegment(m, m', areas, end, data, free, used, i);
  }

  /** A segment of one that replaces itself. */
  lemma SameSegment(m: Memory, m': Memory, areas: seq<Area>, end: int, data: Stores, free: multiset<int>, used: multiset<int>, i: nat)
    requires Consistent(m, areas, end, data, free, used) && i < |areas|
    requires Replaces(m, m', [areas[i]], [areas[i]], areas[i].start, areas[i].End())
    requires KeepsData(m', [areas[i]], [areas[i]], data)
    ensures Consistent(m', areas, end, data, free, used)
  {
    hide Consistent, KeepsData, InPayload, Replaces, ReplacesTail, Starts;
    var a := areas[i];
    Ranges(m, areas, end, data, free, used, i);
    assert areas[i..i + 1] == [a];
    ToTail(m, m', [a], [a], a.start, a.End());
    StartsSegment(m, areas, end, data, free, used, i, i + 1);
    SpliceConsistent(m, m', areas, end, end, data, free, used, i, i + 1, [a]);
    assert areas[..i] + [a] + areas[i + 1..] == areas;
    assert free - Starts(areas[i..i + 1], Free) + Starts([a], Free) == free;
    assert used - Starts(areas[i..i + 1], Used) + Starts([a], Used) == used;
  }

  /** The words that change when two neighbours are joined: the size, the footer's pointer, the two magic
      numbers that end up inside, and the type. */
  ghost predicate Joined(m: Memory, m': Memory, l: Area, r: Area) {
    && l.start in m' && m'[l.start] == l.size + r.size
    && l.start + 4 in m' && m'[l.start + 4] == TypeOf(Free)
    && r.End() - 4 in m' && m'[r.End() - 4] == l.start
    && l.End() - 8 in m' && m'[l.End() - 8] == 0
    && r.start + 8 in m' && m'[r.start + 8] == 0
    && (forall k | AllApart(k, l, r) :: (k in m' <==> k in m) && (k in m ==> m'[k] == m[k]))
    && (forall k | k in m' :: k in m || k == l.start || k == l.start + 4 || k == r.End() - 4 || k == l.End() - 8 || k == r.start + 8)
    && (forall k | k in m' && m'[k] == MAGIC :: k in m && m[k] == MAGIC)
  }

  ghost predicate AllApart(k: int, l: Area, r: Area) {
    Apart(k, l.start) && Apart(k, l.start + 4) && Apart(k, r.End() - 4) && Apart(k, l.End() - 8) && Apart(k, r.start + 8)
  }

  predicate Apart(k: int, a: int) {
    k + 4 <= a || a + 4 <= k
  }

  lemma JoinedEffect(m: Memory, m': Memory, l: Area, r: Area, joined: Area)
    requires Framed(m, l.(kind := Free)) && Framed(m, r.(kind := Free)) && Joined(m, m', l, r)
    requires OVERHEAD < l.size && OVERHEAD < r.size && l.End() == r.start
    requires joined.start == l.start && joined.size == l.size + r.size
    ensures Reframed(m, m', joined) && AgreeOutside(m, m', l.start, r.End())
    ensures !IsMagic(m', l.End() - 8) && !IsMagic(m', r.start + 8)
  {
  }

  // ----- the end of the row moves

  lemma ResizeReplaces(m: Memory, m': Memory, gone: Area, a: Area)
    requires OVERHEAD < a.size && a.start == gone.start && a.kind.Free?
    requires Reframed(m, m', a) && AgreeBelow(m, m', a.start) && !IsMagic(m', gone.End() - 8)
    ensures ReplacesTail(m, m', [gone], [a], a.start, a.End())
  {
    hide AgreeBelow;
    SlotOf([a], 0);
  }

  /** The last area, a free one, gets another size. */
  lemma ResizeStep(m: Memory, m': Memory, areas: seq<Area>, end: int, end': int, data: Stores, free: multiset<int>, used: multiset<int>, i: nat, a: Area)
    requires Consistent(m, areas, end, data, free, used) && i + 1 == |areas| && areas[i].kind.Free?
    requires end' % PAGE == 0 && end' <= TOP
    requires a.start == areas[i].start && a.End() == end' && OVERHEAD < a.size && a.kind.Free?
    requires Reframed(m, m', a) && AgreeBelow(m, m', a.start) && !IsMagic(m', areas[i].End() - 8)
    ensures Consistent(m', areas[..i] + [a], end', data, free, used)
  {
    hide Consistent, KeepsData, InPayload, Replaces, ReplacesTail, Reframed, AgreeBelow, Starts;
    Ranges(m, areas, end, data, free, used, i);
    assert areas[i..i + 1] == [areas[i]];
    ResizeReplaces(m, m', areas[i], a);
    StartsSegment(m, areas, end, data, free, used, i, i + 1);
    One(areas[i]);
    One(a);
    NoOwners(m', [areas[i]], [a], data);
    SpliceConsistent(m, m', areas, end, end', data, free, used, i, i + 1, [a]);
    ReplacedLast(areas, free, used, i, a);
  }

  lemma ReplacedLast(areas: seq<Area>, free: multiset<int>, used: multiset<int>, i: nat, a: Area)
    requires i + 1 == |areas| && areas[i..i + 1] == [areas[i]] && Starts([areas[i]], Free) <= free && Starts([areas[i]], Used) <= used
    requires Starts([a], Free) == Starts([areas[i]], Free) && Starts([a], Used) == Starts([areas[i]], Used)
    ensures areas[..i] + [a] + areas[i + 1..] == areas[..i] + [a]
    ensures free - Starts(areas[i..i + 1], Free) + Starts([a], Free) == free
    ensures used - Starts(areas[i..i + 1], Used) + Starts([a], Used) == used
  {
    hide Starts;
  }

  lemma AppendReplaces(m: Memory, m': Memory, last: Area, a: Area)
    requires OVERHEAD < last.size && last.End() == a.start && OVERHEAD < a.size < MAGIC < a.start
    requires !last.kind.Pending? && Framed(m, last) && AreaWritten(m, m', a)
    ensures ReplacesTail(m, m', [last], [last, a], last.start, a.End())
  {
    var mid := [last, a];
    SlotOf(mid, 0);
    TiledPair(last, a);
    hide Tiled;
    WrittenMove(m, m', a, last, mid, 1);
  }

  lemma AppendKeeps(m: Memory, m': Memory, areas: seq<Area>, end: int, data: Stores, free: multiset<int>, used: multiset<int>, i: nat, a: Area)
    requires Consistent(m, areas, end, data, free, used) && i + 1 == |areas|
    requires a.start >= areas[i].End() && a.size > OVERHEAD && AreaWritten(m, m', a)
    ensures KeepsData(m', [areas[i]], [areas[i], a], data)
  {
    hide Framed, Tiled, Depicts, NoStrayMagic;
    var mid := [areas[i], a];
    forall k | k in data.words && InPayload([areas[i]], k)
      ensures InPayload(mid, k) && k in m' && m'[k] == data.words[k]
    {
      assert mid[0] == areas[i];
      assert Clear(a, k);
    }
  }

  /** A new free area behind the last one. */
  lemma AppendStep(m: Memory, m': Memory, areas: seq<Area>, end: int, data: Stores, free: multiset<int>, used: multiset<int>, i: nat, a: Area)
    requires Consistent(m, areas, end, data, free, used) && i + 1 == |areas| && !areas[i].kind.Pending?
    requires a.start == end && OVERHEAD < a.size && a.kind.Free? && a.End() % PAGE == 0 && a.End() <= TOP
    requires AreaWritten(m, m', a)
    ensures Consistent(m', areas + [a], a.End(), data, free + multiset{a.start}, used)
  {
    hide Consistent, KeepsData, InPayload, Replaces, ReplacesTail, AreaWritten, Starts;
    Ranges(m, areas, end, data, free, used, i);
    assert areas[i..i + 1] == [areas[i]];
    AppendReplaces(m, m', areas[i], a);
    StartsSegment(m, areas, end, data, free, used, i, i + 1);
    One(areas[i]);
    Two(areas[i], a);
    AppendKeeps(m, m', areas, end, data, free, used, i, a);
    SpliceConsistent(m, m', areas, end, a.End(), data, free, used, i, i + 1, [areas[i], a]);
    assert areas[..i] + [areas[i], a] + areas[i + 1..] == areas + [a];
    assert free - Starts(areas[i..i + 1], Free) + Starts([areas[i], a], Free) == free + multiset{a.start};
    assert used - Starts(areas[i..i + 1], Used) + Starts([areas[i], a], Used) == used;
  }

  // ----- the owner of an allocation writes to it

  /** What was stored, after an owner stored v at the given address. */
  function Written(words: Memory, at: int, v: int): Memory {
    (map k | k in words && (k + 4 <= at || at + 4 <= k) :: words[k])[at := v]
  }

  function StoredBy(data: Stores, at: int, v: int): Stores {
    Stores(Written(data.words, at, v), if v == MAGIC && at % PAGE == 8 then data.strays + {at} else data.strays)
  }

  /** Whatever an owner stores in its payload, the magic number included, the heap stays consistent. */
  lemma PayloadStep(m: Memory, m': Memory, areas: seq<Area>, end: int, data: Stores, free: multiset<int>, used: multiset<int>,
                    i: nat, at: int, v: int)
    requires Consistent(m, areas, end, data, free, used) && i < |areas| && areas[i].kind.Used?
    requires Stored(m, m', at, v)
    requires areas[i].start + HEADER <= at && at + 4 <= areas[i].End() - FOOTER
    ensures Consistent(m', areas, end, StoredBy(data, at, v), free, used)
  {
    hide Starts;
    PayloadDepicts(m, m', areas, end, i, at, v);
    hide Tiled, Depicts, Written;
    assert NoStrayMagic(m', areas, StoredBy(data, at, v).strays);
    hide NoStrayMagic;
    PayloadBacked(m, m', areas, data, i, at, v);
  }

  lemma PayloadDepicts(m: Memory, m': Memory, areas: seq<Area>, end: int, i: nat, at: int, v: int)
    requires Tiled(areas, HEAP_BASE, end) && Depicts(m, areas) && i < |areas| && Stored(m, m', at, v)
    requires areas[i].start + HEADER <= at && at + 4 <= areas[i].End() - FOOTER
    ensures Depicts(m', areas)
  {
    AllOrdered(areas, HEAP_BASE, end);
    forall n | 0 <= n < |areas| && !areas[n].kind.Pending?
      ensures Framed(m', areas[n])
    {
      assert Framed(m, areas[n]);
    }
  }

  lemma PayloadBacked(m: Memory, m': Memory, areas: seq<Area>, data: Stores, i: nat, at: int, v: int)
    requires Backed(m, areas, data) && i < |areas| && areas[i].kind.Used? && Stored(m, m', at, v)
    requires areas[i].start + HEADER <= at && at + 4 <= areas[i].End() - FOOTER
    ensures Backed(m', areas, StoredBy(data, at, v))
  {
    assert InPayload(areas, at);
  }
}
