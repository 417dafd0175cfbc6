/** The kernel heap (src/kernel/heap.c): a boundary-tag allocator over two indexes. */
module Heaps {
  import opened Options
  import opened Tiling
  import opened HeapMemory
  import opened HeapSteps
  import opened OrderedArrays

  /** An index entry that can take a request of the given size. */
  predicate Fits(m: Memory, h: int, size: int, pageAlign: bool) {
    Load(m, h) >= size && Load(m, h) - Lead(h, pageAlign) >= size
  }

  /** The first entry in index order that fits, if there is one. The index is ordered by the sizes its
      entries had when they were inserted, so this need not be the smallest hole. */
  ghost predicate FirstFit(m: Memory, index: seq<int>, size: int, pageAlign: bool, r: Option<int>) {
    match r
    case Some(h) =>
      exists k :: 0 <= k < |index| && index[k] == h && Fits(m, h, size, pageAlign)
                  && forall n | 0 <= n < k :: !Fits(m, index[n], size, pageAlign)
    case None => forall k | 0 <= k < |index| :: !Fits(m, index[k], size, pageAlign)
  }

  class Heap {
    var mem: Memory
    var endAddress: int
    var rightmost: int
    const freeIndex: OrderedArray
    const usedIndex: OrderedArray
    ghost var areas: seq<Area>
    /** What the owners of live allocations have stored in them. */
    ghost var data: Stores

    ghost function Repr(): set<object> {
      {this, freeIndex, usedIndex, freeIndex.items, usedIndex.items}
    }

    ghost predicate Wired()
      reads freeIndex, usedIndex
    {
      && freeIndex.Valid() && usedIndex.Valid()
      && freeIndex != usedIndex && freeIndex.items != usedIndex.items
      && freeIndex.maxSize == INDEX_SIZE && usedIndex.maxSize == INDEX_SIZE
    }

    ghost function FreeSet(): multiset<int>
      reads freeIndex, freeIndex.items
      requires freeIndex.Valid()
    {
      multiset(freeIndex.Contents())
    }

    ghost function UsedSet(): multiset<int>
      reads usedIndex, usedIndex.items
      requires usedIndex.Valid()
    {
      multiset(usedIndex.Contents())
    }

    ghost predicate Coherent()
      reads Repr()
    {
      Wired() && Consistent(mem, areas, endAddress, data, FreeSet(), UsedSet())
    }

    /** While an area is being released: it is framed as free, whether or not it is in the index yet. */
    ghost predicate Releasing(i: nat)
      reads Repr()
    {
      && Coherent() && i < |areas| && rightmost == areas[|areas| - 1].start
      && !areas[i].kind.Used? && Framed(mem, areas[i].(kind := Free))
      && OthersListed(areas, i, i)
    }

    ghost predicate Valid()
      reads Repr()
    {
      Coherent() && Settled(areas) && rightmost == areas[|areas| - 1].start
    }

    /** heap_create for the kernel heap: one free area spans what the index arrays leave. */
    constructor ()
      ensures Valid() && fresh(Repr())
      ensures areas == [Area(HEAP_BASE, KHEAP_INITIAL_SIZE - 2 * 4 * INDEX_SIZE, Free)] && data == Stores(map[], {})
    {
      freeIndex := new OrderedArray(INDEX_SIZE);
      usedIndex := new OrderedArray(INDEX_SIZE);
      mem := map[];
      var start := HEAP_BASE;
      var initialSize := KHEAP_INITIAL_SIZE - 2 * 4 * INDEX_SIZE;
      endAddress := start + initialSize;
      rightmost := start;
      areas := [Area(start, initialSize, Free)];
      data := Stores(map[], {});
      new;
      PlaceFirst(start, initialSize);
    }

    method PlaceFirst(start: int, size: int)
      requires Wired() && freeIndex.Contents() == [] && usedIndex.Contents() == [] && mem == map[] && data == Stores(map[], {})
      requires start == HEAP_BASE && endAddress == start + size && areas == [Area(start, size, Free)] && rightmost == start
      requires OVERHEAD < size < MAGIC && endAddress % PAGE == 0 && endAddress <= TOP
      modifies this`mem, freeIndex`size, freeIndex.items
      ensures Valid()
    {
      hide Consistent, AreaWritten, Inserted;
      ghost var m := mem;
      PokeArea(start, size, Free);
      assert freeIndex.size == |freeIndex.Contents()| == 0;
      var ok := freeIndex.Insert(start, BySize());
      FirstArea(m, mem, areas, endAddress);
      assert FreeSet() == multiset{HEAP_BASE};
      assert usedIndex.Contents() == [];
    }

    /** area_header_t_less_than: compares the sizes in memory now. */
    function BySize(): LessThan
      reads this`mem
    {
      var m := mem;
      (a: int, b: int) => Load(m, a) < Load(m, b)
    }

    // ----- writing areas

    method Poke(a: int, v: int)
      modifies this`mem
      ensures Stored(old(mem), mem, a, v)
    {
      mem := (map k | k in mem && (k + 4 <= a || a + 4 <= k) :: mem[k])[a := v];
    }

    method PokeFooter(start: int, size: int)
      requires size > OVERHEAD
      modifies this`mem
      ensures FooterWritten(old(mem), mem, start, size)
    {
      Poke(start + size - 8, MAGIC);
      Poke(start + size - 4, start);
    }

    method PokeArea(start: int, size: int, kind: Kind)
      requires size > OVERHEAD
      modifies this`mem
      ensures AreaWritten(old(mem), mem, Area(start, size, kind))
    {
      ghost var m0 := mem;
      Poke(start, size);
      ghost var m1 := mem;
      Poke(start + 8, MAGIC);
      ghost var m2 := mem;
      Poke(start + 4, TypeOf(kind));
      ghost var m3 := mem;
      HeaderThree(m0, m1, m2, m3, start, size, TypeOf(kind));
      PokeFooter(start, size);
      HeaderThenFooter(m0, m3, mem, Area(start, size, kind));
    }

    /** create_area. Its assertions are the requirements; that they never fail is what the callers prove. */
    method CreateArea(address: int, size: int, kind: Kind)
      requires Wired() && !kind.Pending?
      requires size > OVERHEAD && HEAP_BASE <= address && address + size <= endAddress
      requires NoCollision(mem, freeIndex.Contents(), Area(address, size, kind))
      requires NoCollision(mem, usedIndex.Contents(), Area(address, size, kind))
      modifies this`mem, this`rightmost
      ensures AreaWritten(old(mem), mem, Area(address, size, kind))
      ensures rightmost == if address > old(rightmost) then address else old(rightmost)
    {
      PokeArea(address, size, kind);
      if address > rightmost {
        rightmost := address;
      }
    }

    // ----- the indexes

    lemma Sets()
      requires Wired()
      ensures FreeSet() == multiset(freeIndex.Contents()) && UsedSet() == multiset(usedIndex.Contents())
      ensures |FreeSet()| == freeIndex.size && |UsedSet()| == usedIndex.size
    {
      assert freeIndex.size == |freeIndex.Contents()| && usedIndex.size == |usedIndex.Contents()|;
    }

    lemma Sizes()
      requires Coherent()
      ensures freeIndex.size == |Starts(areas, Free)| && usedIndex.size == |Starts(areas, Used)|
      ensures |areas| == 1 ==> Starts(areas, Free) == Only(areas[0], Free) && Starts(areas, Used) == Only(areas[0], Used)
    {
      Sets();
      if |areas| == 1 {
        assert areas == [areas[0]];
        One(areas[0]);
      }
    }

    method EnterFree(header: int) returns (ok: bool)
      requires Wired()
      modifies freeIndex`size, freeIndex.items
      ensures Wired() && ok == (old(freeIndex.size) < INDEX_SIZE)
      ensures ok ==> FreeSet() == old(FreeSet()) + multiset{header} && freeIndex.size == old(freeIndex.size) + 1
      ensures UsedSet() == old(UsedSet())
    {
      hide Inserted;
      ghost var order := BySize();
      ok := freeIndex.Insert(header, BySize());
      assert ok ==> FreeSet() == multiset(Inserted(old(freeIndex.Contents()), header, order));
      assert freeIndex.size == |freeIndex.Contents()| && UsedSet() == multiset(usedIndex.Contents());
    }

    method EnterUsed(header: int) returns (ok: bool)
      requires Wired()
      modifies usedIndex`size, usedIndex.items
      ensures Wired() && ok == (old(usedIndex.size) < INDEX_SIZE)
      ensures ok ==> UsedSet() == old(UsedSet()) + multiset{header} && usedIndex.size == old(usedIndex.size) + 1
      ensures FreeSet() == old(FreeSet())
    {
      hide Inserted;
      ghost var order := BySize();
      ok := usedIndex.Insert(header, BySize());
      assert ok ==> UsedSet() == multiset(Inserted(old(usedIndex.Contents()), header, order));
      assert usedIndex.size == |usedIndex.Contents()| && FreeSet() == multiset(freeIndex.Contents());
    }

    method LeaveFree(header: int)
      requires Wired() && header in FreeSet()
      modifies freeIndex`size, freeIndex.items
      ensures Wired() && FreeSet() == old(FreeSet()) - multiset{header} && freeIndex.size == old(freeIndex.size) - 1
      ensures UsedSet() == old(UsedSet())
    {
      hide Removed;
      assert header in freeIndex.Contents();
      freeIndex.RemoveItem(header);
    }

    method LeaveUsed(header: int)
      requires Wired() && header in UsedSet()
      modifies usedIndex`size, usedIndex.items
      ensures Wired() && UsedSet() == old(UsedSet()) - multiset{header} && usedIndex.size == old(usedIndex.size) - 1
      ensures FreeSet() == old(FreeSet())
    {
      hide Removed;
      assert header in usedIndex.Contents();
      usedIndex.RemoveItem(header);
    }

    // ----- looking for a hole

    /** find_smallest_hole; reads only. */
    method FindSmallestHole(size: int, pageAlign: bool) returns (r: Option<int>)
      requires Coherent()
      ensures FirstFit(mem, freeIndex.Contents(), size, pageAlign, r)
    {
      ghost var index := freeIndex.Contents();
      var i := 0;
      while i < freeIndex.size
        invariant 0 <= i <= freeIndex.size
        invariant forall k | 0 <= k < i :: !Fits(mem, index[k], size, pageAlign)
      {
        var header := freeIndex.items[i];
        assert index[i] == header && header in multiset(index);
        ghost var n := IndexedArea(mem, areas, endAddress, data, multiset(index), UsedSet(), Free, header);
        assert IsMagic(mem, header + 8) && mem[header + 4] == TypeOf(Free);
        if mem[header] >= size {
          if pageAlign {
            var offset := 0;
            if (header + HEADER) % PAGE != 0 {
              offset := PAGE - (header + HEADER) % PAGE;
            }
            if mem[header] - offset >= size {
              return Some(header);
            }
          } else {
            return Some(header);
          }
        }
        i := i + 1;
      }
      return None;
    }

    // ----- carving a hole

    /** create_area's assertions hold for any area inside the pending one. */
    lemma ClearInside(i: nat, a: Area)
      requires Coherent() && i < |areas| && areas[i].kind.Pending?
      requires areas[i].start <= a.start && a.End() <= areas[i].End() && a.size > 0
      ensures HEAP_BASE <= a.start && a.End() <= endAddress
      ensures NoCollision(mem, freeIndex.Contents(), a) && NoCollision(mem, usedIndex.Contents(), a)
      ensures i + 1 < |areas| ==> a.start < areas[|areas| - 1].start
    {
      var free, used := FreeSet(), UsedSet();
      WithinPending(areas, endAddress, i, a);
      AllOrdered(areas, HEAP_BASE, endAddress);
      CollisionFree(mem, areas, endAddress, data, free, used, Free, freeIndex.Contents(), a);
      CollisionFree(mem, areas, endAddress, data, free, used, Used, usedIndex.Contents(), a);
    }

    /** The lead is long enough to become a free area. */
    method LeadToWaste(area: int, offset: int, size: int, ghost i: nat) returns (ok: bool)
      requires Coherent() && i < |areas| && areas[i] == Area(area, size, Pending) && Rightmost(areas, i, rightmost)
      requires OVERHEAD < offset < size - OVERHEAD
      modifies this`mem, this`rightmost, this`areas, freeIndex`size, freeIndex.items
      ensures ok == (old(freeIndex.size) < INDEX_SIZE)
      ensures ok ==> Coherent() && freeIndex.size == old(freeIndex.size) + 1
      ensures ok ==> areas == old(areas)[..i] + [Area(area, offset, Free), Area(area + offset, size - offset, Pending)] + old(areas)[i + 1..]
      ensures ok ==> Rightmost(areas, i + 1, rightmost) && area + offset in mem && mem[area + offset] == size - offset
      ensures ok ==> AgreeAbove(old(mem), mem, area + size)
    {
      hide Consistent, NoCollision, AreaWritten, FreeSet, UsedSet, AgreeAbove;
      ghost var m, free, used := mem, FreeSet(), UsedSet();
      ghost var waste, rest := Area(area, offset, Free), Area(area + offset, size - offset, Pending);
      ClearInside(i, waste);
      CreateArea(area, offset, Free);
      ghost var m1 := mem;
      ok := EnterFree(area);
      Poke(area + offset, size - offset);
      if ok {
        WasteAbove(m, m1, mem, waste, rest);
        WasteStep(m, m1, mem, areas, endAddress, data, free, used, i, offset, waste, rest);
        areas := areas[..i] + [waste, rest] + areas[i + 1..];
      }
    }

    /** The lead is too short for an area: it is given to the area on the left, which exists because the
        heap starts on a page boundary, and is in use because no two free areas touch. */
    method LeadToNeighbour(area: int, offset: int, size: int, ghost i: nat)
      requires Coherent() && i < |areas| && areas[i] == Area(area, size, Pending) && Rightmost(areas, i, rightmost)
      requires i > 0 && areas[i - 1].kind.Used?
      requires 0 < offset <= OVERHEAD < size - offset && (area + offset + HEADER) % PAGE == 0
      modifies this`mem, this`areas
      ensures Coherent()
      ensures areas == old(areas)[..i - 1] + [old(areas)[i - 1].(size := old(areas)[i - 1].size + offset), Area(area + offset, size - offset, Pending)]
                       + old(areas)[i + 1..]
      ensures Rightmost(areas, i, rightmost) && area + offset in mem && mem[area + offset] == size - offset
      ensures AgreeAbove(old(mem), mem, area + size)
    {
      hide Consistent, FreeSet, UsedSet, Donated, Framed, AgreeAbove;
      ghost var m, free, used := mem, FreeSet(), UsedSet();
      ghost var left, rest := areas[i - 1], Area(area + offset, size - offset, Pending);
      ghost var longer := left.(size := left.size + offset);
      Ranges(mem, areas, endAddress, data, free, used, i);
      Ranges(mem, areas, endAddress, data, free, used, i - 1);
      GiveLead(area, offset, size, left, longer);
      DonatedAbove(m, mem, left, longer, area + size, size - offset);
      DonateStep(m, mem, areas, endAddress, data, free, used, i, offset, longer, rest);
      areas := areas[..i - 1] + [longer, rest] + areas[i + 1..];
    }

    /** The stores: the neighbour's old footer goes, its size and footer are written anew, and the hole's size moves on. */
    method GiveLead(area: int, offset: int, size: int, ghost left: Area, ghost longer: Area)
      requires Framed(mem, left) && OVERHEAD < left.size && left.End() == area && longer == left.(size := left.size + offset)
      requires 0 < offset && longer.size < MAGIC < left.start && size - offset < MAGIC
      modifies this`mem
      ensures Donated(old(mem), mem, left, longer, size - offset) && area + offset in mem && mem[area + offset] == size - offset
    {
      hide Stored, FooterWritten, Donated, Framed;
      ghost var m := mem;
      FramedWords(mem, left);
      var testFooter := area - FOOTER;
      if IsMagic(mem, testFooter) {
        var testHeader := mem[testFooter + 4];
        if IsMagic(mem, testHeader + 8) {
          Poke(testFooter, 0);
          ghost var m1 := mem;
          StoredElsewhere(m, m1, testFooter, 0, left.start);
          Poke(testHeader, mem[testHeader] + offset);
          ghost var m2 := mem;
          PokeFooter(testHeader, mem[testHeader]);
          ghost var m3 := mem;
          Poke(area + offset, size - offset);
          DonatedEffect(m, m1, m2, m3, mem, left, longer, size - offset);
          NewSize(mem, longer, m, left, size - offset);
        } else {
          assert false;
        }
      } else {
        assert false;
      }
    }

    /** What the request does not need becomes a free area; a short remainder stays with the request. */
    method SplitHole(area: int, gross: int, size: int, ghost i: nat) returns (ok: bool)
      requires Coherent() && i < |areas| && areas[i] == Area(area, size, Pending) && Rightmost(areas, i, rightmost)
      requires OVERHEAD < gross && size - gross >= MIN_REST
      modifies this`mem, this`rightmost, this`areas, freeIndex`size, freeIndex.items
      ensures ok == (old(freeIndex.size) < INDEX_SIZE)
      ensures ok ==> Coherent()
      ensures ok ==> areas == old(areas)[..i] + [Area(area, gross, Pending), Area(area + gross, size - gross, Free)] + old(areas)[i + 1..]
      ensures ok ==> Rightmost(areas, i, rightmost) && AgreeAbove(old(mem), mem, area + size)
    {
      hide Consistent, NoCollision, AreaWritten, FreeSet, UsedSet, AgreeAbove;
      ghost var m, free, used := mem, FreeSet(), UsedSet();
      ghost var front, rest := Area(area, gross, Pending), Area(area + gross, size - gross, Free);
      ClearInside(i, rest);
      CreateArea(area + gross, size - gross, Free);
      WrittenAbove(m, mem, rest);
      ok := EnterFree(area + gross);
      if ok {
        SplitStep(m, mem, areas, endAddress, data, free, used, i, front, rest);
        areas := areas[..i] + [front, rest] + areas[i + 1..];
      }
    }

    /** The pending area is written as used and enters its index. */
    method UseHole(area: int, size: int, ghost i: nat) returns (ok: bool)
      requires Coherent() && i < |areas| && areas[i] == Area(area, size, Pending) && Rightmost(areas, i, rightmost)
      modifies this`mem, this`rightmost, this`areas, usedIndex`size, usedIndex.items
      ensures ok == (old(usedIndex.size) < INDEX_SIZE)
      ensures ok ==> Coherent() && areas == old(areas)[..i] + [Area(area, size, Used)] + old(areas)[i + 1..]
      ensures ok ==> rightmost == areas[|areas| - 1].start && AgreeAbove(old(mem), mem, area + size)
    {
      hide Consistent, NoCollision, AreaWritten, FreeSet, UsedSet, TypeOf, Tiled, Rightmost, AgreeAbove;
      ghost var m, free, used := mem, FreeSet(), UsedSet();
      ghost var taken := Area(area, size, Used);
      Ranges(mem, areas, endAddress, data, free, used, i);
      ClearInside(i, taken);
      RightmostAfter(areas, i, taken, rightmost);
      CreateArea(area, size, Used);
      WrittenAbove(m, mem, taken);
      ok := EnterUsed(area);
      if ok {
        UseStep(m, mem, areas, endAddress, data, free, used, i, taken);
        areas := areas[..i] + [taken] + areas[i + 1..];
      }
    }

    /** The hole leaves its index and stands pending. */
    method TakeHole(area: int, ghost i: nat)
      requires Valid() && i < |areas| && areas[i].kind.Free? && areas[i].start == area
      modifies this`areas, freeIndex`size, freeIndex.items
      ensures Coherent() && areas == old(areas)[i := old(areas)[i].(kind := Pending)]
      ensures Rightmost(areas, i, rightmost)
      ensures freeIndex.size == old(freeIndex.size) - 1 && usedIndex.size == old(usedIndex.size)
    {
      hide Consistent, Settled, FreeSet, UsedSet;
      ghost var free, used := FreeSet(), UsedSet();
      EntryOf(i);
      LeaveFree(area);
      Unlist(mem, areas, endAddress, data, free, used, i);
      areas := areas[i := areas[i].(kind := Pending)];
    }

    lemma EntryOf(i: nat)
      requires Coherent() && i < |areas| && !areas[i].kind.Pending?
      ensures areas[i].start in (if areas[i].kind.Free? then freeIndex.Contents() else usedIndex.Contents())
      ensures areas[i].start in (if areas[i].kind.Free? then FreeSet() else UsedSet())
    {
      StartsHas(areas, i);
      assert areas[i].start in multiset(if areas[i].kind.Free? then freeIndex.Contents() else usedIndex.Contents());
    }

    /** Moves the front of the pending hole to where its data falls on a page boundary, if asked to. False
        when the free index is full, or when so little remains that create_area would refuse it. */
    method AlignHole(area: int, size: int, pageAlign: bool, ghost i: nat) returns (ok: bool, at: int, ghost n: nat)
      requires Coherent() && i < |areas| && areas[i] == Area(area, size, Pending) && Rightmost(areas, i, rightmost)
      requires area in mem && mem[area] == size
      requires i == 0 ==> Lead(area, pageAlign) == 0 || Lead(area, pageAlign) > OVERHEAD
      requires i > 0 ==> areas[i - 1].kind.Used?
      modifies this`mem, this`rightmost, this`areas, freeIndex`size, freeIndex.items
      ensures ok ==> at == area + Lead(area, pageAlign) && at in mem && mem[at] == size - Lead(area, pageAlign)
      ensures ok ==> Coherent() && n < |areas| && Rightmost(areas, n, rightmost) && freeIndex.size <= old(freeIndex.size) + 1
      ensures ok ==> areas[n] == Area(at, size - Lead(area, pageAlign), Pending) && n == |Front(old(areas), i, Lead(area, pageAlign))|
      ensures ok ==> areas == Front(old(areas), i, Lead(area, pageAlign)) + [areas[n]] + old(areas)[i + 1..]
      ensures ok ==> AgreeAbove(old(mem), mem, area + size)
      ensures old(freeIndex.size) < INDEX_SIZE && size - Lead(area, pageAlign) > OVERHEAD ==> ok
    {
      hide Consistent, FreeSet, UsedSet, Coherent, Rightmost;
      ok, at, n := true, area, i;
      if pageAlign && (area + HEADER) % PAGE != 0 {
        var offset := PAGE - (area + HEADER) % PAGE;
        assert offset == Lead(area, pageAlign);
        if size - offset <= OVERHEAD {
          ok := false;
        } else if offset > OVERHEAD {
          ok := LeadToWaste(area, offset, size, i);
          n := i + 1;
        } else {
          LeadToNeighbour(area, offset, size, i);
        }
        at := area + offset;
      }
    }

    /** Splits off what the request leaves over, and turns the pending hole into the allocation. */
    method PlaceRequest(at: int, request: int, size: int, ghost n: nat) returns (ok: bool)
      requires Coherent() && n < |areas| && areas[n] == Area(at, size, Pending) && Rightmost(areas, n, rightmost)
      requires 0 <= request <= size
      modifies this`mem, this`rightmost, this`areas, freeIndex`size, freeIndex.items, usedIndex`size, usedIndex.items
      ensures ok ==> Coherent() && rightmost == areas[|areas| - 1].start && AgreeAbove(old(mem), mem, at + size)
      ensures ok ==> areas == old(areas)[..n] + Placed(at, size, request) + old(areas)[n + 1..]
      ensures old(freeIndex.size) < INDEX_SIZE && old(usedIndex.size) < INDEX_SIZE && request > OVERHEAD ==> ok
    {
      hide Consistent, FreeSet, UsedSet;
      ghost var m, m1 := mem, mem;
      var gross := request;
      if size - gross >= MIN_REST {
        if gross <= OVERHEAD {
          return false;
        }
        ok := SplitHole(at, gross, size, n);
        if !ok {
          return;
        }
        m1 := mem;
      } else {
        gross := gross + (size - gross);
      }
      ok := UseHole(at, gross, n);
      if ok {
        AgreeAlong(m, m1, mem, at + size, at + size);
      }
    }

    /** The part of heap_alloc that runs once a hole has been found. The result is None when an assertion
        fails: an index is full, or so small a request is to be split off that it is no area. */
    method CarveHole(area: int, request: int, pageAlign: bool, ghost i: nat) returns (r: Option<int>)
      requires Valid() && 0 <= request && i < |areas| && areas[i].start == area && FitsArea(areas[i], request, pageAlign)
      modifies this`mem, this`endAddress, this`rightmost, this`areas, freeIndex`size, freeIndex.items, usedIndex`size, usedIndex.items
      ensures old(freeIndex.size) < INDEX_SIZE && old(usedIndex.size) < INDEX_SIZE && request > OVERHEAD ==> r.Some?
      ensures r.Some? ==> Valid() && endAddress == old(endAddress) && AgreeAbove(old(mem), mem, endAddress)
      ensures r.Some? ==> CarvedFrom(old(areas), i, areas, r.value, request, pageAlign)
    {
      hide Coherent, Wired, Consistent, FreeSet, UsedSet, Carved, CarvedFrom, Settled, Lead, Placed, Front, FitsArea, Pointer, DwordAlign, Rightmost, AgreeAbove;
      ghost var was, lead := areas, Lead(area, pageAlign);
      ghost var m, hi := mem, was[i].End();
      HoleFacts(i, request, pageAlign);
      TakeHole(area, i);
      var ok, at, n := AlignHole(area, mem[area], pageAlign, i);
      if !ok {
        return None;
      }
      FrontCongruent(was, i, Pending, lead);
      Around(Front(was, i, lead), areas[n], was[i + 1..]);
      ghost var m1 := mem;
      ok := PlaceRequest(at, request, mem[at], n);
      if !ok {
        return None;
      }
      AgreeAlong(m, m1, mem, hi, endAddress);
      CarvedIs(was, i, lead, request, Front(was, i, lead), areas);
      CarvedSettled(was, i, lead, request);
      CarvedHere(was, i, areas, request, pageAlign);
      return Some(DwordAlign(at + HEADER));
    }

    lemma HoleFacts(i: nat, request: int, pageAlign: bool)
      requires Coherent() && Settled(areas) && i < |areas| && FitsArea(areas[i], request, pageAlign)
      ensures Load(mem, areas[i].start) == areas[i].size && areas[i].start in mem
      ensures i == 0 ==> Lead(areas[i].start, pageAlign) == 0 || Lead(areas[i].start, pageAlign) > OVERHEAD
      ensures i > 0 ==> areas[i - 1].kind.Used?
      ensures areas[i].kind.Free? && 0 <= Lead(areas[i].start, pageAlign)
      ensures request <= areas[i].size - Lead(areas[i].start, pageAlign) && areas[i].End() <= endAddress
    {
      hide Consistent, FreeSet, UsedSet;
      Ranges(mem, areas, endAddress, data, FreeSet(), UsedSet(), i);
      FirstLead(mem, areas, endAddress, data, FreeSet(), UsedSet(), pageAlign);
    }

    // ----- growing and shrinking

    lemma Extent()
      requires Coherent()
      ensures HEAP_BASE < endAddress <= TOP && endAddress % PAGE == 0 && |areas| > 0
      ensures areas[|areas| - 1].size > 0 && Tiled(areas, HEAP_BASE, endAddress) && Backed(mem, areas, data)
      ensures areas[|areas| - 1].End() == endAddress
    {
      Ranges(mem, areas, endAddress, data, FreeSet(), UsedSet(), 0);
    }

    /** heap_expand, in the 32-bit arithmetic of the source. False stands for a failed assertion; the page
        frames for the new pages are taken to be available. */
    method Expand(request: int) returns (ok: bool)
      requires Coherent() && 0 <= request < WORD
      modifies this`endAddress
      ensures ok <==> CanGrow(old(endAddress), request)
      ensures endAddress == old(endAddress) + if ok then Growth(old(endAddress), request) else 0
      ensures ok ==> old(endAddress) < endAddress <= TOP && endAddress % PAGE == 0
      ensures ok ==> (endAddress - old(endAddress)) % PAGE == 0
    {
      hide Consistent, FreeSet, UsedSet, U32, RoundUp, Max;
      Extent();
      var sizeToAdd := WholePages(request);
      GrowthInWords(endAddress, RoundUp(Max(request, KHEAP_MIN_GROWTH)));
      if U32(HEAP_BASE + sizeToAdd) > KHEAP_MAX {
        sizeToAdd := U32((KHEAP_MAX - HEAP_BASE) - (endAddress - HEAP_BASE));
      }
      if !(U32(HEAP_BASE + sizeToAdd) <= KHEAP_MAX && U32(HEAP_BASE + sizeToAdd) > HEAP_BASE) {
        return false;
      }
      // All addresses here are whole pages, so the source's step back to a page boundary never happens.
      var newEnd := U32(endAddress + sizeToAdd);
      assert newEnd % PAGE == 0;
      if !(newEnd > endAddress) || U32(newEnd + PAGE) <= endAddress + PAGE {
        return false;
      }
      endAddress := newEnd;
      return true;
    }

    /** The request in whole pages, at least the minimum growth. */
    static method WholePages(request: int) returns (sizeToAdd: int)
      requires 0 <= request < WORD
      ensures sizeToAdd == U32(RoundUp(Max(request, KHEAP_MIN_GROWTH)))
      ensures 0 < RoundUp(Max(request, KHEAP_MIN_GROWTH)) <= WORD
    {
      sizeToAdd := request;
      if sizeToAdd < KHEAP_MIN_GROWTH {
        sizeToAdd := KHEAP_MIN_GROWTH;
      }
      if sizeToAdd % PAGE != 0 {
        sizeToAdd := sizeToAdd - sizeToAdd % PAGE;
        sizeToAdd := U32(sizeToAdd + PAGE);
      }
    }

    /** Turns the space between the old and the new end into free space: the rightmost area takes it if it is
        free, otherwise a new area does. False when the free index is full. */
    method AddSpace(added: int) returns (ok: bool)
      requires Wired() && Consistent(mem, areas, endAddress - added, data, FreeSet(), UsedSet())
      requires Settled(areas) && |areas| > 0 && rightmost == areas[|areas| - 1].start
      requires 0 < added && added % PAGE == 0 && endAddress % PAGE == 0 && endAddress <= TOP
      modifies this`mem, this`rightmost, this`areas, freeIndex`size, freeIndex.items
      ensures old(freeIndex.size) < INDEX_SIZE ==> ok
      ensures ok ==> Valid() && areas == Grown(old(areas), added) && freeIndex.size <= old(freeIndex.size) + 1
    {
      hide Consistent, FreeSet, UsedSet, Settled;
      ghost var i: nat := |areas| - 1;
      SettledAt(areas, i);
      Ranges(mem, areas, endAddress - added, data, FreeSet(), UsedSet(), i);
      GrownSettled(areas, added);
      if mem[rightmost + 4] == TypeOf(Free) {
        LengthenLast(added, i);
        ok := true;
      } else {
        ok := AppendArea(added, i);
      }
    }

    method LengthenLast(added: int, ghost i: nat)
      requires Wired() && Consistent(mem, areas, endAddress - added, data, FreeSet(), UsedSet())
      requires i + 1 == |areas| && areas[i].kind.Free? && rightmost == areas[i].start
      requires 0 < added && added % PAGE == 0 && endAddress % PAGE == 0 && endAddress <= TOP
      modifies this`mem, this`areas
      ensures Coherent() && areas == old(areas)[i := old(areas)[i].(size := old(areas)[i].size + added)]
    {
      hide Consistent, FreeSet, UsedSet, Stored, FooterWritten, Reframed, Framed;
      ghost var m, free, used := mem, FreeSet(), UsedSet();
      ghost var end := endAddress - added;
      ghost var gone := areas[i];
      ghost var a := gone.(size := gone.size + added);
      Ranges(mem, areas, end, data, free, used, i);
      FramedSize(mem, gone);
      var footer := rightmost + mem[rightmost] - FOOTER;
      Poke(footer, 0);
      ghost var m1 := mem;
      StoredElsewhere(m, m1, footer, 0, rightmost);
      var longer := mem[rightmost] + added;
      Poke(rightmost, longer);
      ghost var m2 := mem;
      PokeFooter(rightmost, longer);
      LongerEffect(m, m1, m2, mem, gone, a);
      ResizeStep(m, mem, areas, end, endAddress, data, free, used, i, a);
      assert areas[i := a] == areas[..i] + [a];
      areas := areas[i := a];
    }

    method AppendArea(added: int, ghost i: nat) returns (ok: bool)
      requires Wired() && Consistent(mem, areas, endAddress - added, data, FreeSet(), UsedSet())
      requires i + 1 == |areas| && areas[i].kind.Used? && rightmost == areas[i].start
      requires 0 < added && added % PAGE == 0 && endAddress % PAGE == 0 && endAddress <= TOP
      modifies this`mem, this`rightmost, this`areas, freeIndex`size, freeIndex.items
      ensures ok == (old(freeIndex.size) < INDEX_SIZE)
      ensures ok ==> Coherent() && areas == old(areas) + [Area(endAddress - added, added, Free)]
      ensures ok ==> rightmost == endAddress - added && freeIndex.size == old(freeIndex.size) + 1
    {
      hide Consistent, NoCollision, AreaWritten, FreeSet, UsedSet, Framed;
      ghost var m, free, used := mem, FreeSet(), UsedSet();
      ghost var end := endAddress - added;
      ghost var a := Area(end, added, Free);
      Ranges(mem, areas, end, data, free, used, i);
      FramedSize(mem, areas[i]);
      Sets();
      BeyondAll(mem, areas, end, data, free, used, freeIndex.Contents(), usedIndex.Contents(), a);
      var newHeader := rightmost + mem[rightmost];
      CreateArea(newHeader, added, Free);
      ok := EnterFree(newHeader);
      if ok {
        AppendStep(m, mem, areas, end, data, free, used, i, a);
        areas := areas + [a];
      }
    }

    /** Expands the heap for a request that found no hole. */
    method GrowFor(gross: int) returns (ok: bool)
      requires Valid() && 0 <= gross < WORD
      modifies this`mem, this`endAddress, this`rightmost, this`areas, freeIndex`size, freeIndex.items
      ensures ok ==> CanGrow(old(endAddress), gross) && endAddress == old(endAddress) + Growth(old(endAddress), gross)
      ensures ok ==> old(endAddress) < endAddress
      ensures ok ==> Valid() && areas == Grown(old(areas), endAddress - old(endAddress)) && freeIndex.size <= old(freeIndex.size) + 1
      ensures CanGrow(old(endAddress), gross) && old(freeIndex.size) < INDEX_SIZE ==> ok
    {
      hide Consistent, FreeSet, UsedSet, Settled, Growth, CanGrow, Grown;
      var oldEnd := endAddress;
      Extent();
      ok := Expand(gross);
      if ok {
        ok := AddSpace(endAddress - oldEnd);
      }
    }

    // ----- heap_alloc

    method AllocInHole(area: int, size: int, gross: int, pageAlign: bool) returns (r: Option<int>, ghost hole: nat)
      requires Valid() && 0 <= size < WORD && gross == U32(size + OverheadOf(pageAlign))
      requires FirstFit(mem, freeIndex.Contents(), gross, pageAlign, Some(area))
      modifies this`mem, this`endAddress, this`rightmost, this`areas, freeIndex`size, freeIndex.items, usedIndex`size, usedIndex.items
      ensures r.Some? ==> Valid() && hole < |old(areas)| && old(areas)[hole].start == area && AgreeAbove(old(mem), mem, endAddress)
      ensures r.Some? ==> Allocated(old(areas), old(endAddress), areas, endAddress, r.value, size, pageAlign, 0, hole)
      ensures old(freeIndex.size) < INDEX_SIZE && old(usedIndex.size) < INDEX_SIZE && gross > OVERHEAD ==> r.Some?
    {
      hide Consistent, FreeSet, UsedSet, Settled, FirstFit, Allocated, CarvedFrom, U32, FitsArea, Tiled, AgreeAbove;
      ghost var was, end := areas, endAddress;
      Extent();
      hole := HoleOf(gross, pageAlign, area);
      r := CarveHole(area, gross, pageAlign, hole);
      if r.Some? {
        AllocatedHere(was, end, areas, r.value, size, pageAlign, hole);
      }
    }

    /** heap_alloc. Each level of the recursion adds the overhead to the size again. The result is None when
        an assertion fails on the way. growths counts the expansions; hole is where the request went. */
    method HeapAlloc(size: int, pageAlign: bool) returns (r: Option<int>, ghost growths: nat, ghost hole: nat)
      requires Valid() && 0 <= size < WORD
      modifies this`mem, this`endAddress, this`rightmost, this`areas, freeIndex`size, freeIndex.items, usedIndex`size, usedIndex.items
      decreases TOP - endAddress
      ensures r.Some? ==> Valid()
      ensures r.Some? ==> Allocated(old(areas), old(endAddress), areas, endAddress, r.value, size, pageAlign, growths, hole)
      ensures r.Some? ==> FirstFit(old(mem), old(freeIndex.Contents()), Gross(size, pageAlign, 1), pageAlign,
                                   if growths == 0 && hole < |old(areas)| then Some(old(areas)[hole].start) else None)
      ensures r.Some? && growths == 0 ==> AgreeAbove(old(mem), mem, endAddress)
      ensures IndexRoom(old(areas)) && U32(size + OverheadOf(pageAlign)) > OVERHEAD
              ==> (r.Some? <==> Serviceable(old(areas), old(endAddress), size, pageAlign))
      ensures Ample(0, size, pageAlign, old(areas), old(endAddress), old(freeIndex.size), old(usedIndex.size)) ==> r.Some? && growths == 0
      ensures Ample(1, size, pageAlign, old(areas), old(endAddress), old(freeIndex.size), old(usedIndex.size)) ==> r.Some? && growths <= 1
      ensures Ample(2, size, pageAlign, old(areas), old(endAddress), old(freeIndex.size), old(usedIndex.size)) ==> r.Some? && growths <= 2
    {
      hide Consistent, FreeSet, UsedSet, Settled, FirstFit, Ample, Allocated, CarvedFrom, Gross, U32, Growth, CanGrow, Grown, FitsArea, Tiled, AgreeAbove, Serviceable, IndexRoom, SomeFits;
      ghost var was, oldFree, oldUsed := areas, freeIndex.size, usedIndex.size;
      var oldEnd := endAddress;
      var gross := U32(size + OverheadOf(pageAlign));
      Extent();
      Sizes();
      GrossOnce(size, pageAlign);
      var area := FindSmallestHole(gross, pageAlign);
      growths, hole := 0, 0;
      if area == None {
        TooTight(gross, pageAlign);
        NoneFits(gross, pageAlign);
        NotFitting(was, oldEnd, size, pageAlign);
        AmpleTail(size, pageAlign, was, oldEnd, oldFree, oldUsed);
        AmpleStep(1, size, pageAlign, was, oldEnd, oldFree, oldUsed);
        AmpleStep(2, size, pageAlign, was, oldEnd, oldFree, oldUsed);
        var ok := GrowFor(gross);
        if !ok {
          return None, 0, 0;
        }
        AmpleFewer(1, gross, pageAlign, areas, endAddress, freeIndex.size, oldFree + 1, oldUsed);
        AmpleFewer(0, gross, pageAlign, areas, endAddress, freeIndex.size, oldFree + 1, oldUsed);
        ghost var middle := endAddress;
        if IndexRoom(was) {
          GrownRoom(was, middle - oldEnd);
        }
        r, growths, hole := HeapAlloc(gross, pageAlign);
        if r.Some? {
          AllocatedDeeper(was, oldEnd, middle, areas, endAddress, r.value, size, pageAlign, growths, hole);
        }
        growths := growths + 1;
      } else {
        AmpleRoom(size, pageAlign, was, oldEnd, oldFree, oldUsed);
        Fitting(gross, pageAlign, area.value, size);
        r, hole := AllocInHole(area.value, size, gross, pageAlign);
      }
    }

    lemma Fitting(gross: int, pageAlign: bool, h: int, size: int)
      requires Coherent() && FirstFit(mem, freeIndex.Contents(), gross, pageAlign, Some(h)) && gross == U32(size + OverheadOf(pageAlign))
      ensures Serviceable(areas, endAddress, size, pageAlign)
      ensures IndexRoom(areas) ==> freeIndex.size < INDEX_SIZE && usedIndex.size < INDEX_SIZE
    {
      var i := HoleOf(gross, pageAlign, h);
      Sizes();
    }

    /** Every free area is in the index. */
    lemma NoneFits(gross: int, pageAlign: bool)
      requires Coherent() && FirstFit(mem, freeIndex.Contents(), gross, pageAlign, None)
      ensures !SomeFits(areas, gross, pageAlign)
      ensures IndexRoom(areas) ==> freeIndex.size < INDEX_SIZE && usedIndex.size < INDEX_SIZE
    {
      Sizes();
      forall i | 0 <= i < |areas|
        ensures !FitsArea(areas[i], gross, pageAlign)
      {
        if areas[i].kind.Free? {
          EntryOf(i);
          var k :| 0 <= k < |freeIndex.Contents()| && freeIndex.Contents()[k] == areas[i].start;
          Ranges(mem, areas, endAddress, data, FreeSet(), UsedSet(), i);
          assert !Fits(mem, freeIndex.Contents()[k], gross, pageAlign);
        }
      }
    }

    /** The hole that was found is an area that fits. */
    lemma HoleOf(gross: int, pageAlign: bool, h: int) returns (i: nat)
      requires Coherent() && FirstFit(mem, freeIndex.Contents(), gross, pageAlign, Some(h))
      ensures i < |areas| && areas[i].start == h && FitsArea(areas[i], gross, pageAlign)
    {
      assert h in FreeSet();
      i := IndexedArea(mem, areas, endAddress, data, FreeSet(), UsedSet(), Free, h);
    }

    /** When nothing fits, the last area was not long enough either. */
    lemma TooTight(gross: int, pageAlign: bool)
      requires Coherent() && 0 <= gross && FirstFit(mem, freeIndex.Contents(), gross, pageAlign, None)
      ensures gross > 0 ==> Tail(areas) < gross + Slack(pageAlign)
    {
      var i := |areas| - 1;
      if areas[i].kind.Free? {
        EntryOf(i);
        var k :| 0 <= k < |freeIndex.Contents()| && freeIndex.Contents()[k] == areas[i].start;
        Ranges(mem, areas, endAddress, data, FreeSet(), UsedSet(), i);
        assert !Fits(mem, freeIndex.Contents()[k], gross, pageAlign);
      }
    }

    // ----- heap_free

    /** The backward search in find_area_and_validate, for a pointer heap_alloc returned: it stops at that
        area's header, at most three bytes back, since no magic number can be read in between, in whatever bytes hold these
        words. */
    method FindHeader(p: int, ghost i: nat) returns (header: int)
      requires Coherent() && i < |areas| && areas[i].kind.Used? && Pointer(areas[i].start) == p
      ensures header == areas[i].start
      ensures IsMagic(mem, header + 8) && Load(mem, header + 4) == TypeOf(Used) && header in mem
      ensures IsMagic(mem, header + mem[header] - 8) && Load(mem, header + mem[header] - 4) == header
      ensures forall b, k | Holds(b, mem) && header + 8 <= k <= p - HEADER + 8 :: MagicAt(b, k) <==> k == header + 8
    {
      hide Consistent, FreeSet, UsedSet, Holds, MagicAt;
      Ranges(mem, areas, endAddress, data, FreeSet(), UsedSet(), i);
      header := p - HEADER;
      SearchInBytes(mem, areas[i].start, header);
      while !IsMagic(mem, header + 8)
        invariant areas[i].start <= header <= areas[i].start + 3
        decreases header - areas[i].start
      {
        header := header - 1;
      }
    }

    /** The area leaves the used index and is pending; what its owner stored is forgotten. */
    method UnlistFreed(header: int, ghost i: nat)
      requires Valid() && i < |areas| && areas[i].kind.Used? && areas[i].start == header
      modifies this`areas, this`data, usedIndex`size, usedIndex.items
      ensures Coherent() && usedIndex.size < INDEX_SIZE
      ensures areas == old(areas)[i := old(areas)[i].(kind := Pending)] && data == Left(old(data), old(areas)[i])
    {
      hide Consistent, Settled, FreeSet, UsedSet, Left;
      EntryOf(i);
      ghost var free, used := FreeSet(), UsedSet();
      LeaveUsed(header);
      UnlistUsed(mem, areas, endAddress, data, free, used, i);
      data := Left(data, areas[i]);
      areas := areas[i := areas[i].(kind := Pending)];
    }

    /** The area leaves the used index and its header says free. */
    method Release(header: int, ghost i: nat)
      requires Valid() && i < |areas| && areas[i].kind.Used? && areas[i].start == header
      modifies this`mem, this`areas, this`data, usedIndex`size, usedIndex.items
      ensures areas == old(areas)[i := old(areas)[i].(kind := Pending)] && data == Left(old(data), old(areas)[i])
      ensures Releasing(i) && usedIndex.size < INDEX_SIZE
      ensures Overwritten(old(mem), mem, {header + 4}, endAddress)
    {
      hide Consistent, FreeSet, UsedSet, Settled, Stored, Framed, OthersListed, Left, Overwritten;
      ReleasedOnly(areas, i);
      ghost var m, free := mem, FreeSet();
      Ranges(mem, areas, endAddress, data, free, UsedSet(), i);
      UnlistFreed(header, i);
      Poke(header + 4, TypeOf(Free));
      RetypeStep(m, mem, areas, endAddress, data, free, UsedSet(), i);
      RetypedFrame(m, mem, areas[i]);
      StoreOver(m, mem, header + 4, TypeOf(Free), endAddress);
    }

    /** The stores of a merge with the area on the left. */
    method JoinLeft(header: int, leftHeader: int, ghost l: Area, ghost r: Area)
      requires Framed(mem, l) && l.kind.Free? && Framed(mem, r.(kind := Free)) && l.End() == r.start
      requires OVERHEAD < l.size && OVERHEAD < r.size && l.size + r.size < MAGIC < l.start
      requires header == r.start && leftHeader == l.start
      modifies this`mem
      ensures Joined(old(mem), mem, l, r) && Overwritten(old(mem), mem, JoinWords(l, r), r.End())
    {
      hide Stored, Framed, Joined, Overwritten, JoinWords;
      ghost var m := mem;
      FramedWords(mem, l);
      FramedSize(mem, r.(kind := Free));
      var size := mem[header];
      Poke(leftHeader, mem[leftHeader] + size);
      ghost var m1 := mem;
      Poke(header + size - 4, leftHeader);
      ghost var m2 := mem;
      Poke(header + 8, 0);
      ghost var m3 := mem;
      Poke(header - FOOTER, 0);
      JoinedLeft(m, m1, m2, m3, mem, l, r);
      JoinOver(m, m1, m2, m3, mem, l, r);
    }

    /** Area i takes over the pending area behind it, which is framed as free like itself. */
    method Merge(header: int, rightHeader: int, toLeft: bool, ghost i: nat)
      requires Coherent() && i + 1 < |areas| && !areas[i].kind.Used? && areas[i + 1].kind.Pending? && OthersListed(areas, i, i + 1)
      requires Framed(mem, areas[i].(kind := Free)) && Framed(mem, areas[i + 1].(kind := Free))
      requires toLeft ==> areas[i].kind.Free?
      requires areas[i].start == header && areas[i + 1].start == rightHeader && rightmost == areas[|areas| - 1].start
      modifies this`mem, this`rightmost, this`areas
      ensures Joined(old(mem), mem, old(areas)[i], old(areas)[i + 1])
      ensures toLeft ==> Overwritten(old(mem), mem, JoinWords(old(areas)[i], old(areas)[i + 1]), old(areas)[i + 1].End())
      ensures Releasing(i) && areas == old(areas)[..i] + [old(areas)[i].(size := old(areas)[i].size + old(areas)[i + 1].size)] + old(areas)[i + 2..]
    {
      hide Consistent, FreeSet, UsedSet, Framed, Joined, Overwritten, JoinWords, OthersListed;
      ghost var m, free, used := mem, FreeSet(), UsedSet();
      ghost var l, r := areas[i], areas[i + 1];
      ghost var joined := l.(size := l.size + r.size);
      Ranges(mem, areas, endAddress, data, free, used, i);
      Ranges(mem, areas, endAddress, data, free, used, i + 1);
      if toLeft {
        JoinLeft(rightHeader, header, l, r);
      } else {
        JoinRight(header, rightHeader, l, r);
      }
      MergeWhole(m, mem, areas, endAddress, data, free, used, i, joined);
      if rightmost == rightHeader {
        rightmost := header;
      }
      areas := areas[..i] + [joined] + areas[i + 2..];
    }

    /** The stores of a merge with the area on the right. */
    method JoinRight(header: int, rightHeader: int, ghost l: Area, ghost r: Area)
      requires Framed(mem, r.(kind := Free)) && Framed(mem, l.(kind := Free)) && l.End() == r.start
      requires OVERHEAD < l.size && OVERHEAD < r.size && l.size + r.size < MAGIC < l.start
      requires header == l.start && rightHeader == r.start
      modifies this`mem
      ensures Joined(old(mem), mem, l, r)
    {
      hide Stored, Framed, Joined;
      ghost var m := mem;
      FramedWords(mem, r.(kind := Free));
      FramedSize(mem, l.(kind := Free));
      var size, rightSize := mem[header], mem[rightHeader];
      Poke(header, size + rightSize);
      ghost var m1 := mem;
      Poke(header + size - 8, 0);
      ghost var m2 := mem;
      Poke(rightHeader + 8, 0);
      ghost var m3 := mem;
      Poke(rightHeader + rightSize - 4, header);
      ghost var m4 := mem;
      Poke(header + 4, TypeOf(Free));
      JoinedRight(m, m1, m2, m3, m4, mem, l, r);
    }

    /** Unites the pending area with a free one on its left; that one is in the index already. */
    method UnifyLeft(header: int, ghost i: nat) returns (h: int, merged: bool)
      requires Releasing(i) && areas[i].kind.Pending? && areas[i].start == header
      modifies this`mem, this`rightmost, this`areas
      ensures merged <==> FreeLeft(old(areas), i) == 1
      ensures merged ==> Overwritten(old(mem), mem, JoinWords(old(areas)[i - 1], old(areas)[i]), old(areas)[i].End())
      ensures !merged ==> mem == old(mem)
      ensures !merged ==> h == header && areas == old(areas) && Releasing(i)
      ensures merged ==> i > 0 && Releasing(i - 1) && areas[i - 1].start == h == old(areas)[i - 1].start
      ensures merged ==> areas == old(areas)[..i - 1] + [Area(h, old(areas)[i - 1].size + old(areas)[i].size, Free)] + old(areas)[i + 1..]
    {
      hide Consistent, FreeSet, UsedSet, Framed, OthersListed, Joined, Overwritten, JoinWords;
      ghost var free, used := FreeSet(), UsedSet();
      h, merged := header, false;
      var leftFooter := header - FOOTER;
      if leftFooter < HEAP_BASE {
        FirstHasNoLeft(mem, areas, endAddress, data, free, used, i);
        return;
      }
      LeftExists(mem, areas, endAddress, data, free, used, i);
      OtherListed(areas, i, i - 1);
      Ranges(mem, areas, endAddress, data, free, used, i);
      Ranges(mem, areas, endAddress, data, free, used, i - 1);
      FramedWords(mem, areas[i - 1]);
      if IsMagic(mem, leftFooter) {
        var leftHeader := mem[leftFooter + 4];
        if IsMagic(mem, leftHeader + 8) && mem[leftHeader + 4] == TypeOf(Free) {
          OthersMore(areas, i, i - 1);
          Merge(leftHeader, header, true, i - 1);
          h, merged := leftHeader, true;
        }
      }
    }

    /** The free area behind area i leaves the index; it is pending until the merge. */
    method UnlistRight(rightHeader: int, ghost i: nat)
      requires Releasing(i) && i + 1 < |areas| && areas[i + 1].kind.Free? && areas[i + 1].start == rightHeader
      modifies this`areas, freeIndex`size, freeIndex.items
      ensures Coherent() && areas == old(areas)[i + 1 := old(areas)[i + 1].(kind := Pending)]
      ensures OthersListed(areas, i, i + 1) && Framed(mem, old(areas)[i + 1])
      ensures freeIndex.size <= old(freeIndex.size)
    {
      hide Consistent, Framed, FreeSet, UsedSet, OthersListed, TypeOf;
      OthersToo(areas, i);
      ghost var free, used := FreeSet(), UsedSet();
      Ranges(mem, areas, endAddress, data, free, used, i + 1);
      EntryOf(i + 1);
      LeaveFree(rightHeader);
      Unlist(mem, areas, endAddress, data, free, used, i + 1);
      areas := areas[i + 1 := areas[i + 1].(kind := Pending)];
    }

    /** Unites the area with a free one on its right. Behind the last area there is none, unless an owner once stored what
        passes for one: then the area's header takes over a size that is not the area's, and nothing more can be said. */
    method UnifyRight(header: int, ghost i: nat) returns (misled: bool, ghost merged: bool)
      requires Releasing(i) && areas[i].start == header
      modifies this`mem, this`rightmost, this`areas, freeIndex`size, freeIndex.items
      ensures misled <==> i + 1 == |old(areas)| && Misleading(old(mem), endAddress)
      ensures misled ==> areas == old(areas) && endAddress + 8 in data.strays && Load(mem, header) != areas[i].size
      ensures !misled ==> (merged <==> FreeRight(old(areas), i) == 1)
      ensures !misled ==> Releasing(i) && areas[i].start == header && freeIndex.size <= old(freeIndex.size)
      ensures !misled && !merged ==> areas == old(areas) && mem == old(mem)
      ensures !misled && merged ==> i + 1 < |old(areas)| && Joined(old(mem), mem, old(areas)[i], old(areas)[i + 1].(kind := Pending))
      ensures !misled && merged ==>
                areas == old(areas)[..i] + [Area(header, old(areas)[i].size + old(areas)[i + 1].size, old(areas)[i].kind)] + old(areas)[i + 2..]
    {
      hide Consistent, FreeSet, UsedSet, Framed, OthersListed, Joined, Overwritten, JoinWords;
      ghost var free, used := FreeSet(), UsedSet();
      Ranges(mem, areas, endAddress, data, free, used, i);
      FramedWords(mem, areas[i].(kind := Free));
      misled, merged := false, false;
      var right := header + mem[header];
      if i + 1 < |areas| {
        OtherListed(areas, i, i + 1);
        Ranges(mem, areas, endAddress, data, free, used, i + 1);
        FramedWords(mem, areas[i + 1]);
      } else {
        NoMagicAtEnd(mem, areas, endAddress, data, free, used);
        WrongSize(mem, areas[i].(kind := Free));
      }
      if IsMagic(mem, right + 8) && Load(mem, right + 4) == TypeOf(Free) && right in mem {
        var rightFooter := U32(right + mem[right] - FOOTER);
        if IsMagic(mem, rightFooter) && Load(mem, rightFooter + 4) == right {
          if right == endAddress {
            Poke(header, U32(mem[header] + mem[right]));
            misled := true;
          } else {
            UnlistRight(right, i);
            Merge(header, right, false, i);
            merged := true;
          }
        }
      }
    }

    /** heap_contract, for the bytes at the end of the last area. Nothing happens below half a mebibyte. */
    method Contract(bytes: int, ghost i: nat)
      requires Valid() && i + 1 == |areas| && areas[i].kind.Free? && areas[i].size >= KHEAP_MAX_WASTE
      requires bytes == areas[i].size - 0x10_0000
      modifies this`mem, this`endAddress
      ensures endAddress == old(endAddress) - Shrinkage(old(endAddress), bytes)
      ensures 0 <= Shrinkage(old(endAddress), bytes) <= bytes
      ensures mem == if endAddress == old(endAddress) then old(mem)
                     else map k | k in old(mem) && !(endAddress + PAGE <= k < old(endAddress) + PAGE) :: old(mem)[k]
    {
      hide Consistent, FreeSet, UsedSet;
      if bytes < 512 * 1024 {
        return;
      }
      Ranges(mem, areas, endAddress, data, FreeSet(), UsedSet(), i);
      var oldSize := endAddress - HEAP_BASE;
      var newSize := oldSize - bytes;
      if newSize < KHEAP_INITIAL_SIZE {
        newSize := KHEAP_INITIAL_SIZE;
      }
      var newEnd := HEAP_BASE + newSize;
      if newEnd % PAGE != 0 {
        newEnd := newEnd - newEnd % PAGE + PAGE;
      }
      CheckUsed(newEnd, i);
      FreePages(newEnd);
    }

    /** The source panics when a used area reaches past the new end; none does. Reads only. */
    method CheckUsed(newEnd: int, ghost i: nat)
      requires Valid() && i + 1 == |areas| && areas[i].kind.Free? && areas[i].start <= newEnd
      ensures forall n | 0 <= n < usedIndex.size :: var h := usedIndex.Contents()[n]; h in mem && h + mem[h] <= newEnd
    {
      ghost var index := usedIndex.Contents();
      var n := 0;
      while n < usedIndex.size
        invariant 0 <= n <= usedIndex.size
        invariant forall k | 0 <= k < n :: index[k] in mem && index[k] + mem[index[k]] <= newEnd
      {
        UsedBelowLast(n, i);
        assert usedIndex.items[n] == index[n];
        n := n + 1;
      }
    }

    /** Unmaps the pages behind the one that follows the new end; their words are gone. */
    method FreePages(newEnd: int)
      requires newEnd <= endAddress && newEnd % PAGE == 0 && endAddress % PAGE == 0
      modifies this`mem, this`endAddress
      ensures endAddress == newEnd
      ensures mem == map k | k in old(mem) && !(newEnd + PAGE <= k < old(endAddress) + PAGE) :: old(mem)[k]
    {
      var addr := endAddress;
      while addr > newEnd
        invariant newEnd <= addr <= endAddress && addr % PAGE == 0 && endAddress == old(endAddress)
        invariant mem == map k | k in old(mem) && !(addr + PAGE <= k < endAddress + PAGE) :: old(mem)[k]
      {
        mem := map k | k in mem && !(addr <= k < addr + PAGE) :: mem[k];
        addr := addr - PAGE;
      }
      endAddress := newEnd;
    }

    lemma UsedBelowLast(n: nat, i: nat)
      requires Valid() && i + 1 == |areas| && areas[i].kind.Free? && n < |usedIndex.Contents()|
      ensures var found := usedIndex.Contents()[n];
              found in mem && found + mem[found] <= areas[i].start
    {
      var free, used := FreeSet(), UsedSet();
      assert usedIndex.Contents()[n] in used;
      var j := IndexedArea(mem, areas, endAddress, data, free, used, Used, usedIndex.Contents()[n]);
      Ordered(areas, HEAP_BASE, endAddress, j, i);
    }

    /** The last area gives back what heap_free considers a waste of frames. */
    method TrimLast(ghost i: nat)
      requires Valid() && i + 1 == |areas|
      modifies this`mem, this`endAddress, this`areas
      ensures Valid() && areas == Shrunk(old(areas), old(endAddress))
      ensures endAddress == areas[|areas| - 1].End() && StaysTrimmed(old(mem), mem, areas[|areas| - 1].start, endAddress)
    {
      hide Consistent, FreeSet, UsedSet, Settled, Framed;
      ghost var m, free, used := mem, FreeSet(), UsedSet();
      SettledAt(areas, i);
      Ranges(mem, areas, endAddress, data, free, used, i);
      FramedWords(mem, areas[i]);
      if mem[rightmost + 4] == TypeOf(Free) && mem[rightmost] >= KHEAP_MAX_WASTE {
        var size := mem[rightmost];
        var oldSize := endAddress - HEAP_BASE;
        Contract(size - 0x10_0000, i);
        var shrunk := oldSize - (endAddress - HEAP_BASE);
        if shrunk > 0 {
          ShortenLast(shrunk, m, i);
        }
      }
    }

    /** Writes the last area's new size and footer; its old footer went with the unmapped pages. */
    method ShortenLast(shrunk: int, ghost m: Memory, ghost i: nat)
      requires Wired() && Consistent(m, areas, endAddress + shrunk, data, FreeSet(), UsedSet())
      requires Settled(areas) && i + 1 == |areas| && areas[i].kind.Free? && rightmost == areas[i].start
      requires PAGE + FOOTER <= shrunk && areas[i].size - shrunk > OVERHEAD && endAddress % PAGE == 0
      requires mem == map k | k in m && !(endAddress + PAGE <= k < endAddress + shrunk + PAGE) :: m[k]
      modifies this`mem, this`areas
      ensures Valid() && areas == Trimmed(old(areas), shrunk) && StaysTrimmed(m, mem, areas[i].start, endAddress)
    {
      hide Consistent, FreeSet, UsedSet, Settled, Framed, Stored, FooterWritten, Reframed, StaysTrimmed;
      ghost var free, used := FreeSet(), UsedSet();
      ghost var m0, end, gone := mem, endAddress + shrunk, areas[i];
      ghost var a := gone.(size := gone.size - shrunk);
      Ranges(m, areas, end, data, free, used, i);
      FramedWords(m, gone);
      var size := mem[rightmost] - shrunk;
      Poke(rightmost, size);
      ghost var m1 := mem;
      PokeFooter(rightmost, size);
      ShorterEffect(m, m0, m1, mem, gone, a, endAddress, end);
      ResizeStep(m, mem, areas, end, endAddress, data, free, used, i, a);
      ShorterStays(m, m0, m1, mem, a, endAddress, end);
      assert areas[i := a] == areas[..i] + [a];
      TrimmedSettled(areas, shrunk);
      areas := areas[i := a];
    }

    /** The area enters the free index. There is always room: no two free areas touch, so there are at most
        as many of them as used areas, and one. */
    method ListFreed(header: int, ghost i: nat)
      requires Releasing(i) && areas[i].kind.Pending? && areas[i].start == header
      requires Settled(areas[i := areas[i].(kind := Free)]) && usedIndex.size < INDEX_SIZE
      modifies this`areas, freeIndex`size, freeIndex.items
      ensures Coherent() && areas == old(areas)[i := old(areas)[i].(kind := Free)]
    {
      hide Consistent, FreeSet, UsedSet, Settled, Framed, OthersListed;
      ghost var free, used := FreeSet(), UsedSet();
      List(mem, areas, endAddress, data, free, used, i);
      RoomToFree(mem, areas[i := areas[i].(kind := Free)], endAddress, data, free + multiset{header}, used);
      Sets();
      var ok := EnterFree(header);
      assert ok;
      areas := areas[i := areas[i].(kind := Free)];
    }

    /** Unites the released area with its free neighbours. seen is the memory in which the test on the right is made. */
    method Unify(header: int, ghost was: seq<Area>, ghost i: nat)
      returns (h: int, merged: bool, misled: bool, ghost n: nat, ghost seen: Memory)
      requires Releasing(i) && i < |was| && areas == was[i := was[i].(kind := Pending)]
      requires Tiled(was, HEAP_BASE, endAddress) && was[i].kind.Used? && was[i].start == header
      modifies this`mem, this`rightmost, this`areas, freeIndex`size, freeIndex.items
      ensures misled <==> i + 1 == |was| && Misleading(seen, endAddress)
      ensures if FreeLeft(was, i) == 1 then Overwritten(old(mem), seen, JoinWords(was[i - 1], was[i]), was[i].End()) else seen == old(mem)
      ensures misled ==> endAddress + 8 in data.strays && WrongRow(mem, areas)
      ensures !misled ==> Releasing(n) && areas[n].start == h && areas[n].kind == if merged then Free else Pending
      ensures !misled ==> areas[n := areas[n].(kind := Free)] == Coalesced(was, i) && Stays(old(mem), mem, header + HEADER, was[i].End() - FOOTER)
    {
      hide Consistent, FreeSet, UsedSet, Framed, OthersListed, Coalesced, FreeLeft, FreeRight, Tiled, Overwritten, Misleading, Joined, Stays, LeftMerged;
      ghost var m := mem;
      CoalescedParts(was, HEAP_BASE, endAddress, i, areas);
      h, merged := UnifyLeft(header, i);
      n := if merged then i - 1 else i;
      seen := mem;
      ghost var left := areas;
      LeftPart(was, i, n, left);
      ghost var right;
      misled, right := UnifyRight(h, n);
      if misled {
        assert areas[n].start == h;
      } else {
        RightPart(was, i, n, left, areas);
        UnitedStays(m, seen, mem, was, i, n, left, right, endAddress);
      }
    }

    /** Frees the area with the given header, up to the contraction of the heap. */
    method Reclaim(header: int, ghost i: nat) returns (misled: bool)
      requires Valid() && i < |areas| && areas[i].kind.Used? && areas[i].start == header
      modifies this`mem, this`rightmost, this`areas, this`data, freeIndex`size, freeIndex.items, usedIndex`size, usedIndex.items
      ensures misled <==> Misleads(old(mem), old(areas), i, endAddress)
      ensures data == Left(old(data), old(areas)[i]) && (misled ==> endAddress + 8 in data.strays && WrongRow(mem, areas))
      ensures !misled ==> Valid() && |areas| > 0 && areas == Coalesced(old(areas), i)
      ensures !misled ==> Stays(old(mem), mem, header + HEADER, old(areas)[i].End() - FOOTER)
    {
      hide Consistent, FreeSet, UsedSet, Settled, Framed, OthersListed, Left, Coalesced, Tiled, Overwritten, Misleads, Misleading, WrongRow, Stays;
      ghost var was, m := areas, mem;
      Extent();
      CoalescedSettled(was, i);
      Release(header, i);
      ghost var m1 := mem;
      var h, merged;
      ghost var n, seen;
      h, merged, misled, n, seen := Unify(header, was, i);
      SeenFrom(m, m1, seen, was, i, endAddress);
      RetypeStays(m, m1, was[i], endAddress);
      if !misled {
        StaysAlong(m, m1, mem, header + HEADER, was[i].End() - FOOTER);
      }
      if misled {
      } else if merged {
        assert areas == areas[n := areas[n].(kind := Free)];
      } else {
        ListFreed(h, n);
      }
    }

    /** heap_free, for NULL, for an address outside [start, maximum], and for a pointer heap_alloc returned
        that has not been freed since. No assertion in it fails. A pointer above the maximum address, which
        growth past it can produce, is silently ignored. The release of the last area goes wrong exactly when the words
        behind the heap's end pass for a free area, which takes an owner who once stored the magic number there. */
    method HeapFree(p: int, ghost i: nat) returns (misled: bool)
      requires Valid()
      requires p == 0 || p > KHEAP_MAX || p < HEAP_BASE || (i < |areas| && areas[i].kind.Used? && Pointer(areas[i].start) == p)
      modifies Repr()
      ensures p == 0 || p > KHEAP_MAX || p < HEAP_BASE ==>
        !misled && Valid() && mem == old(mem) && areas == old(areas) && endAddress == old(endAddress) && data == old(data)
      ensures !(p == 0 || p > KHEAP_MAX || p < HEAP_BASE) ==>
        data == Left(old(data), old(areas)[i]) && (misled <==> Misleads(old(mem), old(areas), i, old(endAddress)))
      ensures misled ==> old(endAddress) + 8 in data.strays && WrongRow(mem, areas)
      ensures !misled && !(p == 0 || p > KHEAP_MAX || p < HEAP_BASE) ==>
        && Valid() && areas == Shrunk(Coalesced(old(areas), i), old(endAddress))
        && PayloadStays(old(mem), mem, old(areas)[i], endAddress)
    {
      hide Consistent, FreeSet, UsedSet, Settled, Shrunk, Left, Coalesced, Misleads, WrongRow, Coherent, Wired, PayloadStays;
      misled := false;
      if p == 0 {
        return;
      }
      if p > KHEAP_MAX || p < HEAP_BASE {
        return;
      }
      misled := FreeArea(p, i);
    }

    /** heap_free, once the pointer is known to be of the heap. */
    method FreeArea(p: int, ghost i: nat) returns (misled: bool)
      requires Valid() && i < |areas| && areas[i].kind.Used? && Pointer(areas[i].start) == p
      modifies Repr()
      ensures data == Left(old(data), old(areas)[i]) && (misled <==> Misleads(old(mem), old(areas), i, old(endAddress)))
      ensures misled ==> old(endAddress) + 8 in data.strays && WrongRow(mem, areas)
      ensures !misled ==> Valid() && areas == Shrunk(Coalesced(old(areas), i), old(endAddress))
      ensures !misled ==> PayloadStays(old(mem), mem, old(areas)[i], endAddress)
    {
      hide Consistent, FreeSet, UsedSet, Settled, Shrunk, Left, Coalesced, Misleads, WrongRow, Tiled, Stays, StaysTrimmed, PayloadStays;
      ghost var was, m, end := areas, mem, endAddress;
      Extent();
      var header := FindHeader(p, i);
      misled := Reclaim(header, i);
      if !misled {
        ghost var m1, united := mem, areas;
        TrimLast(|areas| - 1);
        ReleasedStays(m, m1, mem, was, i, end, endAddress);
        LastShrunk(united, end);
      }
    }

    // ----- what owners do, and what is counted

    /** The owner of an allocation stores a word in it, any word. */
    method WritePayload(at: int, v: int, ghost i: nat)
      requires Valid() && i < |areas| && areas[i].kind.Used?
      requires areas[i].start + HEADER <= at && at + 4 <= areas[i].End() - FOOTER
      modifies this`mem, this`data
      ensures Valid() && data == StoredBy(old(data), at, v) && Stored(old(mem), mem, at, v)
    {
      hide Consistent, FreeSet, UsedSet, Settled, Stored, StoredBy;
      ghost var m, free, used := mem, FreeSet(), UsedSet();
      Poke(at, v);
      PayloadStep(m, mem, areas, endAddress, data, free, used, i, at, v);
      data := StoredBy(data, at, v);
    }

    /** kheap_used_bytes; reads only. */
    method UsedBytes() returns (bytes: int)
      requires Valid()
      ensures bytes == Total(areas, Used)
      ensures bytes + Total(areas, Free) == endAddress - HEAP_BASE
    {
      hide Consistent, FreeSet, UsedSet, Settled;
      Sets();
      ghost var free, used := FreeSet(), UsedSet();
      ghost var index := usedIndex.Contents();
      bytes := 0;
      var i := 0;
      while i < usedIndex.size
        invariant 0 <= i <= usedIndex.size
        invariant bytes == SizeSum(mem, index[..i])
      {
        assert usedIndex.items[i] == index[i] && index[i] in used;
        ghost var n := IndexedArea(mem, areas, endAddress, data, free, used, Used, index[i]);
        assert index[..i + 1][..i] == index[..i];
        bytes := bytes + mem[usedIndex.items[i]];
        i := i + 1;
      }
      assert index[..i] == index;
      SizesOfIndex(mem, areas, endAddress, data, free, used, Used, index);
      TotalsTile(mem, areas, endAddress, data, free, used);
      TotalsSettled(areas);
    }
  }

  /** Sum of the sizes in memory of the areas an index lists. */
  ghost function SizeSum(m: Memory, index: seq<int>): int {
    if index == [] then 0 else SizeSum(m, index[..|index| - 1]) + Load(m, index[|index| - 1])
  }

  /** Bytes in areas of one kind. */
  ghost function Total(areas: seq<Area>, kind: Kind): int {
    if areas == [] then 0 else (if areas[0].kind == kind then areas[0].size else 0) + Total(areas[1..], kind)
  }

  lemma {:induction false} SizeSumRemove(m: Memory, index: seq<int>, k: nat)
    requires k < |index|
    ensures SizeSum(m, index) == SizeSum(m, index[..k] + index[k + 1..]) + Load(m, index[k])
    decreases |index|
  {
    var n := |index| - 1;
    if k == n {
      assert index[..k] + index[k + 1..] == index[..n];
    } else {
      var rest := index[..k] + index[k + 1..];
      SizeSumRemove(m, index[..n], k);
      assert rest[..|rest| - 1] == index[..n][..k] + index[..n][k + 1..];
    }
  }

  /** Whatever its order, an index that lists exactly the areas of one kind adds up to their bytes. */
  lemma {:induction false} SizeSumIs(m: Memory, areas: seq<Area>, kind: Kind, index: seq<int>)
    requires multiset(index) == Starts(areas, kind)
    requires forall n | 0 <= n < |areas| && areas[n].kind == kind :: Load(m, areas[n].start) == areas[n].size
    ensures SizeSum(m, index) == Total(areas, kind)
    decreases |areas|
  {
    if areas == [] {
      assert |multiset(index)| == 0;
    } else if areas[0].kind == kind {
      var rest := WithoutFirst(areas, kind, index, m);
      SizeSumIs(m, areas[1..], kind, rest);
    } else {
      SizeSumIs(m, areas[1..], kind, index);
    }
  }

  lemma WithoutFirst(areas: seq<Area>, kind: Kind, index: seq<int>, m: Memory) returns (rest: seq<int>)
    requires areas != [] && areas[0].kind == kind && multiset(index) == Starts(areas, kind)
    ensures multiset(rest) == Starts(areas[1..], kind) && SizeSum(m, index) == SizeSum(m, rest) + Load(m, areas[0].start)
  {
    assert multiset(index) == multiset{areas[0].start} + Starts(areas[1..], kind);
    hide Starts;
    assert areas[0].start in multiset(index);
    var k :| 0 <= k < |index| && index[k] == areas[0].start;
    rest := index[..k] + index[k + 1..];
    assert index == index[..k] + [index[k]] + index[k + 1..];
    assert multiset(index) == multiset(rest) + multiset{index[k]};
    Cancel(multiset(rest), Starts(areas[1..], kind), index[k]);
    SizeSumRemove(m, index, k);
  }

  lemma Cancel(a: multiset<int>, b: multiset<int>, x: int)
    requires a + multiset{x} == multiset{x} + b
    ensures a == b
  {
    assert a == (a + multiset{x}) - multiset{x};
    assert b == (multiset{x} + b) - multiset{x};
  }

  lemma SizesOfIndex(m: Memory, areas: seq<Area>, end: int, data: Stores, free: multiset<int>, used: multiset<int>, kind: Kind, index: seq<int>)
    requires Consistent(m, areas, end, data, free, used) && !kind.Pending?
    requires multiset(index) == if kind.Free? then free else used
    ensures SizeSum(m, index) == Total(areas, kind)
  {
    SizeSumIs(m, areas, kind, index);
  }

  lemma {:induction false} TotalsOf(areas: seq<Area>, lo: int, hi: int)
    requires Tiled(areas, lo, hi)
    ensures Total(areas, Used) + Total(areas, Free) + Total(areas, Pending) == hi - lo
    decreases |areas|
  {
    if |areas| == 1 {
      assert areas[1..] == [];
    } else {
      assert Tiled(areas[1..], areas[0].End(), hi) by {
        assert areas[0].End() == areas[1].start;
      }
      TotalsOf(areas[1..], areas[0].End(), hi);
    }
  }

  /** The areas of the two indexes together are the whole heap. */
  lemma TotalsTile(m: Memory, areas: seq<Area>, end: int, data: Stores, free: multiset<int>, used: multiset<int>)
    requires Consistent(m, areas, end, data, free, used)
    ensures Total(areas, Used) + Total(areas, Free) + Total(areas, Pending) == end - HEAP_BASE
  {
    TotalsOf(areas, HEAP_BASE, end);
  }

  lemma {:induction false} TotalsSettled(areas: seq<Area>)
    requires Settled(areas)
    ensures Total(areas, Pending) == 0
  {
    if areas != [] {
      TotalsSettled(areas[1..]);
    }
  }

  /** The row after the last area may have been trimmed. */
  ghost function Shrunk(areas: seq<Area>, end: int): seq<Area>
    requires |areas| > 0
  {
    var last := areas[|areas| - 1];
    if last.kind.Free? && last.size >= KHEAP_MAX_WASTE then Trimmed(areas, Shrinkage(end, last.size - 0x10_0000)) else areas
  }

  /** A last area that a release makes the heap give back some of. */
  ghost predicate Wasteful(areas: seq<Area>) {
    |areas| > 0 && areas[|areas| - 1].kind.Free? && areas[|areas| - 1].size >= 0x18_0000
  }

  lemma ShrunkSame(areas: seq<Area>, end: int)
    requires Tiled(areas, HEAP_BASE, end) && end % PAGE == 0
    ensures Shrunk(areas, end) == areas <==> !Wasteful(areas)
  {
    AllOrdered(areas, HEAP_BASE, end);
    var last := areas[|areas| - 1];
    if last.kind.Free? && last.size >= KHEAP_MAX_WASTE {
      assert Shrunk(areas, end)[|areas| - 1].size == last.size - Shrinkage(end, last.size - 0x10_0000);
    }
  }

  /** Releasing what was just allocated, contraction included, gives the old row back if and only if alignment did not lengthen the
      left neighbour and the heap was not one that the next release contracts. */
  lemma ReleaseUndoesAlloc(areas: seq<Area>, end: int, i: nat, lead: int, gross: int)
    requires Settled(areas) && Tiled(areas, HEAP_BASE, end) && end % PAGE == 0 && i < |areas| && areas[i].kind.Free?
    requires 0 <= lead && (i == 0 ==> lead == 0 || lead > OVERHEAD)
    ensures var u := UsedAt(i, lead); u < |Carved(areas, i, lead, gross)| && |Coalesced(Carved(areas, i, lead, gross), u)| > 0
    ensures Shrunk(Coalesced(Carved(areas, i, lead, gross), UsedAt(i, lead)), end) == areas
            <==> (lead == 0 || lead > OVERHEAD) && !Wasteful(areas)
  {
    ReleaseUndoesCarve(areas, i, lead, gross);
    ShrunkSame(areas, end);
    CarvedSurroundings(areas, i, lead, gross);
    var carved := Carved(areas, i, lead, gross);
    if 0 < lead <= OVERHEAD {
      LongerStays(areas, carved, end, i, lead);
    }
  }

  lemma LongerStays(areas: seq<Area>, carved: seq<Area>, end: int, i: nat, lead: int)
    requires Settled(areas) && 0 < i < |areas| && areas[i].kind.Free? && 0 < lead && i < |carved|
    requires carved[..i] == areas[..i][i - 1 := areas[i - 1].(size := areas[i - 1].size + lead)]
    ensures |Coalesced(carved, i)| > 0 && Shrunk(Coalesced(carved, i), end) != areas
  {
    assert carved[i - 1] == carved[..i][i - 1];
    var freed := Coalesced(carved, i);
    assert freed[i - 1] == carved[i - 1] && i < |freed|;
    assert Shrunk(freed, end)[i - 1] == freed[i - 1];
  }

  lemma TrimmedSettled(areas: seq<Area>, extra: int)
    requires Settled(areas) && |areas| > 0
    ensures Settled(Trimmed(areas, extra))
  {
  }

  lemma ShorterEffect(m: Memory, m0: Memory, m1: Memory, m2: Memory, gone: Area, a: Area, end': int, end: int)
    requires Framed(m, gone) && gone.kind.Free? && gone.End() == end && a.End() == end' && end' + PAGE + FOOTER <= end
    requires a == gone.(size := a.size) && OVERHEAD < a.size < MAGIC < a.start
    requires m0 == map k | k in m && !(end' + PAGE <= k < end + PAGE) :: m[k]
    requires Stored(m0, m1, a.start, a.size) && FooterWritten(m1, m2, a.start, a.size)
    ensures Reframed(m, m2, a) && AgreeBelow(m, m2, a.start) && !IsMagic(m2, gone.End() - 8)
  {
  }

  lemma RoomToFree(m: Memory, areas: seq<Area>, end: int, data: Stores, free: multiset<int>, used: multiset<int>)
    requires Consistent(m, areas, end, data, free, used) && Settled(areas)
    ensures |free| <= |used| + 1
  {
    FreeAreasFew(areas);
  }

  lemma CoalescedParts(was: seq<Area>, lo: int, hi: int, i: nat, pending: seq<Area>)
    requires Tiled(was, lo, hi) && i < |was| && was[i].kind.Used?
    requires pending == was[i := was[i].(kind := Pending)]
    ensures FreeLeft(pending, i) == FreeLeft(was, i) && FreeLeft(was, i) <= i && (FreeLeft(was, i) == 0 || FreeLeft(was, i) == 1)
    ensures i + 1 < |was| ==> was[i].End() == was[i + 1].start
    ensures i > 0 ==> was[i - 1].End() == was[i].start
  {
  }

  /** The row between the two merges. */
  ghost predicate LeftMerged(was: seq<Area>, i: nat, n: nat, left: seq<Area>)
    requires i < |was|
  {
    && n < |left| && n == i - FreeLeft(was, i)
    && left[..n] == was[..n] && left[n + 1..] == was[i + 1..]
    && left[n] == if n == i then was[i].(kind := Pending) else Area(was[n].start, was[n].size + was[i].size, Free)
  }

  lemma LeftPart(was: seq<Area>, i: nat, n: nat, left: seq<Area>)
    requires i < |was| && was[i].kind.Used? && n == i - FreeLeft(was, i)
    requires var pending := was[i := was[i].(kind := Pending)];
             left == if n == i then pending
                     else pending[..n] + [Area(was[n].start, was[n].size + was[i].size, Free)] + pending[i + 1..]
    ensures LeftMerged(was, i, n, left)
  {
  }

  /** What the two merges leave is the coalesced row, but for the kind of an area that is not listed yet. */
  lemma RightPart(was: seq<Area>, i: nat, n: nat, left: seq<Area>, right: seq<Area>)
    requires i < |was| && was[i].kind.Used? && LeftMerged(was, i, n, left)
    requires (i + 1 < |was| ==> was[i].End() == was[i + 1].start) && (n < i ==> was[n].End() == was[i].start)
    requires if FreeRight(left, n) == 1
             then n + 1 < |left| && right == left[..n] + [left[n].(size := left[n].size + left[n + 1].size)] + left[n + 2..]
             else right == left
    ensures n < |right| && right[n].kind == left[n].kind
    ensures right[n := right[n].(kind := Free)] == Coalesced(was, i)
  {
    var r := i + 1 + FreeRight(was, i);
    assert n + 1 < |left| ==> left[n + 1] == left[n + 1..][0] == was[i + 1];
    assert n + 1 < |left| ==> left[n + 2..] == left[n + 1..][1..];
    assert |left| == n + 1 + |was| - i - 1;
    assert FreeRight(left, n) == FreeRight(was, i);
    SpliceThree(right, was, n, r);
  }

  lemma SpliceThree(right: seq<Area>, was: seq<Area>, n: nat, r: nat)
    requires n < |right| && n < r <= |was| && right[..n] == was[..n] && right[n + 1..] == was[r..]
    requires right[n].start == was[n].start && right[n].End() == was[r - 1].End()
    ensures right[n := right[n].(kind := Free)] == was[..n] + [Area(was[n].start, was[r - 1].End() - was[n].start, Free)] + was[r..]
  {
    assert right == right[..n] + [right[n]] + right[n + 1..];
  }

  /** The heap starts on a page boundary. */
  lemma FirstLead(m: Memory, areas: seq<Area>, end: int, data: Stores, free: multiset<int>, used: multiset<int>, pageAlign: bool)
    requires Consistent(m, areas, end, data, free, used) && |areas| > 0
    ensures Lead(areas[0].start, pageAlign) == 0 || Lead(areas[0].start, pageAlign) > OVERHEAD
  {
    assert areas[0].start == HEAP_BASE;
  }

  /** What heap_contract really takes off: whole pages, and never so much that less than the initial size
      would remain. */
  function Shrinkage(end: int, bytes: int): int {
    if bytes < 512 * 1024 then 0
    else end - RoundUp(HEAP_BASE + Max(end - HEAP_BASE - bytes, KHEAP_INITIAL_SIZE))
  }

  lemma NoMagicAtEnd(m: Memory, areas: seq<Area>, end: int, data: Stores, free: multiset<int>, used: multiset<int>)
    requires Consistent(m, areas, end, data, free, used)
    ensures IsMagic(m, end + 8) ==> end + 8 in data.strays
  {
    AllOrdered(areas, HEAP_BASE, end);
    assert (end + 8) % PAGE == 8 && !MagicSlot(areas, end + 8);
  }

  /** The words behind the heap's end pass for a free area, for the test that looks for one to the right. */
  predicate Misleading(m: Memory, end: int) {
    && IsMagic(m, end + 8) && Load(m, end + 4) == TypeOf(Free) && end in m
    && IsMagic(m, U32(end + m[end] - FOOTER)) && Load(m, U32(end + m[end] - FOOTER) + 4) == end
  }

  /** Some area's header has a size that is not the area's. */
  ghost predicate WrongRow(m: Memory, areas: seq<Area>) {
    exists n :: 0 <= n < |areas| && Load(m, areas[n].start) != areas[n].size
  }

  // ----- a client that misleads a release

  /** Where the heap of the following run ends in the end. */
  const SHORT_END := HEAP_BASE + 0x10_0000

  /** A free area of 24 bytes, as its header and footer would show it, where the heap may come to end. */
  ghost predicate Forged(m: Memory) {
    && Load(m, SHORT_END) == 24 && SHORT_END in m && Load(m, SHORT_END + 4) == 1 && IsMagic(m, SHORT_END + 8)
    && IsMagic(m, SHORT_END + 16) && Load(m, SHORT_END + 20) == SHORT_END
  }

  ghost function OneArea(end: int, kind: Kind): seq<Area> {
    [Area(HEAP_BASE, end - HEAP_BASE, kind)]
  }

  lemma ForgedMisleads(m: Memory)
    requires Forged(m)
    ensures Misleads(m, OneArea(SHORT_END, Used), 0, SHORT_END)
  {
    assert U32(SHORT_END + 24 - FOOTER) == SHORT_END + 16;
  }

  /** The row after the first request, 0x19_0000 bytes from a new heap. */
  ghost function Tall(): seq<Area> {
    [Area(HEAP_BASE, 0x19_002e, Used), Area(HEAP_BASE + 0x19_002e, 0x1_0fd2, Free)]
  }

  lemma GotTall(end: int, areas: seq<Area>, end': int, p: int, growths: nat, hole: nat)
    requires end == HEAP_BASE + 0x1_0000 && growths <= 1
    requires Allocated(OneArea(end, Free), end, areas, end', p, 0x19_0000, false, growths, hole)
    ensures areas == Tall() && end' == HEAP_BASE + 0x1a_1000 && p == HEAP_BASE + HEADER
  {
    assert Gross(0x19_0000, false, 1) == 0x19_0017 && Gross(0x19_0000, false, 2) == 0x19_002e;
    assert growths == 1;
    assert Growth(end, 0x19_0017) == 0x19_1000;
    assert GrownEnd(end + 0x19_1000, 0x19_0017, false, 0) == end + 0x19_1000;
  }

  method GetTall() returns (h: Heap)
    ensures fresh(h.Repr()) && h.Valid() && h.areas == Tall() && h.endAddress == HEAP_BASE + 0x1a_1000
  {
    hide Consistent, Settled, Allocated, FirstFit;
    h := new Heap();
    h.Extent();
    h.Sizes();
    ghost var end := h.endAddress;
    var p, growths, hole := h.HeapAlloc(0x19_0000, false);
    GotTall(end, h.areas, h.endAddress, p.value, growths, hole);
  }

  /** The five words of the forged area. */
  ghost function ForgedBy(data: Stores): Stores {
    StoredBy(StoredBy(StoredBy(StoredBy(StoredBy(data, SHORT_END, 24), SHORT_END + 4, 1), SHORT_END + 8, MAGIC), SHORT_END + 16, MAGIC),
             SHORT_END + 20, SHORT_END)
  }

  lemma ForgedIn(m: Memory, areas: seq<Area>, data: Stores)
    requires Backed(m, areas, ForgedBy(data))
    ensures Forged(m)
  {
    hide InPayload;
    var words := ForgedBy(data).words;
    assert SHORT_END in words && SHORT_END + 4 in words && SHORT_END + 8 in words && SHORT_END + 16 in words && SHORT_END + 20 in words;
  }

  method Forge(h: Heap)
    requires h.Valid() && h.areas == Tall()
    modifies h`mem, h`data
    ensures h.Valid() && Forged(h.mem)
  {
    hide Consistent, Settled, StoredBy, Forged, Backed;
    ghost var data := h.data;
    h.WritePayload(SHORT_END, 24, 0);
    h.WritePayload(SHORT_END + 4, 1, 0);
    h.WritePayload(SHORT_END + 8, MAGIC, 0);
    h.WritePayload(SHORT_END + 16, MAGIC, 0);
    h.WritePayload(SHORT_END + 20, SHORT_END, 0);
    h.Extent();
    ForgedIn(h.mem, h.areas, data);
  }

  lemma TallBack(end: int, m: Memory)
    requires end == HEAP_BASE + 0x1a_1000
    ensures !Misleads(m, Tall(), 0, end) && Shrunk(Coalesced(Tall(), 0), end) == OneArea(SHORT_END, Free)
  {
    assert Shrinkage(end, 0xa_1000) == 0xa_1000;
    assert Coalesced(Tall(), 0) == OneArea(end, Free);
  }

  lemma ForgedStays(m: Memory, m': Memory)
    requires Forged(m) && PayloadStays(m, m', Tall()[0], SHORT_END)
    ensures Forged(m')
  {
  }

  method GiveTallBack(h: Heap)
    requires h.Valid() && h.areas == Tall() && h.endAddress == HEAP_BASE + 0x1a_1000 && Forged(h.mem)
    modifies h.Repr()
    ensures h.Valid() && h.areas == OneArea(SHORT_END, Free) && h.endAddress == SHORT_END && Forged(h.mem)
  {
    hide Consistent, Settled, Forged, PayloadStays, Misleads;
    ghost var m := h.mem;
    TallBack(HEAP_BASE + 0x1a_1000, m);
    var misled := h.HeapFree(HEAP_BASE + HEADER, 0);
    h.Extent();
    ForgedStays(m, h.mem);
  }

  lemma GotAll(areas: seq<Area>, end': int, p: int, hole: nat)
    requires Allocated(OneArea(SHORT_END, Free), SHORT_END, areas, end', p, 0x10_0000 - 23, false, 0, hole)
    ensures areas == OneArea(SHORT_END, Used) && p == HEAP_BASE + HEADER && end' == SHORT_END
  {
    assert Gross(0x10_0000 - 23, false, 1) == 0x10_0000;
  }

  /** A client gets the whole heap. */
  method GetAll(h: Heap)
    requires h.Valid() && h.areas == OneArea(SHORT_END, Free) && h.endAddress == SHORT_END && Forged(h.mem)
    modifies h.Repr()
    ensures h.Valid() && h.areas == OneArea(SHORT_END, Used) && h.endAddress == SHORT_END && Forged(h.mem)
  {
    hide Consistent, Settled, Allocated, FirstFit;
    h.Sizes();
    var p, growths, hole := h.HeapAlloc(0x10_0000 - 23, false);
    GotAll(h.areas, h.endAddress, p.value, hole);
  }

  /** From a new heap: a client gets 0x19_0000 bytes, stores a forged area in them and gives them back, so that the heap ends where
      it stands. The client that gets the whole heap then cannot give it back. */
  method MisledInput() returns (h: Heap, misled: bool)
    ensures misled && WrongRow(h.mem, h.areas)
  {
    hide Consistent, Settled, Forged, Misleads, WrongRow;
    h := GetTall();
    Forge(h);
    GiveTallBack(h);
    GetAll(h);
    ForgedMisleads(h.mem);
    misled := h.HeapFree(HEAP_BASE + HEADER, 0);
  }

  /** The addresses of the words a merge with the area on the left overwrites. */
  function JoinWords(l: Area, r: Area): set<int> {
    {l.start, r.End() - 4, r.start + 8, l.End() - 8}
  }

  /** The addresses of the words that the release of area i overwrites before it looks behind the area. */
  ghost function Touched(areas: seq<Area>, i: nat): set<int>
    requires i < |areas|
  {
    {areas[i].start + 4} + if FreeLeft(areas, i) == 1 then JoinWords(areas[i - 1], areas[i]) else {}
  }

  /** The word at k shares no byte with any of these. */
  predicate Spared(words: set<int>, k: int) {
    forall a | a in words :: Apart(k, a)
  }

  /** Only these words are overwritten, with values that are neither the magic number nor above hi. */
  ghost predicate Overwritten(m: Memory, m': Memory, words: set<int>, hi: int) {
    && (forall a | a in words :: a + 4 <= hi)
    && (forall k | Spared(words, k) :: (k in m' <==> k in m) && (k in m ==> m'[k] == m[k]))
    && (forall k | k in m' && !Spared(words, k) :: k in words && m'[k] != MAGIC && m'[k] < hi)
  }

  lemma StoreOver(m: Memory, m': Memory, a: int, v: int, hi: int)
    requires Stored(m, m', a, v) && v != MAGIC && v < hi && a + 4 <= hi
    ensures Overwritten(m, m', {a}, hi)
  {
    assert forall k :: Spared({a}, k) <==> Apart(k, a);
  }

  lemma Over(m: Memory, m1: Memory, m2: Memory, first: set<int>, more: set<int>, hi: int, hi': int)
    requires Overwritten(m, m1, first, hi) && Overwritten(m1, m2, more, hi') && hi' <= hi
    ensures Overwritten(m, m2, first + more, hi)
  {
    assert forall k :: Spared(first + more, k) <==> Spared(first, k) && Spared(more, k);
  }

  lemma JoinOver(m: Memory, m1: Memory, m2: Memory, m3: Memory, m4: Memory, l: Area, r: Area)
    requires l.End() == r.start && OVERHEAD < l.size && OVERHEAD < r.size && l.size + r.size < MAGIC < l.start
    requires Stored(m, m1, l.start, l.size + r.size) && Stored(m1, m2, r.End() - 4, l.start)
    requires Stored(m2, m3, r.start + 8, 0) && Stored(m3, m4, l.End() - 8, 0)
    ensures Overwritten(m, m4, JoinWords(l, r), r.End())
  {
    hide Stored, Overwritten;
    var hi := r.End();
    StoreOver(m, m1, l.start, l.size + r.size, hi);
    StoreOver(m1, m2, r.End() - 4, l.start, hi);
    StoreOver(m2, m3, r.start + 8, 0, hi);
    StoreOver(m3, m4, l.End() - 8, 0, hi);
    Over(m, m1, m2, {l.start}, {r.End() - 4}, hi, hi);
    Over(m, m2, m3, {l.start} + {r.End() - 4}, {r.start + 8}, hi, hi);
    Over(m, m3, m4, {l.start} + {r.End() - 4} + {r.start + 8}, {l.End() - 8}, hi, hi);
    assert {l.start} + {r.End() - 4} + {r.start + 8} + {l.End() - 8} == JoinWords(l, r);
  }

  /** When the release of area i is misled: it is the last one, the words behind the heap's end pass for a free area, and the
      release overwrites nothing of what passes for that area's footer. */
  ghost predicate Misleads(m: Memory, areas: seq<Area>, i: nat, end: int)
    requires i < |areas|
  {
    && i + 1 == |areas| && Misleading(m, end)
    && var footer := U32(end + m[end] - FOOTER); Spared(Touched(areas, i), footer) && Spared(Touched(areas, i), footer + 4)
  }

  /** What passes for a free area after some words have been overwritten did so before, with its footer untouched. */
  lemma StillMisleading(m: Memory, seen: Memory, words: set<int>, end: int)
    requires Overwritten(m, seen, words, end)
    ensures Misleading(seen, end) <==>
            Misleading(m, end) && var footer := U32(end + m[end] - FOOTER); Spared(words, footer) && Spared(words, footer + 4)
  {
    hide U32;
    assert Spared(words, end) && Spared(words, end + 4) && Spared(words, end + 8);
  }

  /** What the release of area i sees behind it. */
  lemma SeenFrom(m: Memory, m1: Memory, seen: Memory, areas: seq<Area>, i: nat, end: int)
    requires Tiled(areas, HEAP_BASE, end) && i < |areas| && Overwritten(m, m1, {areas[i].start + 4}, end)
    requires if FreeLeft(areas, i) == 1 then Overwritten(m1, seen, JoinWords(areas[i - 1], areas[i]), areas[i].End()) else seen == m1
    ensures i + 1 == |areas| && Misleading(seen, end) <==> Misleads(m, areas, i, end)
  {
    hide Overwritten, Misleading, JoinWords, Spared;
    AllOrdered(areas, HEAP_BASE, end);
    if FreeLeft(areas, i) == 1 {
      Over(m, m1, seen, {areas[i].start + 4}, JoinWords(areas[i - 1], areas[i]), end, areas[i].End());
    } else {
      assert {areas[i].start + 4} == Touched(areas, i);
    }
    StillMisleading(m, seen, Touched(areas, i), end);
  }

  // ----- what is above an area that is written

  lemma AgreeAlong(m: Memory, m1: Memory, m2: Memory, lo: int, hi: int)
    requires AgreeAbove(m, m1, lo) && AgreeAbove(m1, m2, lo) && lo <= hi
    ensures AgreeAbove(m, m2, hi)
  {
  }

  lemma WrittenAbove(m: Memory, m': Memory, a: Area)
    requires AreaWritten(m, m', a) && a.size > OVERHEAD
    ensures AgreeAbove(m, m', a.End())
  {
  }

  lemma WasteAbove(m: Memory, m1: Memory, m2: Memory, waste: Area, rest: Area)
    requires AreaWritten(m, m1, waste) && Stored(m1, m2, rest.start, rest.size) && waste.size > OVERHEAD
    requires waste.End() == rest.start && rest.size > OVERHEAD
    ensures AgreeAbove(m, m2, rest.End())
  {
  }

  lemma DonatedAbove(m: Memory, m': Memory, left: Area, longer: Area, hi: int, size: int)
    requires Donated(m, m', left, longer, size) && longer.End() + 4 <= hi
    ensures AgreeAbove(m, m', hi)
  {
  }

  // ----- what a release leaves of the words that were stored in the area

  /** The words between two addresses are still there. */
  ghost predicate Stays(m: Memory, m': Memory, lo: int, hi: int) {
    forall k | lo <= k && k + 4 <= hi && k in m :: k in m' && m'[k] == m[k]
  }

  lemma StaysAlong(m: Memory, m1: Memory, m2: Memory, lo: int, hi: int)
    requires Stays(m, m1, lo, hi) && Stays(m1, m2, lo, hi)
    ensures Stays(m, m2, lo, hi)
  {
  }

  lemma RetypeStays(m: Memory, m': Memory, a: Area, hi: int)
    requires Overwritten(m, m', {a.start + 4}, hi)
    ensures Stays(m, m', a.start + HEADER, a.End() - FOOTER)
  {
    forall k | a.start + HEADER <= k && k + 4 <= a.End() - FOOTER && k in m
      ensures k in m' && m'[k] == m[k]
    {
      assert Spared({a.start + 4}, k);
    }
  }

  lemma UnitedStays(m: Memory, seen: Memory, m': Memory, was: seq<Area>, i: nat, n: nat, left: seq<Area>, right: bool, end: int)
    requires Tiled(was, HEAP_BASE, end) && i < |was| && LeftMerged(was, i, n, left)
    requires if FreeLeft(was, i) == 1 then Overwritten(m, seen, JoinWords(was[i - 1], was[i]), was[i].End()) else seen == m
    requires if right then n + 1 < |left| && Joined(seen, m', left[n], left[n + 1].(kind := Pending)) else m' == seen
    ensures Stays(m, m', was[i].start + HEADER, was[i].End() - FOOTER)
  {
    AllOrdered(was, HEAP_BASE, end);
    var lo, hi := was[i].start + HEADER, was[i].End() - FOOTER;
    assert left[n].End() == was[i].End() && left[n].start <= was[i].start;
    if right {
      assert left[n + 1] == left[n + 1..][0] == was[i + 1];
    }
    forall k | lo <= k && k + 4 <= hi && k in m
      ensures k in seen && seen[k] == m[k]
    {
      assert FreeLeft(was, i) == 1 ==> Spared(JoinWords(was[i - 1], was[i]), k);
    }
  }

  /** Below the last area nothing changes, and in it only header, footer and what lies past the page behind the new end. */
  ghost predicate StaysTrimmed(m: Memory, m': Memory, start: int, end: int) {
    AgreeBelow(m, m', start) && Stays(m, m', start + HEADER, end - FOOTER) && Stays(m, m', end, end + PAGE)
  }

  lemma ShorterStays(m: Memory, m0: Memory, m1: Memory, m2: Memory, a: Area, end': int, end: int)
    requires a.End() == end' <= end && OVERHEAD < a.size
    requires m0 == map k | k in m && !(end' + PAGE <= k < end + PAGE) :: m[k]
    requires Stored(m0, m1, a.start, a.size) && FooterWritten(m1, m2, a.start, a.size)
    ensures StaysTrimmed(m, m2, a.start, end')
  {
  }

  /** The words of a payload are there after its release, but for those that the new footer overwrites when the heap contracts,
      and those past the page behind its new end. */
  ghost predicate PayloadStays(m: Memory, m': Memory, a: Area, end: int) {
    forall k | a.start + HEADER <= k && k + 4 <= a.End() - FOOTER && (k + 4 <= end - FOOTER || (end <= k && k + 4 <= end + PAGE)) && k in m
      :: k in m' && m'[k] == m[k]
  }

  lemma ReleasedStays(m: Memory, m1: Memory, m2: Memory, was: seq<Area>, i: nat, end: int, end': int)
    requires Tiled(was, HEAP_BASE, end) && i < |was| && |Coalesced(was, i)| > 0
    requires Stays(m, m1, was[i].start + HEADER, was[i].End() - FOOTER)
    requires var united := Coalesced(was, i); StaysTrimmed(m1, m2, united[|united| - 1].start, end')
    ensures PayloadStays(m, m2, was[i], end')
  {
    AllOrdered(was, HEAP_BASE, end);
    var united := Coalesced(was, i);
    var r := i + 1 + FreeRight(was, i);
    if r < |was| {
      assert united[|united| - 1] == was[|was| - 1];
    }
  }

  lemma LastShrunk(areas: seq<Area>, end: int)
    requires |areas| > 0
    ensures |Shrunk(areas, end)| == |areas| && Shrunk(areas, end)[|areas| - 1].start == areas[|areas| - 1].start
  {
  }

  /** A forged footer behind the heap's end is never touched. */
  lemma FooterBehind(m: Memory, areas: seq<Area>, i: nat, end: int)
    requires Tiled(areas, HEAP_BASE, end) && i < |areas| && end in m && end <= U32(end + m[end] - FOOTER)
    ensures Misleads(m, areas, i, end) <==> i + 1 == |areas| && Misleading(m, end)
  {
    AllOrdered(areas, HEAP_BASE, end);
  }

  /** What passes for an area behind this one has a size that makes a difference. */
  lemma WrongSize(m: Memory, a: Area)
    requires Framed(m, a) && OVERHEAD < a.size < WORD && FOOTER <= a.End() < WORD
    ensures Misleading(m, a.End()) ==> U32(a.size + m[a.End()]) != a.size
  {
    var end := a.End();
    if Misleading(m, end) && U32(a.size + m[end]) == a.size {
      SameAround(a.size, m[end], end - FOOTER);
      assert false;
    }
  }

  lemma SameAround(x: int, s: int, y: int)
    requires 0 <= x < WORD && 0 <= y < WORD && U32(x + s) == x
    ensures U32(y + s) == y
  {
  }

  lemma JoinedRight(m: Memory, m1: Memory, m2: Memory, m3: Memory, m4: Memory, m5: Memory, l: Area, r: Area)
    requires Framed(m, r.(kind := Free)) && Framed(m, l.(kind := Free)) && l.End() == r.start
    requires OVERHEAD < l.size && OVERHEAD < r.size && l.size + r.size < MAGIC < l.start
    requires Stored(m, m1, l.start, l.size + r.size) && Stored(m1, m2, l.End() - 8, 0)
    requires Stored(m2, m3, r.start + 8, 0) && Stored(m3, m4, r.End() - 4, l.start) && Stored(m4, m5, l.start + 4, TypeOf(Free))
    ensures Joined(m, m5, l, r)
  {
  }

  /** A merge of areas i and i + 1. */
  lemma MergeWhole(m: Memory, m': Memory, areas: seq<Area>, end: int, data: Stores, free: multiset<int>, used: multiset<int>, i: nat, joined: Area)
    requires Consistent(m, areas, end, data, free, used) && i + 1 < |areas| && OthersListed(areas, i, i + 1)
    requires joined == areas[i].(size := areas[i].size + areas[i + 1].size) && !joined.kind.Used? && areas[i + 1].kind.Pending?
    requires Framed(m, areas[i].(kind := Free)) && Framed(m, areas[i + 1].(kind := Free))
    requires Joined(m, m', areas[i], areas[i + 1])
    ensures var areas' := areas[..i] + [joined] + areas[i + 2..];
            && Consistent(m', areas', end, data, free, used)
            && OthersListed(areas', i, i) && Framed(m', joined.(kind := Free))
            && areas'[|areas'| - 1].start ==
                 if areas[|areas| - 1].start == areas[i + 1].start then areas[i].start else areas[|areas| - 1].start
  {
    hide Consistent, Framed, Joined, Reframed, AgreeOutside, OthersListed;
    Ranges(m, areas, end, data, free, used, i);
    Ranges(m, areas, end, data, free, used, i + 1);
    JoinedEffect(m, m', areas[i], areas[i + 1], joined);
    ReframedIs(m, m', joined);
    MergeStep(m, m', areas, end, data, free, used, i, joined);
    LastAfterMerge(m, areas, end, data, free, used, i, joined);
    MergedOthers(areas, i, joined);
  }

  lemma ReframedIs(m: Memory, m': Memory, a: Area)
    requires Reframed(m, m', a)
    ensures Framed(m', a.(kind := Free))
  {
  }

  /** The owners' words outside an area. */
  ghost function Without(words: Memory, a: Area): Memory {
    map k | k in words && !(a.start + HEADER <= k && k + 4 <= a.End() - FOOTER) :: words[k]
  }

  /** What is left of the owners' stores when an area is released: its words are forgotten, not the strays among them. */
  ghost function Left(data: Stores, a: Area): Stores {
    Stores(Without(data.words, a), data.strays)
  }

  lemma OwnWordsGone(words: Memory, a: Area)
    ensures forall k | k in Without(words, a) :: k in words && Without(words, a)[k] == words[k] && !InPayload([a], k)
  {
  }

  lemma UnlistUsed(m: Memory, areas: seq<Area>, end: int, data: Stores, free: multiset<int>, used: multiset<int>, i: nat)
    requires Consistent(m, areas, end, data, free, used) && i < |areas| && areas[i].kind.Used?
    ensures Consistent(m, areas[i := areas[i].(kind := Pending)], end, Left(data, areas[i]), free, used - multiset{areas[i].start})
  {
    hide Consistent;
    OwnWordsGone(data.words, areas[i]);
    Forget(m, areas, end, data, Left(data, areas[i]), free, used);
    Unlist(m, areas, end, Left(data, areas[i]), free, used, i);
  }

  lemma RetypedFrame(m: Memory, m': Memory, a: Area)
    requires Framed(m, a.(kind := Used)) && Stored(m, m', a.start + 4, TypeOf(Free)) && a.size > OVERHEAD
    ensures Framed(m', a.(kind := Free))
  {
  }

  lemma FramedWords(m: Memory, a: Area)
    requires Framed(m, a)
    ensures a.start in m && m[a.start] == a.size && a.start + 4 in m && m[a.start + 4] == TypeOf(a.kind) && IsMagic(m, a.start + 8)
    ensures IsMagic(m, a.End() - 8) && a.End() - 4 in m && m[a.End() - 4] == a.start
  {
  }

  lemma FirstHasNoLeft(m: Memory, areas: seq<Area>, end: int, data: Stores, free: multiset<int>, used: multiset<int>, i: nat)
    requires Consistent(m, areas, end, data, free, used) && i < |areas| && areas[i].start - FOOTER < HEAP_BASE
    ensures i == 0
  {
    AllOrdered(areas, HEAP_BASE, end);
  }

  ghost predicate OthersListed(areas: seq<Area>, i: nat, j: nat) {
    forall n | 0 <= n < |areas| && n != i && n != j :: !areas[n].kind.Pending?
  }

  lemma ReleasedOnly(areas: seq<Area>, i: nat)
    requires Settled(areas) && i < |areas|
    ensures OthersListed(areas[i := areas[i].(kind := Pending)], i, i)
  {
  }

  lemma OthersToo(areas: seq<Area>, i: nat)
    requires OthersListed(areas, i, i) && i + 1 < |areas|
    ensures OthersListed(areas[i + 1 := areas[i + 1].(kind := Pending)], i, i + 1)
  {
  }

  lemma OtherListed(areas: seq<Area>, i: nat, n: nat)
    requires OthersListed(areas, i, i) && n < |areas| && n != i
    ensures !areas[n].kind.Pending?
  {
  }

  lemma OthersMore(areas: seq<Area>, i: nat, n: nat)
    requires OthersListed(areas, i, i)
    ensures OthersListed(areas, n, i)
  {
  }

  lemma MergedOthers(areas: seq<Area>, i: nat, joined: Area)
    requires OthersListed(areas, i, i + 1) && i + 1 < |areas|
    ensures OthersListed(areas[..i] + [joined] + areas[i + 2..], i, i)
  {
    var r := areas[..i] + [joined] + areas[i + 2..];
    assert forall k | i < k < |r| :: r[k] == areas[k + 1];
  }

  lemma LeftExists(m: Memory, areas: seq<Area>, end: int, data: Stores, free: multiset<int>, used: multiset<int>, i: nat)
    requires Consistent(m, areas, end, data, free, used) && i < |areas| && areas[i].start - FOOTER >= HEAP_BASE
    ensures i > 0
  {
  }

  lemma JoinedLeft(m: Memory, m1: Memory, m2: Memory, m3: Memory, m4: Memory, l: Area, r: Area)
    requires Framed(m, l) && l.kind.Free? && Framed(m, r.(kind := Free)) && l.End() == r.start
    requires OVERHEAD < l.size && OVERHEAD < r.size && l.size + r.size < MAGIC < l.start
    requires Stored(m, m1, l.start, l.size + r.size) && Stored(m1, m2, r.End() - 4, l.start)
    requires Stored(m2, m3, r.start + 8, 0) && Stored(m3, m4, l.End() - 8, 0)
    ensures Joined(m, m4, l, r)
  {
  }

  lemma LastAfterMerge(m: Memory, areas: seq<Area>, end: int, data: Stores, free: multiset<int>, used: multiset<int>, i: nat, joined: Area)
    requires Consistent(m, areas, end, data, free, used) && i + 1 < |areas| && joined.start == areas[i].start
    ensures var r := areas[..i] + [joined] + areas[i + 2..];
            r[|r| - 1].start == if areas[|areas| - 1].start == areas[i + 1].start then areas[i].start else areas[|areas| - 1].start
  {
    AllOrdered(areas, HEAP_BASE, end);
  }

  function OverheadOf(pageAlign: bool): int {
    if pageAlign then OVERHEAD else OVERHEAD + 3
  }

  /** The size that heap_alloc looks for at the given depth of its recursion. */
  function Gross(size: int, pageAlign: bool, depth: nat): (g: int)
    requires 0 <= size < WORD
    ensures 0 <= g < WORD
  {
    if depth == 0 then size else U32(Gross(size, pageAlign, depth - 1) + OverheadOf(pageAlign))
  }

  /** The areas after an allocation from the given row, and the pointer that was returned. */
  ghost predicate CarvedFrom(was: seq<Area>, hole: nat, areas: seq<Area>, p: int, gross: int, pageAlign: bool)
    requires hole < |was|
  {
    var lead := Lead(was[hole].start, pageAlign);
    && FitsArea(was[hole], gross, pageAlign)
    && (hole == 0 ==> lead == 0 || lead > OVERHEAD)
    && areas == Carved(was, hole, lead, gross)
    && p == Pointer(was[hole].start + lead)
  }

  /** Area u serves the request: the pointer belongs to it and is aligned as asked, and the requested bytes
      end before the footer, exactly if the size does not wrap around when the overhead is added. */
  ghost predicate Serves(areas: seq<Area>, u: nat, p: int, size: int, pageAlign: bool) {
    && u < |areas| && areas[u].kind.Used? && p == Pointer(areas[u].start) && HEAP_BASE <= p && areas[u].End() <= TOP
    && (pageAlign ==> p % PAGE == 0)
    && (p + size <= areas[u].End() - FOOTER <==> size + OverheadOf(pageAlign) < WORD)
  }

  /** The heap's end after a request has made it grow so many times, each time for the size of that level of the recursion. */
  function GrownEnd(end: int, size: int, pageAlign: bool, growths: nat): int
    requires 0 <= size < WORD
    decreases growths
  {
    if growths == 0 then end
    else var gross := U32(size + OverheadOf(pageAlign)); GrownEnd(end + Growth(end, gross), gross, pageAlign, growths - 1)
  }

  /** An allocation succeeded: the row it started from, lengthened by what the heap grew, was carved for the
      grossed-up request, and one of the new areas serves it. */
  ghost predicate Allocated(was: seq<Area>, end: int, areas: seq<Area>, end': int, p: int, size: int, pageAlign: bool,
                            growths: nat, hole: nat)
    requires 0 <= size < WORD
  {
    && |was| > 0 && end <= end' && (growths == 0 <==> end == end') && end' == GrownEnd(end, size, pageAlign, growths)
    && var grown := Grown(was, end' - end);
    && hole < |grown|
    && CarvedFrom(grown, hole, areas, p, Gross(size, pageAlign, growths + 1), pageAlign)
    && Serves(areas, UsedAt(hole, Lead(grown[hole].start, pageAlign)), p, size, pageAlign)
  }

  lemma GrossOnce(size: int, pageAlign: bool)
    requires 0 <= size < WORD
    ensures Gross(size, pageAlign, 1) == U32(size + OverheadOf(pageAlign))
  {
    assert Gross(size, pageAlign, 0) == size;
  }

  lemma {:induction false} GrossShift(size: int, pageAlign: bool, depth: nat)
    requires 0 <= size < WORD
    ensures Gross(Gross(size, pageAlign, 1), pageAlign, depth) == Gross(size, pageAlign, depth + 1)
  {
    GrossOnce(size, pageAlign);
    if depth > 0 {
      GrossShift(size, pageAlign, depth - 1);
    }
  }

  lemma AllocatedHere(was: seq<Area>, end: int, areas: seq<Area>, p: int, size: int, pageAlign: bool, hole: nat)
    requires 0 <= size < WORD && Tiled(was, HEAP_BASE, end) && end <= TOP && hole < |was|
    requires CarvedFrom(was, hole, areas, p, U32(size + OverheadOf(pageAlign)), pageAlign)
    ensures Allocated(was, end, areas, end, p, size, pageAlign, 0, hole)
  {
    hide Tiled, Gross, Lead, Pointer, CarvedFrom, Serves, U32, UsedAt;
    GrossOnce(size, pageAlign);
    assert was == Grown(was, 0);
    CarvedServes(was, end, areas, p, size, pageAlign, hole);
  }

  lemma CarvedServes(was: seq<Area>, end: int, areas: seq<Area>, p: int, size: int, pageAlign: bool, hole: nat)
    requires 0 <= size < WORD && Tiled(was, HEAP_BASE, end) && end <= TOP && hole < |was|
    requires CarvedFrom(was, hole, areas, p, U32(size + OverheadOf(pageAlign)), pageAlign)
    ensures Serves(areas, UsedAt(hole, Lead(was[hole].start, pageAlign)), p, size, pageAlign)
  {
    hide Tiled, Gross, Lead, Pointer, U32, Carved;
    var gross := U32(size + OverheadOf(pageAlign));
    var lead := Lead(was[hole].start, pageAlign);
    AllOrdered(was, HEAP_BASE, end);
    CarvedSurroundings(was, hole, lead, gross);
    var placed := Placed(was[hole].start + lead, was[hole].size - lead, gross);
    var u := UsedAt(hole, lead);
    assert areas[u] == areas[u..u + |placed|][0] == placed[0];
    Payload(placed[0], size, pageAlign);
  }

  /** Alignment and extent of the pointer into an area of at least the grossed-up size. */
  lemma Payload(a: Area, size: int, pageAlign: bool)
    requires 0 <= size < WORD && 0 <= a.start && a.End() <= TOP && a.size >= U32(size + OverheadOf(pageAlign))
    requires pageAlign ==> (a.start + HEADER) % PAGE == 0
    ensures pageAlign ==> Pointer(a.start) % PAGE == 0
    ensures Pointer(a.start) + size <= a.End() - FOOTER <==> size + OverheadOf(pageAlign) < WORD
  {
    if pageAlign {
      AlignedPointer(a.start);
    }
    hide Pointer;
  }

  lemma AlignedPointer(start: int)
    requires (start + HEADER) % PAGE == 0
    ensures Pointer(start) == start + HEADER
  {
  }

  lemma AllocatedDeeper(was: seq<Area>, end: int, middle: int, areas: seq<Area>, end': int, p: int, size: int, pageAlign: bool,
                        growths: nat, hole: nat)
    requires 0 <= size < WORD && |was| > 0 && end < middle == end + Growth(end, U32(size + OverheadOf(pageAlign)))
    requires CanGrow(end, U32(size + OverheadOf(pageAlign)))
    requires Allocated(Grown(was, middle - end), middle, areas, end', p, U32(size + OverheadOf(pageAlign)), pageAlign, growths, hole)
    ensures Allocated(was, end, areas, end', p, size, pageAlign, growths + 1, hole)
  {
    hide Tiled, Gross, Grown, CarvedFrom;
    GrossOnce(size, pageAlign);
    GrossShift(size, pageAlign, growths + 1);
    GrownTwice(was, middle - end, end' - middle);
  }

  /** There is room for the request with at most n expansions: none is capped at the maximum address, and
      neither index fills up. With n below 2 the last area must be free and long enough already, or once it has grown. */
  ghost predicate Ample(n: nat, size: int, pageAlign: bool, areas: seq<Area>, end: int, free: nat, used: nat) {
    var whole := RoundUp(Max(size + 23 * (n + 1), KHEAP_MIN_GROWTH));
    && 0 <= size && (size > 0 || !pageAlign) && free + n < INDEX_SIZE && used < INDEX_SIZE
    && HEAP_BASE + whole <= KHEAP_MAX && end + Times(n, whole) <= TOP
    && (n == 0 ==> Tail(areas) >= size + OverheadOf(pageAlign) + Slack(pageAlign))
    && (n == 1 ==> Tail(areas) + RoundUp(Max(size + OverheadOf(pageAlign), KHEAP_MIN_GROWTH))
                   >= size + 2 * OverheadOf(pageAlign) + Slack(pageAlign))
  }

  ghost predicate SomeFits(areas: seq<Area>, gross: int, pageAlign: bool) {
    exists i :: 0 <= i < |areas| && FitsArea(areas[i], gross, pageAlign)
  }

  /** An allocation finds a hole, or the heap can grow and it finds one then. */
  ghost predicate Serviceable(areas: seq<Area>, end: int, size: int, pageAlign: bool)
    decreases TOP - end
  {
    var gross := U32(size + OverheadOf(pageAlign));
    SomeFits(areas, gross, pageAlign) ||
    (|areas| > 0 && CanGrow(end, gross) && Serviceable(Grown(areas, Growth(end, gross)), end + Growth(end, gross), gross, pageAlign))
  }

  lemma NotFitting(areas: seq<Area>, end: int, size: int, pageAlign: bool)
    requires |areas| > 0 && !SomeFits(areas, U32(size + OverheadOf(pageAlign)), pageAlign)
    ensures var gross := U32(size + OverheadOf(pageAlign));
            && (Serviceable(areas, end, size, pageAlign) <==>
                CanGrow(end, gross) && Serviceable(Grown(areas, Growth(end, gross)), end + Growth(end, gross), gross, pageAlign))
            && (CanGrow(end, gross) && HEAP_BASE <= end && gross > OVERHEAD ==> U32(gross + OverheadOf(pageAlign)) > OVERHEAD)
  {
    hide SomeFits, Grown;
  }

  /** Neither index is full, with an entry to spare for the area that growth may add. */
  ghost predicate IndexRoom(areas: seq<Area>) {
    |Starts(areas, Free)| + (if Tail(areas) > 0 then 0 else 1) < INDEX_SIZE && |Starts(areas, Used)| < INDEX_SIZE
  }

  lemma GrownRoom(areas: seq<Area>, extra: int)
    requires |areas| > 0 && areas[|areas| - 1].size > 0 && extra > 0 && IndexRoom(areas)
    ensures IndexRoom(Grown(areas, extra))
  {
    TailGrown(areas, extra);
    GrownStarts(areas, extra, Free);
    GrownStarts(areas, extra, Used);
    hide Grown, Starts;
  }

  lemma GrownStarts(areas: seq<Area>, extra: int, kind: Kind)
    requires |areas| > 0 && areas[|areas| - 1].size > 0 && extra > 0
    ensures |Starts(Grown(areas, extra), kind)| == |Starts(areas, kind)| + if kind.Free? && Tail(areas) == 0 then 1 else 0
  {
    var n := |areas| - 1;
    var grown := Grown(areas, extra);
    if areas[n].kind.Free? {
      assert areas == areas[..n] + [areas[n]] && grown == areas[..n] + [grown[n]];
      StartsConcat(areas[..n], [areas[n]], kind);
      StartsConcat(areas[..n], [grown[n]], kind);
    } else {
      StartsConcat(areas, [Area(areas[n].End(), extra, Free)], kind);
    }
  }

  /** What alignment may take off the front of a hole. */
  function Slack(pageAlign: bool): int {
    if pageAlign then PAGE - 1 else 0
  }

  function Times(n: nat, x: int): int {
    n * x
  }

  ghost function Tail(areas: seq<Area>): int {
    if |areas| > 0 && areas[|areas| - 1].kind.Free? then areas[|areas| - 1].size else 0
  }

  /** Room for n expansions means that the next one succeeds, and leaves room for n - 1. */
  lemma AmpleStep(n: nat, size: int, pageAlign: bool, areas: seq<Area>, end: int, free: nat, used: nat)
    requires 1 <= n <= 2 && 0 <= size < WORD && |areas| > 0 && areas[|areas| - 1].size > 0
    ensures Ample(n, size, pageAlign, areas, end, free, used) ==>
      var gross := U32(size + OverheadOf(pageAlign));
      free < INDEX_SIZE && CanGrow(end, gross)
      && Ample(n - 1, gross, pageAlign, Grown(areas, Growth(end, gross)), end + Growth(end, gross), free + 1, used)
  {
    if Ample(n, size, pageAlign, areas, end, free, used) {
      hide U32, RoundUp, Grown, Tail, Max, Times;
      var gross := size + OverheadOf(pageAlign);
      var least := RoundUp(Max(gross, KHEAP_MIN_GROWTH));
      AmpleArith(n, size, OverheadOf(pageAlign), end);
      assert U32(gross) == gross;
      TailGrown(areas, least);
    }
  }

  /** The whole pages for this level and for the next stay within the whole pages the room was measured in. */
  lemma AmpleArith(n: nat, size: int, overhead: int, end: int)
    requires 1 <= n <= 2 && 0 <= size && OVERHEAD <= overhead <= OVERHEAD + 3
    requires var whole := RoundUp(Max(size + 23 * (n + 1), KHEAP_MIN_GROWTH)); HEAP_BASE + whole <= KHEAP_MAX && end + Times(n, whole) <= TOP
    ensures var least := RoundUp(Max(size + overhead, KHEAP_MIN_GROWTH));
            var next := RoundUp(Max(size + overhead + 23 * n, KHEAP_MIN_GROWTH));
            && size + overhead < WORD && least >= KHEAP_MIN_GROWTH && least >= size + overhead
            && HEAP_BASE + least <= KHEAP_MAX && HEAP_BASE + next <= KHEAP_MAX
            && end + least + Times(n - 1, next) <= TOP
  {
    RoundUpMonotone(Max(size + overhead, KHEAP_MIN_GROWTH), Max(size + overhead + 23 * n, KHEAP_MIN_GROWTH));
    RoundUpMonotone(Max(size + overhead + 23 * n, KHEAP_MIN_GROWTH), Max(size + 23 * (n + 1), KHEAP_MIN_GROWTH));
    hide RoundUp;
  }

  lemma TailGrown(areas: seq<Area>, extra: int)
    requires |areas| > 0 && areas[|areas| - 1].size > 0 && extra > 0
    ensures Tail(Grown(areas, extra)) == Tail(areas) + extra
    ensures Tail(areas) >= 0
  {
  }

  lemma AmpleTail(size: int, pageAlign: bool, areas: seq<Area>, end: int, free: nat, used: nat)
    ensures Ample(0, size, pageAlign, areas, end, free, used)
            ==> 0 < U32(size + OverheadOf(pageAlign)) <= Tail(areas) - Slack(pageAlign)
  {
    hide U32;
  }

  lemma RoundUpMonotone(a: int, b: int)
    requires a <= b
    ensures RoundUp(a) <= RoundUp(b)
  {
  }

  lemma AmpleFewer(n: nat, size: int, pageAlign: bool, areas: seq<Area>, end: int, free: nat, free': nat, used: nat)
    requires free <= free'
    ensures Ample(n, size, pageAlign, areas, end, free', used) ==> Ample(n, size, pageAlign, areas, end, free, used)
  {
  }

  lemma AmpleRoom(size: int, pageAlign: bool, areas: seq<Area>, end: int, free: nat, used: nat)
    ensures forall n: nat | Ample(n, size, pageAlign, areas, end, free, used)
              :: free < INDEX_SIZE && used < INDEX_SIZE && U32(size + OverheadOf(pageAlign)) > OVERHEAD
  {
  }

  function DwordAlign(a: int): (p: int)
    ensures p == Pointer(a - HEADER)
  {
    if a % 4 != 0 then a - a % 4 + 4 else a
  }

  /** Unsigned 32-bit arithmetic. */
  function U32(n: int): (r: int)
    ensures 0 <= r < WORD
    ensures 0 <= n < WORD ==> r == n
    ensures WORD <= n < 2 * WORD ==> r == n - WORD
    ensures -WORD <= n < 0 ==> r == n + WORD
    ensures n % PAGE == 0 ==> r % PAGE == 0
  {
    n % WORD
  }

  function RoundUp(n: int): (r: int)
    ensures n <= r < n + PAGE && r % PAGE == 0
  {
    if n % PAGE == 0 then n else n - n % PAGE + PAGE
  }

  /** The rightmost area while one is pending: create_area will catch up when it is the last one. */
  ghost predicate Rightmost(areas: seq<Area>, i: nat, rightmost: int)
    requires i < |areas|
  {
    if i + 1 < |areas| then rightmost == areas[|areas| - 1].start else rightmost <= areas[i].start
  }

  /** An area written in the place of another one leaves the rightmost pointer at the last area. */
  lemma RightmostAfter(areas: seq<Area>, i: nat, a: Area, rightmost: int)
    requires i < |areas| && Rightmost(areas, i, rightmost) && a.start == areas[i].start
    requires i + 1 < |areas| ==> a.start < areas[|areas| - 1].start
    ensures var now := areas[..i] + [a] + areas[i + 1..];
            now[|now| - 1].start == if a.start > rightmost then a.start else rightmost
  {
  }

  function Max(a: int, b: int): int {
    if a < b then b else a
  }

  /** Bytes heap_expand adds: the request in whole pages, at least the minimum, but only what is left below
      the maximum address when the request alone would not fit under it. */
  function Growth(end: int, request: int): int {
    var whole := RoundUp(Max(request, KHEAP_MIN_GROWTH));
    if HEAP_BASE + whole > KHEAP_MAX then KHEAP_MAX - end else whole
  }

  /** The 32-bit computation of heap_expand against the sizes it stands for. */
  lemma GrowthInWords(end: int, whole: int)
    requires HEAP_BASE < end <= TOP && end % PAGE == 0 && 0 < whole <= WORD && whole % PAGE == 0
    ensures var first := U32(whole);
            var added := if U32(HEAP_BASE + first) > KHEAP_MAX then U32((KHEAP_MAX - HEAP_BASE) - (end - HEAP_BASE)) else first;
            var growth := if HEAP_BASE + whole > KHEAP_MAX then KHEAP_MAX - end else whole;
            var newEnd := U32(end + added);
            var passes := HEAP_BASE < U32(HEAP_BASE + added) <= KHEAP_MAX && newEnd > end && U32(newEnd + PAGE) > end + PAGE;
            && newEnd % PAGE == 0
            && (passes <==> HEAP_BASE + whole < WORD && 0 < growth && end + growth <= TOP)
            && (passes ==> newEnd == end + growth)
  {
    hide U32;
    assert U32(whole) == if whole == WORD then 0 else whole;
    if HEAP_BASE + whole < WORD {
      assert U32(HEAP_BASE + whole) == HEAP_BASE + whole;
    }
  }

  /** When no assertion of heap_expand fails. */
  predicate CanGrow(end: int, request: int) {
    && HEAP_BASE + RoundUp(Max(request, KHEAP_MIN_GROWTH)) < WORD
    && 0 < Growth(end, request) && end + Growth(end, request) <= TOP
  }

  /** The cap compares the request with the room above the start of the heap, not above its end. Growth
      therefore stays below the maximum address exactly when the request is capped or the room above the
      current end is enough. */
  lemma GrowthBelowMax(end: int, request: int)
    requires end % PAGE == 0 && HEAP_BASE <= end && CanGrow(end, request)
    ensures end + Growth(end, request) <= KHEAP_MAX
      <==> RoundUp(Max(request, KHEAP_MIN_GROWTH)) > KHEAP_MAX - HEAP_BASE
           || RoundUp(Max(request, KHEAP_MIN_GROWTH)) <= KHEAP_MAX - end
  {
  }

  /** It can go past the maximum: a heap that has reached it still grows by a small request. */
  lemma GrowthPastMax()
    ensures CanGrow(KHEAP_MAX, 1) && KHEAP_MAX + Growth(KHEAP_MAX, 1) > KHEAP_MAX
  {
  }

  // ----- what the stores add up to

  lemma FramedSize(m: Memory, a: Area)
    requires Framed(m, a)
    ensures a.start in m && m[a.start] == a.size
  {
  }

  lemma SettledAt(areas: seq<Area>, i: nat)
    requires Settled(areas) && i < |areas|
    ensures !areas[i].kind.Pending?
  {
  }

  /** An area behind the old end collides with none. */
  lemma BeyondAll(m: Memory, areas: seq<Area>, end: int, data: Stores, free: multiset<int>, used: multiset<int>,
                  freeIndex: seq<int>, usedIndex: seq<int>, a: Area)
    requires Consistent(m, areas, end, data, free, used) && multiset(freeIndex) == free && multiset(usedIndex) == used
    requires a.start == end && a.size > 0
    ensures HEAP_BASE <= end && NoCollision(m, freeIndex, a) && NoCollision(m, usedIndex, a)
  {
    AllOrdered(areas, HEAP_BASE, end);
    CollisionFree(m, areas, end, data, free, used, Free, freeIndex, a);
    CollisionFree(m, areas, end, data, free, used, Used, usedIndex, a);
  }

  lemma LongerEffect(m: Memory, m1: Memory, m2: Memory, m3: Memory, gone: Area, a: Area)
    requires Framed(m, gone) && OVERHEAD < gone.size < a.size < MAGIC < gone.start && gone.kind.Free?
    requires a.start == gone.start && a.kind == gone.kind && a.size >= gone.size + PAGE
    requires Stored(m, m1, gone.End() - 8, 0) && Stored(m1, m2, gone.start, a.size) && FooterWritten(m2, m3, a.start, a.size)
    ensures Reframed(m, m3, a) && AgreeBelow(m, m3, a.start) && !IsMagic(m3, gone.End() - 8)
  {
  }

  /** What stands left of the allocation once the lead has been dealt with. */
  ghost function Front(areas: seq<Area>, i: nat, lead: int): seq<Area>
    requires i < |areas| && 0 <= lead && (i == 0 ==> lead == 0 || lead > OVERHEAD)
  {
    if lead == 0 then areas[..i]
    else if lead > OVERHEAD then areas[..i] + [Area(areas[i].start, lead, Free)]
    else areas[..i - 1] + [areas[i - 1].(size := areas[i - 1].size + lead)]
  }

  lemma FrontCongruent(areas: seq<Area>, i: nat, kind: Kind, lead: int)
    requires i < |areas| && 0 <= lead && (i == 0 ==> lead == 0 || lead > OVERHEAD)
    ensures var areas' := areas[i := areas[i].(kind := kind)];
            Front(areas', i, lead) == Front(areas, i, lead) && areas'[i + 1..] == areas[i + 1..]
  {
    assert areas[i := areas[i].(kind := kind)][..i] == areas[..i];
  }

  lemma Around(front: seq<Area>, a: Area, back: seq<Area>)
    ensures (front + [a] + back)[..|front|] == front && (front + [a] + back)[|front| + 1..] == back
  {
  }

  lemma CarvedIs(was: seq<Area>, i: nat, lead: int, gross: int, front: seq<Area>, areas: seq<Area>)
    requires i < |was| && 0 <= lead && (i == 0 ==> lead == 0 || lead > OVERHEAD)
    requires front == Front(was, i, lead)
    requires areas == front + Placed(was[i].start + lead, was[i].size - lead, gross) + was[i + 1..]
    ensures areas == Carved(was, i, lead, gross)
  {
  }

  lemma CarvedHere(was: seq<Area>, i: nat, areas: seq<Area>, gross: int, pageAlign: bool)
    requires i < |was| && FitsArea(was[i], gross, pageAlign)
    requires var lead := Lead(was[i].start, pageAlign); (i == 0 ==> lead == 0 || lead > OVERHEAD) && areas == Carved(was, i, lead, gross)
    ensures CarvedFrom(was, i, areas, DwordAlign(was[i].start + Lead(was[i].start, pageAlign) + HEADER), gross, pageAlign)
  {
    hide Carved, FitsArea, Lead;
  }

  lemma StoredElsewhere(m: Memory, m': Memory, at: int, v: int, k: int)
    requires Stored(m, m', at, v) && (k + 4 <= at || at + 4 <= k)
    ensures (k in m' <==> k in m) && Load(m', k) == Load(m, k)
  {
  }

  lemma DonatedEffect(m: Memory, m1: Memory, m2: Memory, m3: Memory, m4: Memory, left: Area, longer: Area, size: int)
    requires Framed(m, left) && OVERHEAD < left.size < longer.size < MAGIC < left.start && size < MAGIC
    requires longer.start == left.start && longer.kind == left.kind
    requires Stored(m, m1, left.End() - 8, 0) && Stored(m1, m2, left.start, longer.size)
    requires FooterWritten(m2, m3, longer.start, longer.size) && Stored(m3, m4, longer.End(), size)
    ensures Donated(m, m4, left, longer, size)
  {
  }

  lemma NewSize(m': Memory, longer: Area, m: Memory, left: Area, size: int)
    requires Donated(m, m', left, longer, size)
    ensures longer.End() in m' && m'[longer.End()] == size
  {
    hide Framed;
  }

  lemma FirstArea(m: Memory, m': Memory, areas: seq<Area>, end: int)
    requires m == map[] && |areas| == 1 && areas[0].kind.Free? && areas[0].start == HEAP_BASE && areas[0].End() == end
    requires OVERHEAD < areas[0].size < MAGIC && end % PAGE == 0 && end <= TOP && AreaWritten(m, m', areas[0])
    ensures Consistent(m', areas, end, Stores(map[], {}), multiset{HEAP_BASE}, multiset{})
  {
    SlotOf(areas, 0);
    assert areas == [areas[0]];
    One(areas[0]);
    forall k | k in m' && m'[k] == MAGIC && k % PAGE == 8
      ensures MagicSlot(areas, k)
    {
      WrittenMagics(m, m', areas[0], k);
    }
  }

  ghost predicate FooterWritten(m: Memory, m': Memory, start: int, size: int) {
    var f := start + size - 8;
    && f in m' && m'[f] == MAGIC && f + 4 in m' && m'[f + 4] == start
    && (forall k | k + 4 <= f || f + 8 <= k :: (k in m' <==> k in m) && (k in m ==> m'[k] == m[k]))
    && (forall k | k in m' && f < k + 4 && k < f + 8 :: k == f || k == f + 4)
  }

  ghost predicate HeaderWritten(m: Memory, m': Memory, start: int, size: int, type_: int) {
    && start in m' && m'[start] == size && start + 4 in m' && m'[start + 4] == type_ && IsMagic(m', start + 8)
    && (forall k | k + 4 <= start || start + HEADER <= k :: (k in m' <==> k in m) && (k in m ==> m'[k] == m[k]))
    && (forall k | k in m' && start < k + 4 && k < start + HEADER :: k == start || k == start + 4 || k == start + 8)
  }

  lemma HeaderThree(m0: Memory, m1: Memory, m2: Memory, m3: Memory, start: int, size: int, type_: int)
    requires Stored(m0, m1, start, size) && Stored(m1, m2, start + 8, MAGIC) && Stored(m2, m3, start + 4, type_)
    ensures HeaderWritten(m0, m3, start, size, type_)
  {
  }

  lemma HeaderThenFooter(m0: Memory, m1: Memory, m2: Memory, a: Area)
    requires a.size > OVERHEAD
    requires HeaderWritten(m0, m1, a.start, a.size, TypeOf(a.kind)) && FooterWritten(m1, m2, a.start, a.size)
    ensures AreaWritten(m0, m2, a)
  {
  }
}
