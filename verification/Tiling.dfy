/** The heap seen as a row of areas, without the bytes that represent it.

    An area that is being carved or released belongs to neither index for a while; that is the kind
    Pending. Between operations no area is pending. */
module Tiling {

  const PAGE := 0x1000
  const HEADER := 12
  const FOOTER := 8
  const OVERHEAD := HEADER + FOOTER
  /** A remainder smaller than this is left inside the allocation. */
  const MIN_REST := 16 + OVERHEAD

  datatype Kind = Used | Free | Pending

  datatype Area = Area(start: int, size: int, kind: Kind) {
    function End(): int { start + size }
  }

  ghost predicate Tiled(areas: seq<Area>, lo: int, hi: int) {
    && |areas| > 0
    && areas[0].start == lo
    && areas[|areas| - 1].End() == hi
    && (forall i | 0 <= i < |areas| :: areas[i].size > OVERHEAD)
    && (forall i, j | 0 <= i && j == i + 1 && j < |areas| :: areas[i].End() == areas[j].start)
  }

  ghost predicate NoFreeNeighbours(areas: seq<Area>) {
    forall i, j | 0 <= i && j == i + 1 && j < |areas| :: !(areas[i].kind.Free? && areas[j].kind.Free?)
  }

  ghost predicate NonePending(areas: seq<Area>) {
    forall i | 0 <= i < |areas| :: !areas[i].kind.Pending?
  }

  /** What holds of the row between two operations. */
  ghost predicate Settled(areas: seq<Area>) {
    NonePending(areas) && NoFreeNeighbours(areas)
  }

  lemma {:induction false} Ordered(areas: seq<Area>, lo: int, hi: int, i: nat, j: nat)
    requires Tiled(areas, lo, hi) && i < j < |areas|
    ensures areas[i].End() <= areas[j].start
    decreases j
  {
    if i + 1 < j {
      Ordered(areas, lo, hi, i, j - 1);
    }
  }

  lemma AllOrdered(areas: seq<Area>, lo: int, hi: int)
    requires Tiled(areas, lo, hi)
    ensures forall i, j | 0 <= i < j < |areas| :: areas[i].End() <= areas[j].start
    ensures forall i | 0 <= i < |areas| :: lo <= areas[i].start && areas[i].End() <= hi
  {
    forall i, j | 0 <= i < j < |areas|
      ensures areas[i].End() <= areas[j].start
    {
      Ordered(areas, lo, hi, i, j);
    }
  }

  /** Replacing a segment by a row that covers the same range keeps a tiling; the last segment may be
      replaced by one that ends elsewhere. */
  lemma SpliceTiled(areas: seq<Area>, lo: int, hi: int, i: nat, j: nat, mid: seq<Area>, hi': int)
    requires Tiled(areas, lo, hi) && i < j <= |areas|
    requires Tiled(mid, areas[i].start, if j == |areas| then hi' else areas[j - 1].End())
    requires j < |areas| ==> hi' == hi
    ensures Tiled(areas[..i] + mid + areas[j..], lo, hi')
  {
    var r := areas[..i] + mid + areas[j..];
    var k := i + |mid|;
    assert forall n | 0 <= n < i :: r[n] == areas[n];
    assert forall n | i <= n < k :: r[n] == mid[n - i];
    assert forall n | k <= n < |r| :: r[n] == areas[n - k + j];
    forall a, b | 0 <= a && b == a + 1 && b < |r|
      ensures r[a].End() == r[b].start
    {
      if a < i - 1 {
        assert areas[a].End() == areas[a + 1].start;
      } else if a == i - 1 {
        assert areas[a].End() == areas[a + 1].start;
      } else if b < k {
        assert mid[a - i].End() == mid[b - i].start;
      } else if a < k {
        assert areas[j - 1].End() == areas[j].start;
      } else {
        assert areas[a - k + j].End() == areas[a - k + j + 1].start;
      }
    }
  }

  /** The start addresses of the areas of one kind, each as often as it occurs. */
  ghost function Starts(areas: seq<Area>, kind: Kind): multiset<int> {
    if areas == [] then multiset{}
    else (if areas[0].kind == kind then multiset{areas[0].start} else multiset{}) + Starts(areas[1..], kind)
  }

  lemma {:induction false} StartsConcat(a: seq<Area>, b: seq<Area>, kind: Kind)
    ensures Starts(a + b, kind) == Starts(a, kind) + Starts(b, kind)
  {
    if a == [] {
      assert a + b == b;
    } else {
      assert (a + b)[1..] == a[1..] + b;
      StartsConcat(a[1..], b, kind);
    }
  }

  lemma StartsSplice(areas: seq<Area>, i: nat, j: nat, mid: seq<Area>, kind: Kind)
    requires i <= j <= |areas|
    ensures Starts(areas[..i] + mid + areas[j..], kind)
         == Starts(areas, kind) - Starts(areas[i..j], kind) + Starts(mid, kind)
    ensures Starts(areas[i..j], kind) <= Starts(areas, kind)
  {
    assert areas == areas[..i] + areas[i..j] + areas[j..];
    StartsConcat(areas[..i] + areas[i..j], areas[j..], kind);
    StartsConcat(areas[..i], areas[i..j], kind);
    StartsConcat(areas[..i] + mid, areas[j..], kind);
    StartsConcat(areas[..i], mid, kind);
  }

  lemma {:induction false} StartsHas(areas: seq<Area>, i: nat)
    requires i < |areas|
    ensures areas[i].start in Starts(areas, areas[i].kind)
  {
    if i > 0 {
      StartsHas(areas[1..], i - 1);
    }
  }

  /** The area an index entry stands for. */
  lemma {:induction false} StartsFind(areas: seq<Area>, kind: Kind, x: int) returns (i: nat)
    requires x in Starts(areas, kind)
    ensures i < |areas| && areas[i].start == x && areas[i].kind == kind
  {
    if areas[0].kind == kind && areas[0].start == x {
      i := 0;
    } else {
      i := StartsFind(areas[1..], kind, x);
      i := i + 1;
    }
  }

  /** Distance from an area's start to the first start that puts its data on a page boundary. */
  function PageOffset(start: int): (o: int)
    ensures 0 <= o < PAGE
    ensures (start + o + HEADER) % PAGE == 0
  {
    if (start + HEADER) % PAGE == 0 then 0 else PAGE - (start + HEADER) % PAGE
  }

  /** The pointer handed out for an allocated area: its data rounded up to a multiple of four. */
  function Pointer(start: int): (p: int)
    ensures p % 4 == 0 && start + HEADER <= p <= start + HEADER + 3
  {
    (start + HEADER + 3) / 4 * 4
  }

  function Lead(start: int, pageAlign: bool): (o: int)
    ensures 0 <= o < PAGE
    ensures pageAlign ==> (start + o + HEADER) % PAGE == 0
  {
    if pageAlign then PageOffset(start) else 0
  }

  ghost predicate FitsArea(a: Area, gross: int, pageAlign: bool) {
    a.kind.Free? && a.size >= gross && a.size - Lead(a.start, pageAlign) >= gross
  }

  /** A request of gross bytes placed at the front of [start, start + size). */
  ghost function Placed(start: int, size: int, gross: int): seq<Area> {
    if size - gross >= MIN_REST then [Area(start, gross, Used), Area(start + gross, size - gross, Free)]
    else [Area(start, size, Used)]
  }

  /** The lead left by page alignment becomes a free area of its own, or is given to the left neighbour
      when it is too short for that. */
  ghost function Carved(areas: seq<Area>, i: nat, lead: int, gross: int): seq<Area>
    requires i < |areas|
    requires 0 <= lead && (i == 0 ==> lead == 0 || lead > OVERHEAD)
  {
    var a := areas[i];
    var placed := Placed(a.start + lead, a.size - lead, gross);
    if lead == 0 then areas[..i] + placed + areas[i + 1..]
    else if lead > OVERHEAD then areas[..i] + ([Area(a.start, lead, Free)] + placed) + areas[i + 1..]
    else areas[..i - 1] + ([areas[i - 1].(size := areas[i - 1].size + lead)] + placed) + areas[i + 1..]
  }

  ghost function FreeLeft(areas: seq<Area>, i: nat): nat
    requires i < |areas|
  {
    if i > 0 && areas[i - 1].kind.Free? then 1 else 0
  }

  ghost function FreeRight(areas: seq<Area>, i: nat): nat
    requires i < |areas|
  {
    if i + 1 < |areas| && areas[i + 1].kind.Free? then 1 else 0
  }

  /** Area i becomes free and unites with its free neighbours. */
  ghost function Coalesced(areas: seq<Area>, i: nat): seq<Area>
    requires i < |areas|
  {
    var l, r := i - FreeLeft(areas, i), i + 1 + FreeRight(areas, i);
    areas[..l] + [Area(areas[l].start, areas[r - 1].End() - areas[l].start, Free)] + areas[r..]
  }

  ghost function Grown(areas: seq<Area>, extra: int): seq<Area>
    requires |areas| > 0
  {
    var n := |areas| - 1;
    if extra == 0 then areas
    else if areas[n].kind.Free? then areas[n := areas[n].(size := areas[n].size + extra)]
    else areas + [Area(areas[n].End(), extra, Free)]
  }

  ghost function Trimmed(areas: seq<Area>, extra: int): seq<Area>
    requires |areas| > 0
  {
    var n := |areas| - 1;
    areas[n := areas[n].(size := areas[n].size - extra)]
  }

  // ----- the row stays settled

  lemma SpliceSettled(areas: seq<Area>, i: nat, j: nat, mid: seq<Area>)
    requires Settled(areas) && Settled(mid) && i <= j <= |areas| && |mid| > 0
    requires i > 0 ==> !areas[i - 1].kind.Free? || !mid[0].kind.Free?
    requires j < |areas| ==> !areas[j].kind.Free? || !mid[|mid| - 1].kind.Free?
    ensures Settled(areas[..i] + mid + areas[j..])
  {
    var r := areas[..i] + mid + areas[j..];
    assert forall n | i + |mid| <= n < |r| :: r[n] == areas[n - i - |mid| + j];
  }

  lemma CarvedSettled(areas: seq<Area>, i: nat, lead: int, gross: int)
    requires Settled(areas) && i < |areas| && areas[i].kind.Free?
    requires 0 <= lead && (i == 0 ==> lead == 0 || lead > OVERHEAD)
    ensures Settled(Carved(areas, i, lead, gross))
  {
    var placed := Placed(areas[i].start + lead, areas[i].size - lead, gross);
    assert i > 0 ==> !areas[i - 1].kind.Free?;
    assert i + 1 < |areas| ==> !areas[i + 1].kind.Free?;
    if lead == 0 {
      SpliceSettled(areas, i, i + 1, placed);
    } else if lead > OVERHEAD {
      SpliceSettled(areas, i, i + 1, [Area(areas[i].start, lead, Free)] + placed);
    } else {
      SpliceSettled(areas, i - 1, i + 1, [areas[i - 1].(size := areas[i - 1].size + lead)] + placed);
    }
  }

  lemma GrownSettled(areas: seq<Area>, extra: int)
    requires Settled(areas) && |areas| > 0 && extra > 0
    ensures Settled(Grown(areas, extra))
  {
  }

  lemma GrownTiled(areas: seq<Area>, lo: int, hi: int, extra: int)
    requires Tiled(areas, lo, hi) && (extra == 0 || extra > OVERHEAD)
    ensures Tiled(Grown(areas, extra), lo, hi + extra)
  {
  }

  /** Growing twice is growing once by the sum. */
  lemma GrownTwice(areas: seq<Area>, a: int, b: int)
    requires |areas| > 0 && a > 0 && b >= 0
    ensures Grown(Grown(areas, a), b) == Grown(areas, a + b)
  {
  }

  lemma CoalescedSettled(areas: seq<Area>, i: nat)
    requires Settled(areas) && i < |areas| && areas[i].kind.Used?
    ensures Settled(Coalesced(areas, i))
  {
  }

  /** Index, after carving, of the area that was handed out. */
  ghost function UsedAt(i: nat, lead: int): nat {
    if lead > OVERHEAD then i + 1 else i
  }

  /** What surrounds the area that was handed out. */
  ghost predicate CarvedAround(areas: seq<Area>, carved: seq<Area>, i: nat, lead: int, placed: seq<Area>)
    requires i < |areas| && 0 <= lead && (i == 0 ==> lead == 0 || lead > OVERHEAD)
  {
    var u := UsedAt(i, lead);
    && u + |placed| <= |carved| && carved[u..u + |placed|] == placed
    && carved[u + |placed|..] == areas[i + 1..]
    && (lead == 0 ==> carved[..u] == areas[..i])
    && (lead > OVERHEAD ==> carved[..u] == areas[..i] + [Area(areas[i].start, lead, Free)])
    && (0 < lead <= OVERHEAD ==> carved[..u] == areas[..i][i - 1 := areas[i - 1].(size := areas[i - 1].size + lead)])
  }

  lemma CarvedSurroundings(areas: seq<Area>, i: nat, lead: int, gross: int)
    requires i < |areas|
    requires 0 <= lead && (i == 0 ==> lead == 0 || lead > OVERHEAD)
    ensures CarvedAround(areas, Carved(areas, i, lead, gross), i, lead,
                         Placed(areas[i].start + lead, areas[i].size - lead, gross))
  {
  }

  /** Releasing what was just allocated gives the old row back, unless alignment lengthened the left
      neighbour, which keeps what it was given. */
  lemma ReleaseUndoesCarve(areas: seq<Area>, i: nat, lead: int, gross: int)
    requires Settled(areas) && i < |areas| && areas[i].kind.Free?
    requires 0 <= lead && (i == 0 ==> lead == 0 || lead > OVERHEAD)
    ensures UsedAt(i, lead) < |Carved(areas, i, lead, gross)|
    ensures Coalesced(Carved(areas, i, lead, gross), UsedAt(i, lead)) == areas
      <==> lead == 0 || lead > OVERHEAD
  {
    CarvedSurroundings(areas, i, lead, gross);
    ReleaseCases(areas, Carved(areas, i, lead, gross), i, lead,
                 Placed(areas[i].start + lead, areas[i].size - lead, gross));
  }

  lemma ReleaseCases(areas: seq<Area>, carved: seq<Area>, i: nat, lead: int, placed: seq<Area>)
    requires Settled(areas) && i < |areas| && areas[i].kind.Free?
    requires 0 <= lead && (i == 0 ==> lead == 0 || lead > OVERHEAD)
    requires 1 <= |placed| <= 2 && (|placed| == 2 ==> placed[1].kind.Free?)
    requires placed[0].start == areas[i].start + lead && placed[|placed| - 1].End() == areas[i].End()
    requires CarvedAround(areas, carved, i, lead, placed)
    ensures UsedAt(i, lead) < |carved|
    ensures Coalesced(carved, UsedAt(i, lead)) == areas <==> lead == 0 || lead > OVERHEAD
  {
    var u := UsedAt(i, lead);
    ReleaseRight(areas, carved, i, u, placed);
    if 0 < lead <= OVERHEAD {
      assert carved[i - 1] == carved[..u][i - 1];
      ReleaseKeepsLonger(areas, carved, i);
    } else {
      ReleaseRejoins(areas, carved, i, lead, u);
    }
  }

  lemma ReleaseRejoins(areas: seq<Area>, carved: seq<Area>, i: nat, lead: int, u: nat)
    requires Settled(areas) && i < |areas| && areas[i].kind.Free?
    requires u < |carved| && u == if lead == 0 then i else i + 1
    requires lead == 0 || (lead > 0 && carved[..u] == areas[..i] + [Area(areas[i].start, lead, Free)])
    requires lead == 0 ==> carved[..u] == areas[..i]
    requires carved[u].start == areas[i].start + lead
    requires carved[u + FreeRight(carved, u)].End() == areas[i].End()
    requires carved[u + 1 + FreeRight(carved, u)..] == areas[i + 1..]
    ensures Coalesced(carved, u) == areas
  {
    var a := areas[i];
    assert areas == areas[..i] + [a] + areas[i + 1..];
    if lead == 0 {
      assert u > 0 ==> carved[u - 1] == carved[..u][u - 1] == areas[i - 1];
    } else {
      assert carved[u - 1] == carved[..u][u - 1] == Area(a.start, lead, Free);
      assert carved[..u - 1] == carved[..u][..u - 1] == areas[..i];
    }
  }

  lemma ReleaseKeepsLonger(areas: seq<Area>, carved: seq<Area>, i: nat)
    requires Settled(areas) && 0 < i < |areas| && areas[i].kind.Free? && i < |carved|
    requires carved[i - 1].kind == areas[i - 1].kind && carved[i - 1].size > areas[i - 1].size
    ensures Coalesced(carved, i) != areas
  {
    assert !areas[i - 1].kind.Free?;
    assert Coalesced(carved, i)[i - 1] == carved[i - 1];
  }

  /** The remainder split off, if any, is what the release unites with on the right. */
  lemma ReleaseRight(areas: seq<Area>, carved: seq<Area>, i: nat, u: nat, placed: seq<Area>)
    requires Settled(areas) && i < |areas| && areas[i].kind.Free?
    requires 1 <= |placed| <= 2 && (|placed| == 2 ==> placed[1].kind.Free?)
    requires u + |placed| <= |carved| && carved[u..u + |placed|] == placed
    requires carved[u + |placed|..] == areas[i + 1..]
    ensures FreeRight(carved, u) == |placed| - 1
    ensures carved[u + 1 + FreeRight(carved, u)..] == areas[i + 1..]
    ensures carved[u] == placed[0] && carved[u + FreeRight(carved, u)] == placed[|placed| - 1]
  {
    assert placed[0] == carved[u];
    if |placed| == 2 {
      assert placed[1] == carved[u + 1];
    } else if u + 1 < |carved| {
      assert carved[u + 1] == carved[u + |placed|..][0] == areas[i + 1];
    }
  }

  /** No two adjacent areas are free, so at most one more area is free than used. */
  lemma {:induction false} FreeAreasFew(areas: seq<Area>)
    requires Settled(areas)
    ensures |Starts(areas, Free)| <= |Starts(areas, Used)| + 1
    ensures areas != [] && areas[0].kind.Used? ==> |Starts(areas, Free)| <= |Starts(areas, Used)|
  {
    if areas != [] {
      FreeAreasFew(areas[1..]);
    }
  }
}
