/** The memory an area's header and footer live in.

    Memory is a map from address to 32-bit word. A store removes every word it overlaps: what those
    addresses then read is unknown, and is never taken for a magic number. */
module HeapMemory {
  import opened Tiling

  type Memory = map<int, int>

  const MAGIC := 0xabcd_ef12
  const KHEAP_START := 0xc000_0000
  const INDEX_SIZE := 0x1_0000
  /** First address of the storage proper, past the two index arrays. */
  const HEAP_BASE := KHEAP_START + 2 * 4 * INDEX_SIZE
  const KHEAP_MAX := 0xcfff_f000
  const KHEAP_INITIAL_SIZE := 0x9_0000
  const KHEAP_MIN_GROWTH := 0x8000
  const KHEAP_MAX_WASTE := 0x12_0000
  const WORD := 0x1_0000_0000
  /** No heap end lies above this: the page behind it would wrap around. */
  const TOP := WORD - 2 * PAGE

  function Load(m: Memory, a: int): int {
    if a in m then m[a] else -1
  }

  predicate IsMagic(m: Memory, a: int) {
    a in m && m[a] == MAGIC
  }

  /** The effect of writing one word. */
  ghost predicate Stored(m: Memory, m': Memory, a: int, v: int) {
    && a in m' && m'[a] == v
    && (forall k | k != a :: k in m' <==> k in m && (k + 4 <= a || a + 4 <= k))
    && (forall k | k in m' && k != a :: m'[k] == m[k])
  }

  function TypeOf(kind: Kind): int {
    if kind.Used? then 0 else 1
  }

  /** The area's header and footer are in memory. */
  ghost predicate Framed(m: Memory, a: Area) {
    && Load(m, a.start) == a.size
    && Load(m, a.start + 4) == TypeOf(a.kind)
    && IsMagic(m, a.start + 8)
    && IsMagic(m, a.End() - 8)
    && Load(m, a.End() - 4) == a.start
    && a.start in m && a.start + 4 in m && a.End() - 4 in m
    && a.start + 9 !in m && a.start + 10 !in m && a.start + 11 !in m
  }

  /** A word at k shares no byte with the area's header or footer. */
  ghost predicate Clear(a: Area, k: int) {
    && (k + 4 <= a.start || a.start + HEADER <= k)
    && (k + 4 <= a.End() - FOOTER || a.End() <= k)
  }

  predicate OwnWord(a: Area, k: int) {
    k == a.start || k == a.start + 4 || k == a.start + 8 || k == a.End() - 8 || k == a.End() - 4
  }

  /** The effect of writing an area's header and footer. */
  ghost predicate AreaWritten(m: Memory, m': Memory, a: Area) {
    && Framed(m', a)
    && (forall k | Clear(a, k) :: (k in m' <==> k in m) && (k in m ==> m'[k] == m[k]))
    && (forall k | k in m' && !Clear(a, k) :: OwnWord(a, k))
  }

  // ----- the words of a whole row

  ghost predicate Depicts(m: Memory, areas: seq<Area>) {
    forall i | 0 <= i < |areas| && !areas[i].kind.Pending? :: Framed(m, areas[i])
  }

  /** k is where some area keeps one of its two magic numbers. */
  ghost predicate MagicSlot(areas: seq<Area>, k: int) {
    exists i :: 0 <= i < |areas| && (k == areas[i].start + 8 || k == areas[i].End() - 8)
  }

  /** What the owners of live allocations have stored, and the places, among those where a header on a page boundary
      has its magic number, where an owner ever stored that number. */
  datatype Stores = Stores(words: Memory, strays: set<int>)

  /** A magic number that a header on a page boundary would show belongs to a live area, unless an owner put it there. Elsewhere
      it may be stale: alignment can leave an old header behind inside the left neighbour, but never there. */
  ghost predicate NoStrayMagic(m: Memory, areas: seq<Area>, strays: set<int>) {
    forall k | k in m && m[k] == MAGIC && k % PAGE == 8 :: MagicSlot(areas, k) || k in strays
  }

  /** m and m' agree outside [lo, hi). */
  ghost predicate AgreeOutside(m: Memory, m': Memory, lo: int, hi: int) {
    AgreeBelow(m, m', lo) && AgreeAbove(m, m', hi)
  }

  ghost predicate AgreeBelow(m: Memory, m': Memory, lo: int) {
    forall k | k + 4 <= lo :: (k in m <==> k in m') && (k in m ==> m[k] == m'[k])
  }

  ghost predicate AgreeAbove(m: Memory, m': Memory, hi: int) {
    forall k | hi <= k :: (k in m <==> k in m') && (k in m ==> m[k] == m'[k])
  }

  /** Replacing a segment of the row together with the memory it occupies. */
  lemma SpliceDepicts(m: Memory, m': Memory, areas: seq<Area>, lo: int, hi: int, i: nat, j: nat, mid: seq<Area>, hi': int)
    requires Tiled(areas, lo, hi) && Depicts(m, areas) && i < j <= |areas|
    requires AgreeBelow(m, m', areas[i].start)
    requires j < |areas| ==> hi' <= areas[j].start && AgreeAbove(m, m', hi')
    requires Depicts(m', mid)
    ensures Depicts(m', areas[..i] + mid + areas[j..])
  {
    var r := areas[..i] + mid + areas[j..];
    AllOrdered(areas, lo, hi);
    forall n | 0 <= n < |r| && !r[n].kind.Pending?
      ensures Framed(m', r[n])
    {
      if n < i {
        assert r[n] == areas[n] && Framed(m, areas[n]) && areas[n].End() <= areas[i].start;
      } else if n < i + |mid| {
        assert r[n] == mid[n - i];
      } else {
        var o := n - i - |mid| + j;
        assert r[n] == areas[o] && Framed(m, areas[o]) && areas[j].start <= areas[o].start;
      }
    }
  }

  /** Magic numbers stay accounted for: outside the segment nothing new appears, and inside it those that
      matter are where the new areas keep theirs. */
  lemma SpliceNoStrayMagic(m: Memory, m': Memory, areas: seq<Area>, lo: int, hi: int, i: nat, j: nat, mid: seq<Area>,
                           strays: set<int>)
    requires Tiled(areas, lo, hi) && NoStrayMagic(m, areas, strays) && i < j <= |areas|
    requires forall k | k in m' && m'[k] == MAGIC && k % PAGE == 8 && !MagicSlot(mid, k)
               :: k in m && m[k] == MAGIC && !MagicSlot(areas[i..j], k)
    ensures NoStrayMagic(m', areas[..i] + mid + areas[j..], strays)
  {
    var r := areas[..i] + mid + areas[j..];
    forall k | k in m' && m'[k] == MAGIC && k % PAGE == 8 && k !in strays
      ensures MagicSlot(r, k)
    {
      if MagicSlot(mid, k) {
        var n :| 0 <= n < |mid| && (k == mid[n].start + 8 || k == mid[n].End() - 8);
        assert r[i + n] == mid[n];
      } else {
        var n :| 0 <= n < |areas| && (k == areas[n].start + 8 || k == areas[n].End() - 8);
        assert forall o | i <= o < j :: areas[i..j][o - i] == areas[o];
        assert !(i <= n < j);
        assert areas[n] == r[if n < i then n else n - j + i + |mid|];
      }
    }
  }

  // ----- the same memory, byte by byte

  /** Every address has a byte. */
  type ByteMemory = int -> int

  /** The little-endian word at an address. */
  function WordAt(b: ByteMemory, a: int): int {
    b(a) + 0x100 * b(a + 1) + 0x1_0000 * b(a + 2) + 0x100_0000 * b(a + 3)
  }

  predicate MagicAt(b: ByteMemory, a: int) {
    WordAt(b, a) == MAGIC
  }

  /** The words of m can be read in the bytes. */
  ghost predicate Holds(b: ByteMemory, m: Memory) {
    (forall x :: 0 <= b(x) < 256) && forall k | k in m :: WordAt(b, k) == m[k]
  }

  /** Byte n of a word. */
  function ByteIn(v: int, n: int): (r: int)
    requires 0 <= v < WORD && 0 <= n < 4
    ensures 0 <= r < 256
  {
    if n == 0 then v % 0x100 else if n == 1 then v / 0x100 % 0x100 else if n == 2 then v / 0x1_0000 % 0x100 else v / 0x100_0000
  }

  function Put(b: ByteMemory, a: int, v: int): ByteMemory
    requires 0 <= v < WORD
  {
    x => if a <= x < a + 4 then ByteIn(v, x - a) else b(x)
  }

  lemma BytesIn(v: int)
    requires 0 <= v < WORD
    ensures ByteIn(v, 0) + 0x100 * ByteIn(v, 1) + 0x1_0000 * ByteIn(v, 2) + 0x100_0000 * ByteIn(v, 3) == v
  {
  }

  /** A store that removes the words it overlaps says nothing wrong about the bytes. */
  lemma StoreHolds(b: ByteMemory, m: Memory, m': Memory, a: int, v: int)
    requires Holds(b, m) && Stored(m, m', a, v) && 0 <= v < WORD
    ensures Holds(Put(b, a, v), m')
  {
    hide ByteIn;
    var b' := Put(b, a, v);
    BytesIn(v);
    forall k | k in m'
      ensures WordAt(b', k) == m'[k]
    {
      if k != a {
        assert WordAt(b, k) == m[k];
      }
    }
  }

  /** The little-endian bytes of the magic number, read one to three bytes further on or earlier, never spell it again,
      whatever is around them. */
  lemma ShiftedMagicDiffers(b: ByteMemory, at: int, shift: int)
    requires MagicAt(b, at) && at - 3 <= shift <= at + 3 && forall x :: 0 <= b(x) < 256
    ensures MagicAt(b, shift) <==> shift == at
  {
    Digits(b, at);
    if MagicAt(b, shift) {
      Digits(b, shift);
    }
  }

  lemma Digits(b: ByteMemory, at: int)
    requires MagicAt(b, at) && forall x :: 0 <= b(x) < 256
    ensures b(at) == 0x12 && b(at + 1) == 0xef && b(at + 2) == 0xcd && b(at + 3) == 0xab
  {
    assert b(at) == MAGIC % 0x100;
    assert b(at + 1) + 0x100 * b(at + 2) + 0x1_0000 * b(at + 3) == MAGIC / 0x100;
    assert b(at + 1) == (MAGIC / 0x100) % 0x100;
    assert b(at + 2) + 0x100 * b(at + 3) == MAGIC / 0x1_0000;
    assert b(at + 2) == (MAGIC / 0x1_0000) % 0x100;
  }

  /** So the search backwards from up to three bytes behind an area's header, made on bytes, stops where it does on words. */
  lemma SearchInBytes(m: Memory, start: int, last: int)
    requires IsMagic(m, start + 8) && start <= last <= start + 3
    ensures forall b, k | Holds(b, m) && start + 8 <= k <= last + 8 :: MagicAt(b, k) <==> k == start + 8
  {
    hide MagicAt;
    forall b, k | Holds(b, m) && start + 8 <= k <= last + 8
      ensures MagicAt(b, k) <==> k == start + 8
    {
      assert MagicAt(b, start + 8) by {
        HeldMagic(b, m, start + 8);
      }
      ShiftedMagicDiffers(b, start + 8, k);
    }
  }

  lemma HeldMagic(b: ByteMemory, m: Memory, k: int)
    requires Holds(b, m) && IsMagic(m, k)
    ensures MagicAt(b, k)
  {
  }
}
