/** The physical frame allocator (src/kernel/pmm.c): a bitmap of 32-bit words, a set bit for a used frame,
    and the address handed out last as a hint where to search. A failing assertion or a panic is a None. */
module FrameAllocators {
  import opened Options

  const PAGE := 0x1000
  /** What the search returns when it finds nothing, and the hint when there is none. */
  const NONE := 0xffff_ffff
  const FULL: bv32 := 0xffff_ffff

  function U32(x: int): (r: int)
    ensures 0 <= r < 0x1_0000_0000
  {
    x % 0x1_0000_0000
  }

  // ----- one word of the bitmap

  /** 1 << k in 32 bits. */
  function Mask(k: int): bv32
    requires 0 <= k < 32
  {
    match k
    case 0 => 0x1 case 1 => 0x2 case 2 => 0x4 case 3 => 0x8
    case 4 => 0x10 case 5 => 0x20 case 6 => 0x40 case 7 => 0x80
    case 8 => 0x100 case 9 => 0x200 case 10 => 0x400 case 11 => 0x800
    case 12 => 0x1000 case 13 => 0x2000 case 14 => 0x4000 case 15 => 0x8000
    case 16 => 0x1_0000 case 17 => 0x2_0000 case 18 => 0x4_0000 case 19 => 0x8_0000
    case 20 => 0x10_0000 case 21 => 0x20_0000 case 22 => 0x40_0000 case 23 => 0x80_0000
    case 24 => 0x100_0000 case 25 => 0x200_0000 case 26 => 0x400_0000 case 27 => 0x800_0000
    case 28 => 0x1000_0000 case 29 => 0x2000_0000 case 30 => 0x4000_0000 case _ => 0x8000_0000
  }

  predicate Meets(w: bv32, m: bv32) {
    w & m != 0
  }

  predicate Bit(w: bv32, k: int)
    requires 0 <= k < 32
  {
    Meets(w, Mask(k))
  }

  lemma Masks(k: int, j: int)
    requires 0 <= k < 32 && 0 <= j < 32
    ensures Mask(k) != 0
    ensures j != k ==> !Meets(Mask(k), Mask(j))
  {
  }

  lemma OrBits(w: bv32, a: bv32, b: bv32)
    ensures a != 0 ==> (w | a) & a != 0
    ensures a & b == 0 ==> (w | a) & b == w & b
  {
  }

  lemma AndBits(w: bv32, a: bv32, b: bv32)
    ensures (w & !a) & a == 0
    ensures a & b == 0 ==> (w & !a) & b == w & b
  {
  }

  lemma OrMeets(w: bv32, a: bv32, b: bv32)
    ensures a != 0 ==> Meets(w | a, a)
    ensures !Meets(a, b) ==> (Meets(w | a, b) <==> Meets(w, b))
  {
    if a & b == 0 {
      OrBits(w, a, b);
      assert Meets(w | a, b) <==> (w | a) & b != 0;
    }
    OrBits(w, a, a);
  }

  lemma AndMeets(w: bv32, a: bv32, b: bv32)
    ensures !Meets(w & !a, a)
    ensures !Meets(a, b) ==> (Meets(w & !a, b) <==> Meets(w, b))
  {
    if a & b == 0 {
      AndBits(w, a, b);
      assert Meets(w & !a, b) <==> (w & !a) & b != 0;
    }
    AndBits(w, a, a);
  }

  lemma SetBit(w: bv32, k: int, j: int)
    requires 0 <= k < 32 && 0 <= j < 32
    ensures Bit(w | Mask(k), j) <==> j == k || Bit(w, j)
  {
    hide Mask, Meets;
    Masks(k, j);
    OrMeets(w, Mask(k), Mask(j));
  }

  lemma ClearBit(w: bv32, k: int, j: int)
    requires 0 <= k < 32 && 0 <= j < 32
    ensures Bit(w & !Mask(k), j) <==> j != k && Bit(w, j)
  {
    hide Mask, Meets;
    Masks(k, j);
    AndMeets(w, Mask(k), Mask(j));
  }

  lemma PlainWord(w: bv32, k: int)
    requires 0 <= k < 32
    ensures w == FULL ==> Bit(w, k)
    ensures w == 0 ==> !Bit(w, k)
    ensures FULL | Mask(k) == FULL
  {
    hide Mask;
    Masks(k, k);
  }

  lemma AllMasks(w: bv32)
    requires Meets(w, 0x1) && Meets(w, 0x2) && Meets(w, 0x4) && Meets(w, 0x8)
    requires Meets(w, 0x10) && Meets(w, 0x20) && Meets(w, 0x40) && Meets(w, 0x80)
    requires Meets(w, 0x100) && Meets(w, 0x200) && Meets(w, 0x400) && Meets(w, 0x800)
    requires Meets(w, 0x1000) && Meets(w, 0x2000) && Meets(w, 0x4000) && Meets(w, 0x8000)
    requires Meets(w, 0x1_0000) && Meets(w, 0x2_0000) && Meets(w, 0x4_0000) && Meets(w, 0x8_0000)
    requires Meets(w, 0x10_0000) && Meets(w, 0x20_0000) && Meets(w, 0x40_0000) && Meets(w, 0x80_0000)
    requires Meets(w, 0x100_0000) && Meets(w, 0x200_0000) && Meets(w, 0x400_0000) && Meets(w, 0x800_0000)
    requires Meets(w, 0x1000_0000) && Meets(w, 0x2000_0000) && Meets(w, 0x4000_0000) && Meets(w, 0x8000_0000)
    ensures w == FULL
  {
  }

  lemma AllBits(w: bv32)
    requires forall k | 0 <= k < 32 :: Bit(w, k)
    ensures w == FULL
  {
    hide Meets;
    assert Bit(w, 0) && Bit(w, 1) && Bit(w, 2) && Bit(w, 3) && Bit(w, 4) && Bit(w, 5) && Bit(w, 6) && Bit(w, 7);
    assert Bit(w, 8) && Bit(w, 9) && Bit(w, 10) && Bit(w, 11) && Bit(w, 12) && Bit(w, 13) && Bit(w, 14) && Bit(w, 15);
    assert Bit(w, 16) && Bit(w, 17) && Bit(w, 18) && Bit(w, 19) && Bit(w, 20) && Bit(w, 21) && Bit(w, 22) && Bit(w, 23);
    assert Bit(w, 24) && Bit(w, 25) && Bit(w, 26) && Bit(w, 27) && Bit(w, 28) && Bit(w, 29) && Bit(w, 30) && Bit(w, 31);
    AllMasks(w);
  }

  // ----- the whole bitmap

  predicate BitAt(words: seq<bv32>, frame: nat)
    requires frame < 32 * |words|
  {
    Bit(words[frame / 32], frame % 32)
  }

  ghost function UsedIn(words: seq<bv32>): (u: set<nat>) {
    set f: nat | f < 32 * |words| && BitAt(words, f)
  }

  ghost function FreeIn(words: seq<bv32>, n: nat): set<nat> {
    set f: nat | f < n && f !in UsedIn(words)
  }

  /** How many of the first n frames are free. */
  function FreeBelow(words: seq<bv32>, n: nat): (c: nat)
    requires n <= 32 * |words|
    ensures c <= n
  {
    if n == 0 then 0 else FreeBelow(words, n - 1) + if BitAt(words, n - 1) then 0 else 1
  }

  lemma NoneBelow(words: seq<bv32>)
    ensures FreeBelow(words, 0) == 0
  {
  }

  lemma FreeBelowNext(words: seq<bv32>, i: nat, k: nat)
    requires i < |words| && k < 32
    ensures FreeBelow(words, 32 * i + k + 1) == FreeBelow(words, 32 * i + k) + if Bit(words[i], k) then 0 else 1
  {
    hide Bit;
    assert (32 * i + k) / 32 == i && (32 * i + k) % 32 == k;
  }

  /** The count is the size of the set it counts. */
  lemma {:induction false} FreeBelowIsSize(words: seq<bv32>, n: nat)
    requires n <= 32 * |words|
    ensures FreeBelow(words, n) == |FreeIn(words, n)|
  {
    hide Bit;
    if n == 0 {
      assert FreeIn(words, n) == {};
    } else {
      FreeBelowIsSize(words, n - 1);
      assert FreeIn(words, n) == if BitAt(words, n - 1) then FreeIn(words, n - 1) else FreeIn(words, n - 1) + {n - 1};
    }
  }

  /** A word without set bits adds 32 free frames, a full one none. */
  lemma {:induction false} PlainWordCounts(words: seq<bv32>, i: nat, k: nat)
    requires i < |words| && k <= 32
    ensures words[i] == 0 ==> FreeBelow(words, 32 * i + k) == FreeBelow(words, 32 * i) + k
    ensures words[i] == FULL ==> FreeBelow(words, 32 * i + k) == FreeBelow(words, 32 * i)
  {
    hide Bit;
    if k > 0 {
      PlainWordCounts(words, i, k - 1);
      assert (32 * i + k - 1) / 32 == i && (32 * i + k - 1) % 32 == k - 1;
      PlainWord(words[i], k - 1);
    }
  }

  /** Every word below the hint's is full. */
  ghost predicate HintHolds(words: seq<bv32>, hint: int) {
    && 0 <= hint <= NONE
    && (hint != NONE ==> forall i | 0 <= i < hint / PAGE / 32 && i < |words| :: words[i] == FULL)
  }

  lemma BitmapSet(was: seq<bv32>, words: seq<bv32>, frame: nat, hint: int)
    requires frame < 32 * |was| && HintHolds(was, hint)
    requires words == was[frame / 32 := was[frame / 32] | Mask(frame % 32)]
    ensures UsedIn(words) == UsedIn(was) + {frame}
    ensures HintHolds(words, hint)
  {
    hide Bit, Mask;
    forall f: nat | f < 32 * |was|
      ensures BitAt(words, f) <==> f == frame || BitAt(was, f)
    {
      SetBit(was[frame / 32], frame % 32, f % 32);
    }
    PlainWord(FULL, frame % 32);
  }

  lemma BitmapCleared(was: seq<bv32>, words: seq<bv32>, frame: nat)
    requires frame < 32 * |was|
    requires words == was[frame / 32 := was[frame / 32] & !Mask(frame % 32)]
    ensures UsedIn(words) == UsedIn(was) - {frame}
  {
    hide Bit, Mask;
    forall f: nat | f < 32 * |was|
      ensures BitAt(words, f) <==> f != frame && BitAt(was, f)
    {
      ClearBit(was[frame / 32], frame % 32, f % 32);
    }
  }

  lemma FullBelow(words: seq<bv32>, frame: nat, i: nat)
    requires frame < 32 * |words| && forall f: nat | f < frame :: f in UsedIn(words)
    requires i < frame / 32
    ensures words[i] == FULL
  {
    hide Bit;
    forall k | 0 <= k < 32
      ensures Bit(words[i], k)
    {
      assert (32 * i + k) / 32 == i && (32 * i + k) % 32 == k;
      assert 32 * i + k in UsedIn(words);
    }
    AllBits(words[i]);
  }

  lemma FullHolds(words: seq<bv32>, i: nat, f: nat)
    requires i < |words| && words[i] == FULL && f / 32 == i
    ensures f in UsedIn(words)
  {
    hide Bit;
    PlainWord(words[i], f % 32);
  }

  class FrameAllocator {
    /** Number of frames up to the end of memory. */
    const nframes: nat
    /** One word more than there are whole words of frames. */
    const words: array<bv32>
    var lastAllocated: int

    ghost predicate Valid()
      reads this, words
    {
      && nframes < 0x10_0000 && words.Length == nframes / 32 + 1
      && HintHolds(words[..], lastAllocated)
    }

    /** The frames whose bit is set, among all the bitmap has bits for. */
    ghost function Used(): (u: set<nat>)
      reads words
      ensures forall f | f in u :: f < 32 * words.Length
    {
      UsedIn(words[..])
    }

    /** Single frames are allocated among those in whole words. */
    function Searched(): nat {
      nframes / 32 * 32
    }

    ghost function FreeCount(): nat
      reads words
    {
      |FreeIn(words[..], Searched())|
    }

    /** All frames start out used; pmm_init then frees the available ones one by one. */
    constructor (nframes: nat)
      requires nframes < 0x10_0000
      ensures Valid() && fresh(words) && this.nframes == nframes
      ensures forall f: nat | f < 32 * (nframes / 32 + 1) :: f in Used()
    {
      this.nframes := nframes;
      words := new bv32[nframes / 32 + 1](_ => FULL);
      lastAllocated := NONE;
      new;
      hide Bit;
      forall f: nat | f < 32 * words.Length
        ensures f in Used()
      {
        FullHolds(words[..], f / 32, f);
      }
    }

    predicate InBitmap(address: nat) {
      address / PAGE / 32 <= nframes / 32
    }

    method TestFrame(address: nat) returns (used: bool)
      requires Valid() && InBitmap(address)
      ensures used <==> address / PAGE in Used()
    {
      hide Meets, Mask;
      var frame := address / PAGE;
      used := Bit(words[frame / 32], frame % 32);
      assert used <==> BitAt(words[..], frame);
    }

    /** Marks a free frame; panics on a used one and on one beyond the bitmap. */
    method SetFrame(address: nat) returns (ok: bool)
      requires Valid()
      modifies words
      ensures Valid()
      ensures ok <==> InBitmap(address) && address / PAGE !in old(Used())
      ensures Used() == if ok then old(Used()) + {address / PAGE} else old(Used())
    {
      hide Bit, Mask;
      var frame := address / PAGE;
      if !InBitmap(address) {
        return false;
      }
      var used := TestFrame(address);
      if used {
        return false;
      }
      ghost var was := words[..];
      words[frame / 32] := words[frame / 32] | Mask(frame % 32);
      BitmapSet(was, words[..], frame, lastAllocated);
      ok := true;
    }

    /** pmm_free: panics when the frame is not in use; drops the hint. */
    method Free(address: nat) returns (ok: bool)
      requires Valid()
      modifies words, this`lastAllocated
      ensures Valid()
      ensures ok <==> InBitmap(address) && address / PAGE in old(Used())
      ensures Used() == if ok then old(Used()) - {address / PAGE} else old(Used())
      ensures ok && address / PAGE < Searched() ==> FreeCount() == old(FreeCount()) + 1
    {
      hide Bit, Mask;
      var frame := address / PAGE;
      if !InBitmap(address) {
        return false;
      }
      var used := TestFrame(address);
      if !used {
        return false;
      }
      ghost var was := words[..];
      words[frame / 32] := words[frame / 32] & !Mask(frame % 32);
      BitmapCleared(was, words[..], frame);
      assert FreeIn(words[..], Searched()) == if frame < Searched() then FreeIn(was, Searched()) + {frame} else FreeIn(was, Searched());
      lastAllocated := NONE;
      ok := true;
    }

    /** The search goes word by word from one word before the start's, and bit by bit in a word that is not full. */
    method FirstFreeFrame(start: nat) returns (address: nat)
      requires Valid()
      ensures address == NONE ==> forall f: nat | WordBefore(start) * 32 <= f < Searched() :: f in Used()
      ensures address != NONE ==> address % PAGE == 0 && WordBefore(start) * 32 <= address / PAGE < Searched()
      ensures address != NONE ==> address / PAGE !in Used()
      ensures address != NONE ==> forall f: nat | WordBefore(start) * 32 <= f < address / PAGE :: f in Used()
    {
      hide Bit;
      var index := WordBefore(start);
      while index < nframes / 32
        invariant forall f: nat | WordBefore(start) * 32 <= f < index * 32 && f < Searched() :: f in Used()
      {
        if words[index] != FULL {
          var offset := 0;
          while offset < 32
            invariant offset <= 32
            invariant forall f: nat | WordBefore(start) * 32 <= f < index * 32 + offset :: f in Used()
          {
            var frame := index * 32 + offset;
            assert frame / 32 == index && frame % 32 == offset;
            var used := TestFrame(frame * PAGE);
            if !used {
              return frame * PAGE;
            }
            offset := offset + 1;
          }
        } else {
          forall f: nat | index * 32 <= f < index * 32 + 32
            ensures f in Used()
          {
            FullHolds(words[..], index, f);
          }
        }
        index := index + 1;
      }
      address := NONE;
    }

    /** pmm_alloc: the lowest free frame of all whole words, whatever the hint; None exactly when none is free. */
    method Alloc() returns (r: Option<nat>)
      requires Valid()
      modifies words, this`lastAllocated
      ensures Valid()
      ensures r.None? ==> Used() == old(Used()) && forall f: nat | f < Searched() :: f in Used()
      ensures r.Some? ==> r.value % PAGE == 0 && r.value / PAGE < Searched()
      ensures r.Some? ==> r.value / PAGE !in old(Used()) && Used() == old(Used()) + {r.value / PAGE}
      ensures r.Some? ==> forall f: nat | f < r.value / PAGE :: f in old(Used())
      ensures r.Some? <==> old(FreeCount()) > 0
      ensures r.Some? ==> FreeCount() == old(FreeCount()) - 1
    {
      hide Bit, Mask;
      if lastAllocated == NONE {
        lastAllocated := 0;
      }
      var address := FirstFreeFrame(lastAllocated);
      forall f: nat | f < WordBefore(lastAllocated) * 32 && f < Searched()
        ensures f in Used()
      {
        FullHolds(words[..], f / 32, f);
      }
      ghost var free := FreeIn(words[..], Searched());
      if address == NONE {
        assert forall f | f in free :: f in Used();
        return None;
      }
      assert address / PAGE in free;
      forall i: nat | i < address / PAGE / 32
        ensures words[..][i] == FULL
      {
        FullBelow(words[..], address / PAGE, i);
      }
      lastAllocated := address;
      var ok := SetFrame(address);
      assert FreeIn(words[..], Searched()) == free - {address / PAGE};
      r := Some(address);
    }

    /** Index of the first used page after the first of a run: count when there is none, None when a page tested is
        beyond the bitmap. NONE as a start acts as the address one below 0. */
    method FirstUsed(start: nat, count: nat, ghost place: int) returns (r: Option<nat>)
      requires Valid() && nframes < 0x10_0000 - 32 && count >= 2
      requires start == U32(place) && -1 <= place <= RunTop(nframes) + PAGE
      ensures r.Some? ==> 1 <= r.value <= count
      ensures r.Some? ==> forall k | 1 <= k < r.value :: U32(start + k * PAGE) / PAGE !in Used()
      ensures r.Some? && r.value < count ==> place + r.value * PAGE < RunTop(nframes)
    {
      hide Bit, Mask, U32, UsedIn, HintHolds, InBitmap, RunTop;
      var i := 1;
      while i < count
        invariant 1 <= i <= count
        invariant place + (i - 1) * PAGE <= RunTop(nframes) + PAGE
        invariant forall k | 1 <= k < i :: U32(start + k * PAGE) / PAGE !in Used()
      {
        if !InBitmap(U32(start + i * PAGE)) {
          return None;
        }
        PlaceTested(place, start, i);
        var used := TestFrame(U32(start + i * PAGE));
        if used {
          return Some(i);
        }
        i := i + 1;
      }
      r := Some(count);
    }

    lemma PlaceTested(place: int, start: nat, i: nat)
      requires start == U32(place) && -1 <= place && i >= 1 && nframes < 0x10_0000 - 32
      requires place + (i - 1) * PAGE <= RunTop(nframes) + PAGE
      requires InBitmap(U32(start + i * PAGE))
      ensures place + i * PAGE < RunTop(nframes)
    {
    }

    /** The search of pmm_alloc_continuous. When a candidate fails it restarts just past the used frame without
        testing that place itself: all but the first frame of what it returns are known to be free. */
    method FindRun(count: nat, memoryEnd: nat) returns (r: Option<nat>)
      requires Valid() && nframes < 0x10_0000 - 32 && count >= 2
      ensures r.Some? ==> U32(r.value + (count - 1) * PAGE) <= memoryEnd
      ensures r.Some? ==> forall k | 1 <= k < count :: U32(r.value + k * PAGE) / PAGE !in Used()
    {
      hide Bit, Mask, UsedIn, HintHolds;
      var start := FirstFreeFrame(0);
      ghost var place: int := if start == NONE then -1 else start;
      while true
        invariant start == U32(place) && -1 <= place <= RunTop(nframes) + PAGE
        decreases RunTop(nframes) + PAGE - place
      {
        hide U32, RunTop;
        if U32(start + (count - 1) * PAGE) > memoryEnd {
          return None;
        }
        var used := FirstUsed(start, count, place);
        if used.None? {
          return None;
        }
        if used.value == count {
          return Some(start);
        }
        SameStep(place, start, used.value + 1);
        start := U32(start + (used.value + 1) * PAGE);
        place := place + (used.value + 1) * PAGE;
      }
    }

    /** Marks a run of pages, and stops at one that is not free. */
    method MarkRun(start: nat, count: nat) returns (ok: bool)
      requires Valid()
      modifies words
      ensures Valid() && old(Used()) <= Used()
      ensures ok ==> Run(start, count) !! old(Used()) && Used() == old(Used()) + Run(start, count)
      ensures ok ==> |Run(start, count)| == count
    {
      hide Bit, Mask, U32, UsedIn, HintHolds, Run;
      RunGrows(start, 0);
      var i := 0;
      while i < count
        invariant 0 <= i <= count && Valid()
        invariant Run(start, i) !! old(Used()) && Used() == old(Used()) + Run(start, i)
        invariant |Run(start, i)| == i
      {
        ok := SetFrame(U32(start + i * PAGE));
        if !ok {
          return;
        }
        RunGrows(start, i);
        ghost var next := U32(start + i * PAGE) / PAGE;
        OneMore(old(Used()), Run(start, i), next);
        i := i + 1;
      }
      ok := true;
    }

    /** pmm_alloc_continuous: marking the run stops at a used frame, so whatever is returned was free throughout. */
    method AllocContinuous(count: nat, memoryEnd: nat) returns (r: Option<nat>)
      requires Valid() && nframes < 0x10_0000 - 32
      modifies words, this`lastAllocated
      ensures Valid()
      ensures old(Used()) <= Used()
      ensures r.Some? && count >= 1 ==> Run(r.value, count) !! old(Used()) && Used() == old(Used()) + Run(r.value, count)
      ensures r.Some? && count >= 1 ==> |Run(r.value, count)| == count
    {
      hide Bit, Mask, UsedIn, HintHolds;
      if count < 2 {
        r := Alloc();
        if r.Some? && count == 1 {
          RunGrows(r.value, 0);
          assert U32(r.value) == r.value;
        }
        return;
      }
      var found := FindRun(count, memoryEnd);
      if found.None? {
        return None;
      }
      var ok := MarkRun(found.value, count);
      r := if ok then found else None;
    }

    /** pmm_bytes_free: PAGE for every free frame of the searched ones, with shortcuts for plain words. */
    method BytesFree() returns (unused: nat)
      requires Valid()
      ensures unused == PAGE * FreeBelow(words[..], Searched())
      ensures unused == PAGE * FreeCount()
    {
      hide Bit, UsedIn, HintHolds, FreeBelow;
      NoneBelow(words[..]);
      unused := 0;
      var index := 0;
      while index < nframes / 32
        invariant index <= nframes / 32 && unused == PAGE * FreeBelow(words[..], 32 * index)
      {
        if words[index] == 0 {
          PlainWordCounts(words[..], index, 32);
          unused := unused + PAGE * 32;
        } else if words[index] == FULL {
          PlainWordCounts(words[..], index, 32);
        } else {
          var offset := 0;
          while offset < 32
            invariant offset <= 32 && unused == PAGE * FreeBelow(words[..], 32 * index + offset)
          {
            FreeBelowNext(words[..], index, offset);
            if !Bit(words[index], offset) {
              unused := unused + PAGE;
            }
            offset := offset + 1;
          }
        }
        index := index + 1;
      }
      FreeBelowIsSize(words[..], Searched());
    }

    /** pmm_bytes_used: what is not free among the searched frames, so the two always add up to the same total. */
    method BytesUsed() returns (used: nat)
      requires Valid()
      ensures used + PAGE * FreeBelow(words[..], Searched()) == PAGE * Searched()
    {
      hide Bit, UsedIn, HintHolds, FreeBelow;
      NoneBelow(words[..]);
      used := 0;
      var index := 0;
      while index < nframes / 32
        invariant index <= nframes / 32 && used + PAGE * FreeBelow(words[..], 32 * index) == PAGE * 32 * index
      {
        if words[index] == 0 {
          PlainWordCounts(words[..], index, 32);
        } else if words[index] == FULL {
          PlainWordCounts(words[..], index, 32);
          used := used + 32 * 4096;
        } else {
          var offset := 0;
          while offset < 32
            invariant offset <= 32
            invariant used + PAGE * FreeBelow(words[..], 32 * index + offset) == PAGE * (32 * index + offset)
          {
            FreeBelowNext(words[..], index, offset);
            if Bit(words[index], offset) {
              used := used + PAGE;
            }
            offset := offset + 1;
          }
        }
        index := index + 1;
      }
    }
  }

  /** Just past the last frame the bitmap has a bit for. */
  ghost function RunTop(nframes: nat): int {
    32 * (nframes / 32 + 1) * PAGE
  }

  /** The frames of a run of pages that starts at this address. */
  ghost function Run(start: nat, count: nat): set<nat> {
    set i: nat | i < count :: U32(start + i * PAGE) / PAGE
  }

  lemma OneMore(was: set<nat>, run: set<nat>, x: nat)
    requires was !! run && x !in was + run
    ensures was !! run + {x} && |run + {x}| == |run| + 1
    ensures was + run + {x} == was + (run + {x})
  {
  }

  lemma RunGrows(start: nat, i: nat)
    ensures Run(start, i + 1) == Run(start, i) + {U32(start + i * PAGE) / PAGE}
    ensures Run(start, 0) == {}
  {
  }

  lemma SameStep(place: int, start: nat, i: nat)
    requires start == U32(place)
    ensures U32(start + i * PAGE) == U32(place + i * PAGE)
  {
  }

  /** Where the search starts: one word early, to be on the safe side. */
  function WordBefore(start: nat): nat {
    var index := start / PAGE / 32;
    if index != 0 then index - 1 else 0
  }
}
