/** Reading files of an ext2 partition (src/kernel/ext2.c): the block tree of an inode, direct through triply indirect, read
    into a buffer, against the function that names the disk block of each block of the file. */
module Ext2 {
  import opened Options
  import opened Words

  const SECTOR := 512
  const INODE := 128
  const ROOT_INO := 2

  /** A partition: the disk as a sequence of sectors, where the partition starts on it, and its super block's numbers. */
  datatype Partition = Partition(disk: seq<Bytes>, startLba: nat, logBlockSize: nat, inodesPerGroup: nat, inodeTables: seq<nat>)

  function Pow2(n: nat): (r: nat)
    ensures r >= 1
  {
    if n == 0 then 1 else 2 * Pow2(n - 1)
  }

  function SectorsPerBlock(part: Partition): (n: nat)
    ensures n >= 2 && n % 2 == 0
  {
    2 * Pow2(part.logBlockSize)
  }

  function BlockSize(part: Partition): (n: nat)
    ensures n >= 1024 && n % 1024 == 0
  {
    SECTOR * SectorsPerBlock(part)
  }

  /** Pointers in a block. */
  function PerBlock(part: Partition): (n: nat)
    ensures n >= 256
  {
    BlockSize(part) / 4
  }

  /** block_to_abs_lba. */
  function BlockLba(part: Partition, block: nat): nat {
    U32(part.startLba + U32(block * SectorsPerBlock(part)))
  }

  // ----- inodes

  function Quot(k: nat, p: nat): (q: nat)
    requires p > 0
  {
    k / p
  }

  function Rem(k: nat, p: nat): (r: nat)
    requires p > 0
    ensures r < p
  {
    k % p
  }

  /** Where ext2_read_inode finds an inode: the sector it reads, and the place in it. */
  datatype Place = Place(lba: nat, offset: nat)

  method InodePlace(part: Partition, inode: nat) returns (r: Option<Place>)
    requires part.inodesPerGroup > 0 && part.inodesPerGroup * INODE < 0x1_0000_0000
    ensures inode >= ROOT_INO && Addressable(part, inode) ==> r.Some?
    ensures r.Some? ==> inode >= ROOT_INO && (inode - 1) / part.inodesPerGroup < |part.inodeTables|
    ensures r.Some? && Addressable(part, inode) ==>
              && r.value.offset + INODE <= SECTOR
              && r.value.lba * SECTOR + r.value.offset == InodeAddress(part, inode)
  {
    hide U32, BlockLba, BlockSize, SectorsPerBlock;
    if inode < ROOT_INO {
      return None;
    }
    Quotient(inode - 1, part.inodesPerGroup);
    var group, index := (inode - 1) / part.inodesPerGroup, (inode - 1) % part.inodesPerGroup;
    if group >= |part.inodeTables| {
      return None;
    }
    var offset := index * INODE;
    Quotient(offset, BlockSize(part));
    var blockOffset := offset / BlockSize(part);
    offset := offset % BlockSize(part);
    OffsetInSector(part, index);
    if offset % INODE != 0 {
      return None;
    }
    var lba := U32(BlockLba(part, part.inodeTables[group] + blockOffset) + offset / SECTOR);
    if Addressable(part, inode) {
      SectorOf(part, part.inodeTables[group], index);
      assert PlaceAddress(part, part.inodeTables[group], index) == InodeAddress(part, inode);
    }
    r := Some(Place(lba, offset % SECTOR));
  }

  /** Byte address of an inode: its group's table, 128 bytes for each inode before it. */
  ghost function InodeAddress(part: Partition, inode: nat): int
    requires part.inodesPerGroup > 0 && inode >= 1 && (inode - 1) / part.inodesPerGroup < |part.inodeTables|
  {
    (part.startLba + part.inodeTables[(inode - 1) / part.inodesPerGroup] * SectorsPerBlock(part)) * SECTOR
    + (inode - 1) % part.inodesPerGroup * INODE
  }

  /** The inode's group exists and its sector has a number of 32 bits. */
  ghost predicate Addressable(part: Partition, inode: nat)
    requires part.inodesPerGroup > 0
  {
    && inode >= 1 && (inode - 1) / part.inodesPerGroup < |part.inodeTables|
    && InodeAddress(part, inode) < SECTOR * 0x1_0000_0000
  }

  /** Inodes are aligned to their size, so they never straddle a sector. */
  lemma OffsetInSector(part: Partition, index: nat)
    ensures var offset := index * INODE % BlockSize(part);
            offset % INODE == 0 && offset % SECTOR + INODE <= SECTOR
  {
    var s := BlockSize(part);
    var n, q := s / SECTOR, index * INODE / s;
    var offset := index * INODE % s;
    assert index * INODE == q * s + offset;
    assert s == SECTOR * n;
    assert q * s == INODE * (q * (4 * n)) by {
      assert q * (SECTOR * n) == INODE * (q * (4 * n));
    }
    Multiple(offset, index - q * (4 * n));
  }

  lemma Multiple(offset: int, k: int)
    requires offset == INODE * k && offset >= 0
    ensures offset % INODE == 0 && offset % SECTOR + INODE <= SECTOR
  {
  }

  /** The byte address that the sector and the place in it amount to. */
  ghost function PlaceAddress(part: Partition, table: nat, index: nat): int {
    var block, offset := table + Quot(index * INODE, BlockSize(part)), Rem(index * INODE, BlockSize(part));
    U32(BlockLba(part, block) + offset / SECTOR) * SECTOR + offset % SECTOR
  }

  /** Block, sector and place together are the byte address. */
  lemma SectorOf(part: Partition, table: nat, index: nat)
    requires (part.startLba + table * SectorsPerBlock(part)) * SECTOR + index * INODE < SECTOR * 0x1_0000_0000
    ensures PlaceAddress(part, table, index) == (part.startLba + table * SectorsPerBlock(part)) * SECTOR + index * INODE
  {
    var n, s := SectorsPerBlock(part), BlockSize(part);
    assert s == SECTOR * n;
    hide SectorsPerBlock, BlockSize, U32;
    var q, offset := index * INODE / s, index * INODE % s;
    Quotient(index * INODE, s);
    Products(table, q, n);
    Small(part, (table + q) * n, offset);
  }

  lemma Quotient(x: nat, s: nat)
    requires s > 0
    ensures x == x / s * s + x % s && x / s >= 0 && 0 <= x % s < s
  {
  }

  lemma Products(table: nat, q: nat, n: nat)
    ensures (table + q) * n == table * n + q * n && q * (SECTOR * n) == q * n * SECTOR
  {
  }

  lemma Small(part: Partition, x: nat, offset: nat)
    requires (part.startLba + x) * SECTOR + offset < SECTOR * 0x1_0000_0000
    ensures U32(U32(part.startLba + U32(x)) + offset / SECTOR) * SECTOR + offset % SECTOR == (part.startLba + x) * SECTOR + offset
  {
  }

  // ----- blocks and pointers

  function Join(sectors: seq<Bytes>): Bytes {
    if sectors == [] then [] else Join(sectors[..|sectors| - 1]) + sectors[|sectors| - 1]
  }

  /** What reading a block from the disk gives; nothing beyond its end. */
  function Block(part: Partition, block: nat): Option<Bytes> {
    var lba, n := BlockLba(part, block), SectorsPerBlock(part);
    if lba + n <= |part.disk| then Some(Join(part.disk[lba..lba + n])) else None
  }

  /** Blocks of different numbers are different sectors, as long as the numbers are of 32 bits. */
  lemma BlocksApart(part: Partition, b: nat, c: nat)
    requires b < c && part.startLba + (c + 1) * SectorsPerBlock(part) <= 0x1_0000_0000
    ensures BlockLba(part, b) + SectorsPerBlock(part) <= BlockLba(part, c)
  {
    var n := SectorsPerBlock(part);
    hide SectorsPerBlock, U32;
    Rows(b, c, n);
    SmallSum(part.startLba, b * n);
    SmallSum(part.startLba, c * n);
  }

  lemma SmallSum(x: nat, y: nat)
    requires x + y < 0x1_0000_0000
    ensures U32(x + U32(y)) == x + y
  {
  }

  lemma Rows(b: nat, c: nat, n: nat)
    requires b < c
    ensures 0 <= b * n <= b * n + n <= c * n && (c + 1) * n == c * n + n
  {
    var d: nat := c - b - 1;
    assert c * n == (b + 1 + d) * n == b * n + n + d * n;
  }

  /** The numbers in a block, four bytes each. */
  function Pointers(part: Partition, bytes: Bytes): (list: seq<nat>)
    ensures |list| == PerBlock(part)
  {
    seq(PerBlock(part), i requires 0 <= i < PerBlock(part) => if 4 * i + 4 <= |bytes| then FromLe32(bytes[4 * i..4 * i + 4]) else 0)
  }

  /** The pointers in the block of this number. */
  function List(part: Partition, block: nat): (list: seq<nat>)
    ensures |list| == PerBlock(part)
  {
    var bytes := Block(part, block);
    Pointers(part, if bytes.Some? then bytes.value else [])
  }

  // ----- the tree

  function Min(a: int, b: int): int {
    if a < b then a else b
  }

  function At(list: seq<nat>, i: nat): nat {
    if i < |list| then list[i] else 0
  }

  /** The pointer for the k-th block under a row of singly indirect blocks; a zero in the row is a hole as wide as a list. */
  function ListPointer(part: Partition, row: seq<nat>, k: nat): nat {
    var q := Quot(k, PerBlock(part));
    if q < |row| && row[q] != 0 then List(part, row[q])[Rem(k, PerBlock(part))] else 0
  }

  /** The row of singly indirect blocks under a row of doubly indirect ones. */
  function Level(part: Partition, row: seq<nat>): (r: seq<nat>)
  {
    if row == [] then []
    else Level(part, row[..|row| - 1]) + Under(part, row[|row| - 1])
  }

  /** The lists under one pointer: none of its places is missing, whether or not there is a block. */
  function Under(part: Partition, pointer: nat): (r: seq<nat>)
    ensures |r| == PerBlock(part)
  {
    if pointer == 0 then seq(PerBlock(part), _ => 0) else List(part, pointer)
  }

  /** Entry j of list i of a doubly indirect block is the pointer for block i * p + j. */
  lemma DoublyAt(part: Partition, block: nat, i: nat, j: nat)
    requires i < PerBlock(part) && j < PerBlock(part)
    ensures var list := List(part, block)[i];
            ListPointer(part, List(part, block), i * PerBlock(part) + j) == if list == 0 then 0 else List(part, list)[j]
  {
    hide List, PerBlock, Quot, Rem;
    QuotRem(i, j, PerBlock(part));
  }

  /** Block i * p * p + k of a triply indirect block is block k of the i-th doubly indirect one. */
  lemma TriplyAt(part: Partition, block: nat, i: nat, k: nat)
    requires i < PerBlock(part) && k < PerBlock(part) * PerBlock(part)
    ensures var doubly, p := List(part, block)[i], PerBlock(part);
            ListPointer(part, Level(part, List(part, block)), i * (p * p) + k)
            == if doubly == 0 then 0 else ListPointer(part, List(part, doubly), k)
  {
    hide List, PerBlock, Quot, Rem;
    var p, q, r := PerBlock(part), Quot(k, PerBlock(part)), Rem(k, PerBlock(part));
    QuotBack(k, p);
    LevelAt(part, List(part, block), i, q, i * p + q);
    Regroup(i, q, r, p);
    QuotRem(i * p + q, r, p);
    Scaled(i + 1, p, p);
    Step(i, p);
  }

  lemma {:induction false} LevelAt(part: Partition, row: seq<nat>, i: nat, q: nat, k: nat)
    requires i < |row| && q < PerBlock(part) && k == i * PerBlock(part) + q
    ensures |Level(part, row)| == |row| * PerBlock(part)
    ensures k < |Level(part, row)| && Level(part, row)[k] == Under(part, row[i])[q]
  {
    hide List, PerBlock, Under;
    var p, front := PerBlock(part), row[..|row| - 1];
    Step(|front|, p);
    if front == [] {
      assert Level(part, front) == [];
    } else {
      LevelAt(part, front, if i < |front| then i else 0, q, if i < |front| then k else q);
    }
  }

  lemma QuotBack(k: nat, p: nat)
    requires p > 0 && k < p * p
    ensures k == Quot(k, p) * p + Rem(k, p) && Quot(k, p) < p
  {
    var q := k / p;
    if q >= p {
      Scaled(p, q, p);
    }
  }

  lemma Regroup(i: nat, q: nat, r: nat, p: nat)
    ensures i * (p * p) + (q * p + r) == (i * p + q) * p + r
  {
    assert (i * p + q) * p == i * p * p + q * p;
  }

  lemma QuotRem(i: nat, j: nat, p: nat)
    requires j < p
    ensures Quot(i * p + j, p) == i && Rem(i * p + j, p) == j
  {
    var x := i * p + j;
    OneQuotient(x, i, j, x / p, x % p, p);
  }

  lemma OneQuotient(x: nat, i: nat, j: nat, q: nat, r: nat, p: nat)
    requires x == i * p + j == q * p + r && j < p && r < p
    ensures i == q && j == r
  {
    if i < q {
      Scaled(i + 1, q, p);
      Step(i, p);
    } else if q < i {
      Scaled(q + 1, i, p);
      Step(q, p);
    }
  }

  lemma Scaled(a: nat, b: nat, p: nat)
    requires a <= b
    ensures a * p <= b * p
  {
  }

  lemma Step(i: nat, p: nat)
    ensures (i + 1) * p == i * p + p
  {
  }

  // ----- what the code reads: zero pointers are skipped and leave no room

  /** The pointers of a row that are not zero. */
  function Packed(row: seq<nat>): (r: seq<nat>)
    ensures |r| <= |row| && forall i | 0 <= i < |r| :: r[i] != 0
  {
    if row == [] then [] else
      var front := Packed(row[..|row| - 1]);
      if row[|row| - 1] == 0 then front else front + [row[|row| - 1]]
  }

  lemma {:induction false} PackedJoins(a: seq<nat>, b: seq<nat>)
    ensures Packed(a + b) == Packed(a) + Packed(b)
  {
    if b == [] {
      assert a + b == a;
    } else {
      PackedJoins(a, b[..|b| - 1]);
      assert (a + b)[..|a + b| - 1] == a + b[..|b| - 1];
    }
  }

  lemma PackedStep(row: seq<nat>, i: nat)
    requires i < |row|
    ensures Packed(row[..i + 1]) == if row[i] == 0 then Packed(row[..i]) else Packed(row[..i]) + [row[i]]
  {
    assert row[..i + 1][..i] == row[..i];
  }

  lemma {:induction false} PackedPrefix(row: seq<nat>, i: nat)
    requires i <= |row|
    ensures Packed(row[..i]) <= Packed(row)
  {
    hide Packed;
    PackedJoins(row[..i], row[i..]);
    InFront(Packed(row[..i]), Packed(row[i..]));
    assert row == row[..i] + row[i..];
  }

  lemma InFront(a: seq<nat>, b: seq<nat>)
    ensures a <= a + b
  {
  }

  /** The first n entries of a list of data blocks can be read: the code insists on the first one. */
  ghost predicate LeafOk(part: Partition, list: seq<nat>, n: int) {
    && 0 < n <= |list| && list[0] != 0
    && (forall i | 0 <= i < n && list[i] != 0 :: Block(part, list[i]).Some?)
  }

  /** A pointer to a block of pointers. */
  predicate Head(part: Partition, block: nat) {
    block > ROOT_INO && Block(part, block).Some?
  }

  ghost predicate SinglyOk(part: Partition, block: nat, n: int) {
    Head(part, block) && LeafOk(part, List(part, block), n)
  }

  /** The lists of a row without zeros that reading n blocks comes to can be read. */
  ghost predicate RowOk(part: Partition, row: seq<nat>, n: int) {
    forall q | 0 <= q < |row| && q * PerBlock(part) < n :: SinglyOk(part, row[q], Min(n - q * PerBlock(part), PerBlock(part)))
  }

  ghost predicate DoublyOk(part: Partition, block: nat, n: int) {
    Head(part, block) && n <= PerBlock(part) * PerBlock(part) && RowOk(part, Packed(List(part, block)), n)
  }

  /** The doubly indirect blocks that reading n blocks comes to are blocks of pointers. */
  ghost predicate HeadsOk(part: Partition, row: seq<nat>, n: int) {
    forall i | 0 <= i < |row| && row[i] != 0 && Before(part, row, i) * PerBlock(part) < n :: Head(part, row[i])
  }

  /** How many lists are read before those under pointer i. */
  ghost function Before(part: Partition, row: seq<nat>, i: nat): nat
    requires i <= |row|
  {
    |Packed(Level(part, row[..i]))|
  }

  ghost predicate TriplyOk(part: Partition, block: nat, n: int) {
    && Head(part, block) && HeadsOk(part, List(part, block), n)
    && RowOk(part, Packed(Level(part, List(part, block))), n)
  }

  // ----- holes

  /** Within n blocks no list is missing that a later one follows. */
  ghost predicate NoEarlyHole(part: Partition, row: seq<nat>, n: int) {
    forall i, j | 0 <= i < j < |row| && row[i] == 0 && i * PerBlock(part) < n :: row[j] == 0
  }

  /** Skipping the holes of a row reads what the row names, at every one of n blocks, if and only if no hole comes early. */
  lemma PackedReads(part: Partition, row: seq<nat>, n: nat)
    requires RowOk(part, Packed(row), n)
    ensures (forall k: nat | k < n :: ListPointer(part, Packed(row), k) == ListPointer(part, row, k)) <==> NoEarlyHole(part, row, n)
  {
    hide Packed, PerBlock, ListPointer, RowOk;
    if NoEarlyHole(part, row, n) {
      forall k: nat | k < n
        ensures ListPointer(part, Packed(row), k) == ListPointer(part, row, k)
      {
        SameList(part, row, n, k);
      }
    } else {
      var i, j :| 0 <= i < j < |row| && row[i] == 0 && i * PerBlock(part) < n && row[j] != 0;
      var h := FirstHole(row, i);
      Scaled(h, i, PerBlock(part));
      MovedUp(part, row, n, h, j);
      var k: nat := h * PerBlock(part);
      assert k < n && ListPointer(part, Packed(row), k) != ListPointer(part, row, k);
    }
  }

  lemma {:induction false} FirstHole(row: seq<nat>, i: nat) returns (h: nat)
    requires i < |row| && row[i] == 0
    ensures h <= i && row[h] == 0 && forall q | 0 <= q < h :: row[q] != 0
  {
    h := i;
    if q :| 0 <= q < i && row[q] == 0 {
      h := FirstHole(row, q);
    }
  }

  lemma {:induction false} PackedSolid(row: seq<nat>)
    requires forall i | 0 <= i < |row| :: row[i] != 0
    ensures Packed(row) == row
  {
    if row != [] {
      PackedSolid(row[..|row| - 1]);
      assert row == row[..|row| - 1] + [row[|row| - 1]];
    }
  }

  lemma {:induction false} PackedHollow(row: seq<nat>)
    ensures Packed(row) == [] <==> forall i | 0 <= i < |row| :: row[i] == 0
  {
    if row != [] {
      var front := row[..|row| - 1];
      PackedHollow(front);
      assert forall i | 0 <= i < |front| :: front[i] == row[i];
    }
  }

  /** A row up to its first hole, and the rest of it. */
  lemma PackedAround(row: seq<nat>, h: nat)
    requires h <= |row| && forall i | 0 <= i < h :: row[i] != 0
    ensures Packed(row) == row[..h] + Packed(row[h..])
  {
    hide Packed;
    var front, rest := row[..h], row[h..];
    assert row == front + rest;
    PackedJoins(front, rest);
    PackedSolid(front);
  }

  lemma SameList(part: Partition, row: seq<nat>, n: nat, k: nat)
    requires NoEarlyHole(part, row, n) && k < n
    ensures ListPointer(part, Packed(row), k) == ListPointer(part, row, k)
  {
    var p := PerBlock(part);
    var q := Quot(k, p);
    QuotBelow(k, p);
    hide List, PerBlock, Quot, Rem, Packed;
    if q < |row| {
      if i :| 0 <= i <= q && row[i] == 0 {
        var h := FirstHole(row, i);
        Scaled(h, q, p);
        PackedAround(row, h);
        assert forall j | 0 <= j < |row[h..]| :: row[h..][j] == row[h + j];
        PackedHollow(row[h..]);
      } else {
        PackedAround(row, q + 1);
      }
    }
  }

  lemma QuotBelow(k: nat, p: nat)
    requires p > 0
    ensures Quot(k, p) * p <= k
  {
  }

  lemma MovedUp(part: Partition, row: seq<nat>, n: nat, h: nat, j: nat)
    requires RowOk(part, Packed(row), n) && h < j < |row| && row[h] == 0 && row[j] != 0 && h * PerBlock(part) < n
    requires forall q | 0 <= q < h :: row[q] != 0
    ensures ListPointer(part, Packed(row), h * PerBlock(part)) != 0
    ensures ListPointer(part, row, h * PerBlock(part)) == 0
  {
    hide Packed, PerBlock, Quot, Rem, List, Block;
    var p := PerBlock(part);
    PackedAround(row, h);
    assert row[h..][j - h] != 0;
    PackedHollow(row[h..]);
    QuotRem(h, 0, p);
    assert h * p + 0 == h * p;
    assert SinglyOk(part, Packed(row)[h], Min(n - h * p, p));
  }

  /** What the buffer holds for a pointer: a hole leaves it alone. */
  function Filled(part: Partition, was: Bytes, pointer: nat): Bytes {
    if pointer != 0 && Block(part, pointer).Some? then Block(part, pointer).value else was
  }

  // ----- the readers; the buffer is in units of blocks

  /** n blocks from this place on are what the pointers say, the others as they were. */
  ghost predicate FilledFrom(part: Partition, was: seq<Bytes>, now: seq<Bytes>, at: nat, n: int, pointer: nat -> nat) {
    && |now| == |was|
    && (forall k | 0 <= k < |was| :: now[k] == if at <= k < at + n then Filled(part, was[k], pointer(k - at)) else was[k])
  }

  /** read_direct_blocks. */
  method ReadDirect(part: Partition, list: seq<nat>, num: nat, buf: array<Bytes>, at: nat) returns (ok: bool)
    requires num <= |list| && at + num <= buf.Length
    modifies buf
    ensures ok <==> LeafOk(part, list, num)
    ensures ok ==> FilledFrom(part, old(buf[..]), buf[..], at, num, k => At(list, k))
  {
    hide Block;
    if num == 0 || list[0] == 0 {
      return false;
    }
    for i := 0 to num
      invariant forall j | 0 <= j < i && list[j] != 0 :: Block(part, list[j]).Some?
      invariant forall k | 0 <= k < buf.Length ::
                  buf[k] == if at <= k < at + i then Filled(part, old(buf[k]), list[k - at]) else old(buf[k])
    {
      if list[i] != 0 {
        var block := Block(part, list[i]);
        if block.None? {
          return false;
        }
        buf[at + i] := block.value;
      }
    }
    ok := true;
  }

  /** read_singly_indirect_blocks. */
  method ReadSingly(part: Partition, block: nat, num: nat, buf: array<Bytes>, at: nat) returns (ok: bool)
    requires at + num <= buf.Length && num <= PerBlock(part)
    modifies buf
    ensures ok <==> SinglyOk(part, block, num)
    ensures ok ==> FilledFrom(part, old(buf[..]), buf[..], at, num, k => At(List(part, block), k))
  {
    hide Block, LeafOk, Pointers, Filled;
    if block <= ROOT_INO {
      return false;
    }
    var bytes := Block(part, block);
    if bytes.None? {
      return false;
    }
    ok := ReadDirect(part, Pointers(part, bytes.value), num, buf, at);
  }

  /** Both rows' lists are read, one behind the other. */
  lemma RowJoins(part: Partition, a: seq<nat>, b: seq<nat>, n: int)
    requires |a| * PerBlock(part) < n
    ensures RowOk(part, a + b, n) <==> RowOk(part, a, n) && RowOk(part, b, n - |a| * PerBlock(part))
  {
    var p := PerBlock(part);
    hide PerBlock, SinglyOk;
    if RowOk(part, a + b, n) {
      forall q | 0 <= q < |a| && q * p < n
        ensures SinglyOk(part, a[q], Min(n - q * p, p))
      {
        assert (a + b)[q] == a[q];
      }
      forall q | 0 <= q < |b| && q * p < n - |a| * p
        ensures SinglyOk(part, b[q], Min(n - |a| * p - q * p, p))
      {
        Summed(|a|, q, p);
        assert (a + b)[|a| + q] == b[q];
      }
    }
    if RowOk(part, a, n) && RowOk(part, b, n - |a| * p) {
      forall q | 0 <= q < |a + b| && q * p < n
        ensures SinglyOk(part, (a + b)[q], Min(n - q * p, p))
      {
        if q >= |a| {
          Summed(|a|, q - |a|, p);
        }
      }
    }
  }

  lemma Summed(a: int, b: int, p: nat)
    ensures (a + b) * p == a * p + b * p
  {
  }

  /** A row of at most p lists has no use for more than p * p blocks. */
  lemma RowCap(part: Partition, row: seq<nat>, n: int)
    requires |row| <= PerBlock(part)
    ensures RowOk(part, row, n) <==> RowOk(part, row, Min(n, PerBlock(part) * PerBlock(part)))
  {
    var p := PerBlock(part);
    hide PerBlock, SinglyOk;
    forall q | 0 <= q < |row|
      ensures q * p + p <= p * p
    {
      Scaled(q + 1, p, p);
      Step(q, p);
    }
  }

  /** Lists behind the n-th block do not matter. */
  lemma RowEnough(part: Partition, row: seq<nat>, more: seq<nat>, n: int)
    requires row <= more
    ensures RowOk(part, more, n) ==> RowOk(part, row, n)
    ensures RowOk(part, row, n) && n <= |row| * PerBlock(part) ==> RowOk(part, more, n)
    ensures |row| * PerBlock(part) <= |more| * PerBlock(part)
  {
    var p := PerBlock(part);
    hide PerBlock, SinglyOk;
    Scaled(|row|, |more|, p);
    forall q | |row| <= q < |more|
      ensures |row| * p <= q * p
    {
      Scaled(|row|, q, p);
    }
  }

  /** A part of a row read in its place is that part of the row. */
  lemma RowShift(part: Partition, row: seq<nat>, c: nat, lists: seq<nat>, k: nat)
    requires c + |lists| <= |row| && row[c..c + |lists|] == lists && k < |lists| * PerBlock(part)
    ensures ListPointer(part, row, c * PerBlock(part) + k) == ListPointer(part, lists, k)
  {
    var p := PerBlock(part);
    var q, r := Quot(k, p), Rem(k, p);
    QuotBelow(k, p);
    QuotParts(k, p);
    if q >= |lists| {
      Scaled(|lists|, q, p);
    }
    Summed(c, q, p);
    QuotRem(c + q, r, p);
    assert c * p + k == (c + q) * p + r;
    hide List, PerBlock, Quot, Rem;
    assert row[c..c + |lists|][q] == row[c + q];
  }

  lemma QuotParts(k: nat, p: nat)
    requires p > 0
    ensures k == Quot(k, p) * p + Rem(k, p)
  {
  }

  /** The buffer has the first c lists of a row, and then n blocks of the lists after them. */
  lemma FilledMore(part: Partition, row: seq<nat>, was: seq<Bytes>, mid: seq<Bytes>, now: seq<Bytes>, at: nat, c: nat,
                   lists: seq<nat>, n: nat)
    requires c + |lists| <= |row| && row[c..c + |lists|] == lists && n <= |lists| * PerBlock(part)
    requires FilledFrom(part, was, mid, at, c * PerBlock(part), k => ListPointer(part, row, k))
    requires FilledFrom(part, mid, now, at + c * PerBlock(part), n, k => ListPointer(part, lists, k))
    ensures FilledFrom(part, was, now, at, c * PerBlock(part) + n, k => ListPointer(part, row, k))
  {
    var p := PerBlock(part);
    hide Filled, ListPointer, PerBlock;
    forall k | 0 <= k < |was|
      ensures now[k] == if at <= k < at + c * p + n then Filled(part, was[k], ListPointer(part, row, k - at)) else was[k]
    {
      if at + c * p <= k < at + c * p + n {
        RowShift(part, row, c, lists, k - at - c * p);
      }
    }
  }

  /** One list alone. */
  lemma FilledList(part: Partition, list: nat, was: seq<Bytes>, now: seq<Bytes>, at: nat, n: nat)
    requires list != 0 && n <= PerBlock(part) && FilledFrom(part, was, now, at, n, k => At(List(part, list), k))
    ensures FilledFrom(part, was, now, at, n, k => ListPointer(part, [list], k))
  {
    hide Filled, List;
    forall k: nat | k < n
      ensures ListPointer(part, [list], k) == At(List(part, list), k)
    {
      QuotRem(0, k, PerBlock(part));
    }
  }

  /** The blocks under the first lists of a row are in the buffer. */
  ghost predicate InBuffer(part: Partition, row: seq<nat>, lists: seq<nat>, n: nat, was: seq<Bytes>, now: seq<Bytes>, at: nat, read: nat) {
    && lists <= row && RowOk(part, lists, n) && read == Min(|lists| * PerBlock(part), n) && at + n <= |was|
    && FilledFrom(part, was, now, at, read, k => ListPointer(part, row, k))
  }

  lemma BufferStart(part: Partition, row: seq<nat>, n: nat, was: seq<Bytes>, at: nat)
    requires at + n <= |was|
    ensures InBuffer(part, row, [], n, was, was, at, 0)
  {
  }

  /** Some more lists are read. */
  lemma BufferNext(part: Partition, row: seq<nat>, lists: seq<nat>, more: seq<nat>, n: nat,
                   was: seq<Bytes>, mid: seq<Bytes>, now: seq<Bytes>, at: nat, read: nat, got: nat)
    requires InBuffer(part, row, lists, n, was, mid, at, read) && read < n && lists + more <= row
    requires RowOk(part, more, n - read) && got == Min(|more| * PerBlock(part), n - read)
    requires FilledFrom(part, mid, now, at + read, got, k => ListPointer(part, more, k))
    ensures InBuffer(part, row, lists + more, n, was, now, at, read + got)
  {
    hide RowOk, FilledFrom, PerBlock, ListPointer;
    RowJoins(part, lists, more, n);
    Summed(|lists|, |more|, PerBlock(part));
    assert row[|lists|..|lists| + |more|] == more;
    FilledMore(part, row, was, mid, now, at, |lists|, more, got);
  }

  lemma BufferEnd(part: Partition, row: seq<nat>, lists: seq<nat>, n: nat, was: seq<Bytes>, now: seq<Bytes>, at: nat, read: nat)
    requires InBuffer(part, row, lists, n, was, now, at, read) && (read == n || lists == row)
    ensures RowOk(part, row, n) && read == Min(|row| * PerBlock(part), n) == Min(|lists| * PerBlock(part), n)
    ensures FilledFrom(part, was, now, at, read, k => ListPointer(part, row, k))
  {
    hide RowOk, FilledFrom, PerBlock, ListPointer;
    RowEnough(part, lists, row, n);
  }

  /** Reading fails at the next list. */
  lemma RowFails(part: Partition, row: seq<nat>, lists: seq<nat>, more: seq<nat>, n: nat, read: nat)
    requires read == |lists| * PerBlock(part) < n && lists + more <= row && !RowOk(part, more, n - read)
    ensures !RowOk(part, row, n)
  {
    hide RowOk, PerBlock;
    RowJoins(part, lists, more, n);
    RowEnough(part, lists + more, row, n);
  }

  lemma RowOne(part: Partition, list: nat, n: nat)
    requires n > 0
    ensures RowOk(part, [list], n) <==> SinglyOk(part, list, Min(n, PerBlock(part)))
  {
    hide SinglyOk, PerBlock;
    if SinglyOk(part, list, Min(n, PerBlock(part))) {
      assert RowOk(part, [list], n);
    } else {
      assert [list][0] == list && 0 * PerBlock(part) == 0;
    }
  }

  /** While the buffer is not full, all lists so far are in. */
  lemma FullSoFar(part: Partition, row: seq<nat>, lists: seq<nat>, n: nat, was: seq<Bytes>, now: seq<Bytes>, at: nat, read: nat)
    requires InBuffer(part, row, lists, n, was, now, at, read) && read < n
    ensures read == |lists| * PerBlock(part)
  {
  }

  /** One round of read_doubly_indirect_blocks' loop. */
  method ReadNext(part: Partition, list: nat, num: nat, buf: array<Bytes>, at: nat, read: nat,
                  ghost row: seq<nat>, ghost lists: seq<nat>, ghost was: seq<Bytes>) returns (ok: bool, n: nat)
    requires InBuffer(part, row, lists, num, was, buf[..], at, read) && read < num && at + num <= buf.Length
    requires list != 0 && lists + [list] <= row
    modifies buf
    ensures n == Min(num - read, PerBlock(part)) && (!ok ==> !RowOk(part, row, num))
    ensures ok ==> InBuffer(part, row, lists + [list], num, was, buf[..], at, read + n)
  {
    hide Block, List, SinglyOk, RowOk, Filled, PerBlock, ListPointer, FilledFrom, InBuffer;
    n := Min(num - read, PerBlock(part));
    ghost var mid := buf[..];
    FullSoFar(part, row, lists, num, was, mid, at, read);
    RowOne(part, list, num - read);
    ok := ReadSingly(part, list, n, buf, at + read);
    if ok {
      FilledList(part, list, mid, buf[..], at + read, n);
      BufferNext(part, row, lists, [list], num, was, mid, buf[..], at, read, n);
    } else {
      RowFails(part, row, lists, [list], num, read);
    }
  }

  /** read_doubly_indirect_blocks: a zero pointer is skipped without leaving room for the blocks it stands for. */
  method ReadDoubly(part: Partition, block: nat, num: nat, buf: array<Bytes>, at: nat) returns (ok: bool, read: nat)
    requires at + num <= buf.Length
    modifies buf
    ensures read <= num && (ok <==> DoublyOk(part, block, num))
    ensures ok ==> read == Min(|Packed(List(part, block))| * PerBlock(part), num)
    ensures ok ==> FilledFrom(part, old(buf[..]), buf[..], at, read, k => ListPointer(part, Packed(List(part, block)), k))
  {
    hide Block, List, RowOk, PerBlock, ListPointer, Packed, FilledFrom, InBuffer;
    read := 0;
    if block <= ROOT_INO || num > PerBlock(part) * PerBlock(part) || Block(part, block).None? {
      return false, read;
    }
    var list := List(part, block);
    ghost var row, was := Packed(list), buf[..];
    BufferStart(part, row, num, was, at);
    PackedHollow(list[..0]);
    var i := 0;
    while num > read && i < PerBlock(part)
      invariant read <= num && i <= PerBlock(part) && InBuffer(part, row, Packed(list[..i]), num, was, buf[..], at, read)
    {
      PackedStep(list, i);
      PackedPrefix(list, i + 1);
      if list[i] != 0 {
        var n;
        ok, n := ReadNext(part, list[i], num, buf, at, read, row, Packed(list[..i]), was);
        if !ok {
          return;
        }
        read := read + n;
      }
      i := i + 1;
    }
    assert list[..|list|] == list;
    BufferEnd(part, row, Packed(list[..i]), num, was, buf[..], at, read);
    ok := true;
  }

  /** Lists under a row, pointer by pointer. */
  lemma LevelStep(part: Partition, row: seq<nat>, i: nat)
    requires i < |row|
    ensures Packed(Level(part, row[..i + 1])) == Packed(Level(part, row[..i])) + Packed(Under(part, row[i]))
    ensures row[i] == 0 ==> Packed(Level(part, row[..i + 1])) == Packed(Level(part, row[..i]))
  {
    hide List, PerBlock, Packed;
    assert row[..i + 1][..i] == row[..i];
    PackedJoins(Level(part, row[..i]), Under(part, row[i]));
    PackedHollow(Under(part, row[i]));
  }

  lemma LevelPrefix(part: Partition, row: seq<nat>, i: nat)
    requires i <= |row|
    ensures Packed(Level(part, row[..i])) <= Packed(Level(part, row))
    decreases |row| - i
  {
    hide List, PerBlock, Packed, Level, Under;
    if i < |row| {
      LevelStep(part, row, i);
      LevelPrefix(part, row, i + 1);
    } else {
      assert row[..i] == row;
    }
  }

  /** One round of read_triply_indirect_blocks' loop. */
  method ReadUnder(part: Partition, doubly: nat, num: nat, buf: array<Bytes>, at: nat, read: nat,
                   ghost row: seq<nat>, ghost lists: seq<nat>, ghost was: seq<Bytes>) returns (ok: bool, got: nat)
    requires InBuffer(part, row, lists, num, was, buf[..], at, read) && read < num && at + num <= buf.Length
    requires lists + Packed(List(part, doubly)) <= row
    modifies buf
    ensures read + got <= num && (!ok ==> !Head(part, doubly) || !RowOk(part, row, num)) && (ok ==> Head(part, doubly))
    ensures ok ==> InBuffer(part, row, lists + Packed(List(part, doubly)), num, was, buf[..], at, read + got)
  {
    hide Block, List, RowOk, Filled, PerBlock, ListPointer, FilledFrom, InBuffer, Packed;
    var n := Min(num - read, PerBlock(part) * PerBlock(part));
    ghost var mid, more := buf[..], Packed(List(part, doubly));
    FullSoFar(part, row, lists, num, was, mid, at, read);
    RowCap(part, more, num - read);
    Scaled(|more|, PerBlock(part), PerBlock(part));
    ok, got := ReadDoubly(part, doubly, n, buf, at + read);
    if ok {
      BufferNext(part, row, lists, more, num, was, mid, buf[..], at, read, got);
    } else if Head(part, doubly) {
      RowFails(part, row, lists, more, num, read);
    }
  }

  /** read_triply_indirect_blocks. */
  method ReadTriply(part: Partition, block: nat, num: nat, buf: array<Bytes>, at: nat) returns (ok: bool, read: nat)
    requires at + num <= buf.Length
    modifies buf
    ensures read <= num && (ok <==> TriplyOk(part, block, num))
    ensures ok ==> read == Min(|Packed(Level(part, List(part, block)))| * PerBlock(part), num)
    ensures ok ==> FilledFrom(part, old(buf[..]), buf[..], at, read, k => ListPointer(part, Packed(Level(part, List(part, block))), k))
  {
    hide Block, List, RowOk, PerBlock, ListPointer, Packed, FilledFrom, InBuffer, Level, Under;
    read := 0;
    if block <= ROOT_INO || Block(part, block).None? {
      return false, read;
    }
    var list := List(part, block);
    ghost var row, was := Packed(Level(part, list)), buf[..];
    BufferStart(part, row, num, was, at);
    NothingUnder(part, list[..0]);
    var i := 0;
    while num > read && i < PerBlock(part)
      invariant read <= num && i <= PerBlock(part)
      invariant InBuffer(part, row, Packed(Level(part, list[..i])), num, was, buf[..], at, read)
      invariant forall j | 0 <= j < i && list[j] != 0 && Before(part, list, j) * PerBlock(part) < num :: Head(part, list[j])
    {
      LevelStep(part, list, i);
      LevelPrefix(part, list, i + 1);
      if list[i] != 0 {
        FullSoFar(part, row, Packed(Level(part, list[..i])), num, was, buf[..], at, read);
        UnderIs(part, list[i]);
        var got;
        ok, got := ReadUnder(part, list[i], num, buf, at, read, row, Packed(Level(part, list[..i])), was);
        if !ok {
          return;
        }
        read := read + got;
      }
      i := i + 1;
    }
    assert list[..|list|] == list;
    BufferEnd(part, row, Packed(Level(part, list[..i])), num, was, buf[..], at, read);
    HeadsRead(part, list, i, num);
    ok := true;
  }

  lemma NothingUnder(part: Partition, row: seq<nat>)
    requires row == []
    ensures Packed(Level(part, row)) == []
  {
  }

  lemma UnderIs(part: Partition, pointer: nat)
    requires pointer != 0
    ensures Under(part, pointer) == List(part, pointer)
  {
  }

  /** Once enough lists are read, the later pointers do not matter. */
  lemma HeadsRead(part: Partition, row: seq<nat>, i: nat, n: nat)
    requires i <= |row| && (i == |row| || n <= Before(part, row, i) * PerBlock(part))
    requires forall j | 0 <= j < i && row[j] != 0 && Before(part, row, j) * PerBlock(part) < n :: Head(part, row[j])
    ensures HeadsOk(part, row, n)
  {
    hide Block, PerBlock, Packed, Level;
    forall j | i <= j < |row|
      ensures n <= Before(part, row, j) * PerBlock(part)
    {
      LevelPrefix(part, row[..j], i);
      assert row[..j][..i] == row[..i];
      Scaled(Before(part, row, i), Before(part, row, j), PerBlock(part));
    }
  }

  /** Beyond the lists of a row nothing is named, so the blocks there stay as they were. */
  lemma FilledRest(part: Partition, row: seq<nat>, was: seq<Bytes>, now: seq<Bytes>, at: nat, read: nat, n: nat)
    requires read == Min(|row| * PerBlock(part), n) && at + n <= |was|
    requires FilledFrom(part, was, now, at, read, k => ListPointer(part, row, k))
    ensures FilledFrom(part, was, now, at, n, k => ListPointer(part, row, k))
  {
    hide Block, List;
    var p := PerBlock(part);
    forall k: nat | k >= |row| * p
      ensures ListPointer(part, row, k) == 0
    {
      QuotParts(k, p);
      if Quot(k, p) < |row| {
        Scaled(Quot(k, p) + 1, |row|, p);
        Step(Quot(k, p), p);
      }
    }
  }

  // ----- whole files

  /** What reading a file uses of its inode. */
  datatype Inode = Inode(sectors: nat, direct: seq<nat>, singly: nat, doubly: nat, triply: nat) {
    predicate Valid() {
      |direct| == DIRECT
    }
  }

  const DIRECT := 12

  /** Pointers under a doubly indirect block, all of them. */
  function Square(part: Partition): (n: nat)
    ensures n > 0
  {
    Positive(PerBlock(part));
    PerBlock(part) * PerBlock(part)
  }

  lemma Positive(p: nat)
    requires p > 0
    ensures p * p > 0
  {
  }

  /** The pointer for block k of a file whose doubly and triply indirect blocks stand for these rows of lists. */
  function PointerIn(part: Partition, inode: Inode, doubly: seq<nat>, triply: seq<nat>, k: nat): nat
    requires inode.Valid()
  {
    var p := PerBlock(part);
    if k < DIRECT then inode.direct[k]
    else if k < DIRECT + p then At(List(part, inode.singly), k - DIRECT)
    else if k < DIRECT + p + Square(part) then ListPointer(part, doubly, k - DIRECT - p)
    else ListPointer(part, triply, k - DIRECT - p - Square(part))
  }

  /** The disk block that the inode's tree names for block k of the file; 0 for a hole. */
  function FilePointer(part: Partition, inode: Inode, k: nat): nat
    requires inode.Valid()
  {
    PointerIn(part, inode, List(part, inode.doubly), Level(part, List(part, inode.triply)), k)
  }

  /** The one that the code reads for it. */
  function ReadPointer(part: Partition, inode: Inode, k: nat): nat
    requires inode.Valid()
  {
    PointerIn(part, inode, Packed(List(part, inode.doubly)), Packed(Level(part, List(part, inode.triply))), k)
  }

  /** Every indirect pointer that reading n blocks comes to names an indirect block, and the first entry of every list of data
      blocks is not a hole. */
  ghost predicate FileOk(part: Partition, inode: Inode, n: nat)
    requires inode.Valid()
  {
    var p := PerBlock(part);
    && LeafOk(part, inode.direct, Min(DIRECT, n))
    && (n > DIRECT ==> SinglyOk(part, inode.singly, Min(n - DIRECT, p)))
    && (n > DIRECT + p ==> DoublyOk(part, inode.doubly, Min(n - DIRECT - p, Square(part))))
    && (n > DIRECT + p + Square(part) ==> TriplyOk(part, inode.triply, n - DIRECT - p - Square(part)))
  }

  /** No hole among the lists comes before a list that is there. */
  ghost predicate FileSolid(part: Partition, inode: Inode, n: nat)
    requires inode.Valid()
  {
    var p := PerBlock(part);
    && (n > DIRECT + p ==> NoEarlyHole(part, List(part, inode.doubly), Min(n - DIRECT - p, Square(part))))
    && (n > DIRECT + p + Square(part) ==>
          NoEarlyHole(part, Level(part, List(part, inode.triply)), n - DIRECT - p - Square(part)))
  }

  /** A file that can be read is read as its tree says, at every block, if and only if no hole among its lists comes early. */
  lemma ReadsTree(part: Partition, inode: Inode, n: nat)
    requires inode.Valid() && FileOk(part, inode, n)
    ensures (forall k: nat | k < n :: ReadPointer(part, inode, k) == FilePointer(part, inode, k)) <==> FileSolid(part, inode, n)
  {
    hide Block, List, Level, Packed, PerBlock, Square, RowOk, NoEarlyHole, ListPointer, HeadsOk, LeafOk, Head;
    var p, s := PerBlock(part), Square(part);
    var doubly, triply := List(part, inode.doubly), Level(part, List(part, inode.triply));
    if n > DIRECT + p {
      var m: nat := Min(n - DIRECT - p, s);
      PackedReads(part, doubly, m);
      if !NoEarlyHole(part, doubly, m) {
        var k: nat :| k < m && ListPointer(part, Packed(doubly), k) != ListPointer(part, doubly, k);
        assert ReadPointer(part, inode, DIRECT + p + k) != FilePointer(part, inode, DIRECT + p + k);
      }
    }
    if n > DIRECT + p + s {
      var m: nat := n - DIRECT - p - s;
      PackedReads(part, triply, m);
      if !NoEarlyHole(part, triply, m) {
        var k: nat :| k < m && ListPointer(part, Packed(triply), k) != ListPointer(part, triply, k);
        assert ReadPointer(part, inode, DIRECT + p + s + k) != FilePointer(part, inode, DIRECT + p + s + k);
      }
    }
  }

  function ZeroBlock(part: Partition): Bytes {
    seq(BlockSize(part), _ => 0)
  }

  /** The first n blocks of the file are in, the others as they were. */
  ghost predicate FileIn(part: Partition, inode: Inode, was: seq<Bytes>, now: seq<Bytes>, n: nat)
    requires inode.Valid()
  {
    FilledFrom(part, was, now, 0, n, k => ReadPointer(part, inode, k))
  }

  method ReadThroughSingly(part: Partition, inode: Inode, n: nat, data: array<Bytes>) returns (ok: bool, read: nat)
    requires inode.Valid() && data.Length == n
    modifies data
    ensures ok <==> LeafOk(part, inode.direct, Min(DIRECT, n)) && (n > DIRECT ==> SinglyOk(part, inode.singly, Min(n - DIRECT, PerBlock(part))))
    ensures ok ==> read == Min(n, DIRECT + PerBlock(part)) && FileIn(part, inode, old(data[..]), data[..], read)
  {
    hide Block, List, LeafOk, SinglyOk, Filled, PerBlock, ReadPointer, FilledFrom, FileIn;
    ghost var zeros := data[..];
    read := Min(DIRECT, n);
    ok := ReadDirect(part, inode.direct, read, data, 0);
    if !ok {
      return;
    }
    ghost var first := data[..];
    FirstPart(part, inode, zeros, first, read);
    if n > read {
      var more := Min(n - read, PerBlock(part));
      ok := ReadSingly(part, inode.singly, more, data, read);
      if !ok {
        return;
      }
      SecondPart(part, inode, zeros, first, data[..], read, more);
      read := read + more;
    }
  }

  method ReadDoublyPart(part: Partition, inode: Inode, n: nat, data: array<Bytes>, read: nat, ghost zeros: seq<Bytes>)
    returns (ok: bool, now: nat)
    requires inode.Valid() && data.Length == n == |zeros|
    requires read == Min(n, DIRECT + PerBlock(part)) && FileIn(part, inode, zeros, data[..], read)
    modifies data
    ensures ok <==> n > DIRECT + PerBlock(part) ==> DoublyOk(part, inode.doubly, Min(n - DIRECT - PerBlock(part), Square(part)))
    ensures ok ==> now == Min(n, DIRECT + PerBlock(part) + Square(part)) && FileIn(part, inode, zeros, data[..], now)
  {
    hide Block, List, DoublyOk, Filled, PerBlock, ReadPointer, FilledFrom, FileIn, ListPointer, Square, BlockSize, Packed;
    now, ok := read, true;
    if n > read {
      var more := Min(n - read, PerBlock(part) * BlockSize(part) / 4);
      SquareForm(part);
      ghost var mid := data[..];
      var got;
      ok, got := ReadDoubly(part, inode.doubly, more, data, read);
      if !ok {
        return;
      }
      FilledRest(part, Packed(List(part, inode.doubly)), mid, data[..], read, got, more);
      ThirdPart(part, inode, zeros, mid, data[..], read, more);
      now := read + more;
    }
  }

  method ReadTriplyPart(part: Partition, inode: Inode, n: nat, data: array<Bytes>, read: nat, ghost zeros: seq<Bytes>) returns (ok: bool)
    requires inode.Valid() && data.Length == n == |zeros|
    requires read == Min(n, DIRECT + PerBlock(part) + Square(part)) && FileIn(part, inode, zeros, data[..], read)
    modifies data
    ensures ok <==> n > DIRECT + PerBlock(part) + Square(part) ==> TriplyOk(part, inode.triply, n - DIRECT - PerBlock(part) - Square(part))
    ensures ok ==> FileIn(part, inode, zeros, data[..], n)
  {
    hide Block, List, TriplyOk, Filled, PerBlock, ReadPointer, FilledFrom, FileIn, ListPointer, Square, Packed, Level;
    ok := true;
    if n > read {
      ghost var mid := data[..];
      var got;
      ok, got := ReadTriply(part, inode.triply, n - read, data, read);
      if ok {
        FilledRest(part, Packed(Level(part, List(part, inode.triply))), mid, data[..], read, got, n - read);
        FourthPart(part, inode, zeros, mid, data[..], read, n - read);
      }
    }
  }

  /** ext2_read_file: it succeeds exactly when all it comes to can be read, and block k of the result is the disk block that
      ReadPointer names, or zeros for a hole. */
  method ReadFile(part: Partition, inode: Inode) returns (r: Option<seq<Bytes>>)
    requires inode.Valid()
    ensures r.Some? <==> FileOk(part, inode, Quot(inode.sectors, SectorsPerBlock(part)))
    ensures r.Some? ==>
              && |r.value| == Quot(inode.sectors, SectorsPerBlock(part))
              && forall k | 0 <= k < |r.value| :: r.value[k] == Filled(part, ZeroBlock(part), ReadPointer(part, inode, k))
    ensures r.Some? && FileSolid(part, inode, |r.value|) ==>
              forall k | 0 <= k < |r.value| :: r.value[k] == Filled(part, ZeroBlock(part), FilePointer(part, inode, k))
  {
    hide Block, LeafOk, SinglyOk, DoublyOk, TriplyOk, FileIn, Filled, PerBlock, ReadPointer, FilePointer, FileSolid, ZeroBlock, BlockSize,
         Square, Quot, SectorsPerBlock;
    var n := Quot(inode.sectors, SectorsPerBlock(part));
    if n == 0 {
      NoLeaf(part, inode);
      return None;
    }
    var data := new Bytes[n](_ => ZeroBlock(part));
    ghost var zeros := data[..];
    var ok, read := ReadThroughSingly(part, inode, n, data);
    if !ok {
      return None;
    }
    ok, read := ReadDoublyPart(part, inode, n, data, read, zeros);
    if !ok {
      return None;
    }
    ok := ReadTriplyPart(part, inode, n, data, read, zeros);
    if !ok {
      return None;
    }
    FileContents(part, inode, zeros, data[..], n);
    ReadsTree(part, inode, n);
    r := Some(data[..]);
  }

  lemma FileContents(part: Partition, inode: Inode, was: seq<Bytes>, now: seq<Bytes>, n: nat)
    requires inode.Valid() && FileIn(part, inode, was, now, n) && |was| == n && forall k | 0 <= k < n :: was[k] == ZeroBlock(part)
    ensures |now| == n && forall k | 0 <= k < n :: now[k] == Filled(part, ZeroBlock(part), ReadPointer(part, inode, k))
  {
    hide Filled, ReadPointer, ZeroBlock;
  }

  lemma NoLeaf(part: Partition, inode: Inode)
    requires inode.Valid()
    ensures !FileOk(part, inode, 0)
  {
  }

  // ----- a disk on which a hole does harm

  /** Blocks 3 to 5 of two sectors each: pointers 0 and 4, the pointer 5, and data that are not zero. */
  function HarmSector(i: nat): (r: Bytes)
    ensures |r| == SECTOR
  {
    if i == 6 then Le32(0) + Le32(4) + seq(SECTOR - 8, _ => 0)
    else if i == 8 then Le32(5) + seq(SECTOR - 4, _ => 0)
    else seq(SECTOR, _ => 1)
  }

  function HarmDisk(): Partition {
    Partition(seq(12, i requires 0 <= i < 12 => HarmSector(i)), 0, 0, 1, [])
  }

  lemma HarmPlace(b: nat)
    requires b < 6
    ensures PerBlock(HarmDisk()) == 256 && SectorsPerBlock(HarmDisk()) == 2 && BlockLba(HarmDisk(), b) == 2 * b
  {
    hide HarmSector;
  }

  lemma HarmBlock(b: nat)
    requires b < 6
    ensures PerBlock(HarmDisk()) == 256 && Block(HarmDisk(), b) == Some(HarmSector(2 * b) + HarmSector(2 * b + 1))
  {
    HarmPlace(b);
    hide HarmSector, PerBlock, SectorsPerBlock, BlockLba, Block;
    TwoSectors(HarmDisk(), b);
  }

  lemma TwoSectors(part: Partition, b: nat)
    requires SectorsPerBlock(part) == 2 && BlockLba(part, b) == 2 * b && 2 * b + 2 <= |part.disk|
    ensures Block(part, b) == Some(part.disk[2 * b] + part.disk[2 * b + 1])
  {
    hide SectorsPerBlock, BlockLba, Join;
    assert part.disk[2 * b..2 * b + 2] == [part.disk[2 * b], part.disk[2 * b + 1]];
    JoinTwo(part.disk[2 * b], part.disk[2 * b + 1]);
  }

  lemma JoinTwo(a: Bytes, b: Bytes)
    ensures Join([a, b]) == a + b
  {
    assert [a, b][..1] == [a] && [a][..0] == [];
    assert Join([]) == [] && Join([a]) == a;
  }

  lemma ListAt(part: Partition, b: nat, bytes: Bytes, i: nat, x: nat)
    requires Block(part, b) == Some(bytes) && i < PerBlock(part) && 4 * i + 4 <= |bytes| && x < 0x1_0000_0000
    requires bytes[4 * i..4 * i + 4] == Le32(x)
    ensures List(part, b)[i] == x
  {
    hide Block, PerBlock, Le32, FromLe32;
    WordBack(x);
  }

  lemma HarmLists()
    ensures var part := HarmDisk();
            PerBlock(part) == 256 && List(part, 3)[0] == 0 && List(part, 3)[1] == 4 && List(part, 4)[0] == 5
    ensures var part := HarmDisk(); Head(part, 3) && Head(part, 4)
    ensures var part := HarmDisk(); Block(part, 5).Some? && |Block(part, 5).value| == 1024 && Block(part, 5).value[0] == 1
  {
    hide Le32, Block, List;
    HarmBlock(3);
    HarmBlock(4);
    HarmBlock(5);
    var three, four := HarmSector(6) + HarmSector(7), HarmSector(8) + HarmSector(9);
    assert three[0..4] == Le32(0) && three[4..8] == Le32(4) && four[0..4] == Le32(5);
    hide HarmDisk, HarmSector, PerBlock;
    ListAt(HarmDisk(), 3, three, 0, 0);
    ListAt(HarmDisk(), 3, three, 1, 4);
    ListAt(HarmDisk(), 4, four, 0, 5);
  }

  /** One block is asked for and read without complaint; it is a hole in the tree, and data that are not zero are delivered. */
  lemma HoleHarms()
    ensures var part := HarmDisk();
            && DoublyOk(part, 3, 1) && !NoEarlyHole(part, List(part, 3), 1)
            && Filled(part, ZeroBlock(part), ListPointer(part, Packed(List(part, 3)), 0))
               != Filled(part, ZeroBlock(part), ListPointer(part, List(part, 3), 0))
  {
    HarmLists();
    var part := HarmDisk();
    hide HarmDisk, List, PerBlock, Block, Packed, Quot, Rem, Head, RowOk, NoEarlyHole;
    var row := List(part, 3);
    FirstPacked(row);
    FirstRow(part, Packed(row));
    QuotRem(0, 0, 256);
    EarlyHole(part, row);
    assert ListPointer(part, Packed(row), 0) == 5 && ListPointer(part, row, 0) == 0;
    assert Filled(part, ZeroBlock(part), 5)[0] == 1 && Filled(part, ZeroBlock(part), 0)[0] == 0;
  }

  lemma FirstPacked(row: seq<nat>)
    requires |row| >= 2 && row[0] == 0 && row[1] != 0
    ensures |Packed(row)| > 0 && Packed(row)[0] == row[1]
  {
    hide Packed;
    PackedPrefix(row, 2);
    PackedStep(row, 0);
    PackedStep(row, 1);
    PackedHollow(row[..0]);
  }

  lemma FirstRow(part: Partition, row: seq<nat>)
    requires |row| > 0 && SinglyOk(part, row[0], 1)
    ensures RowOk(part, row, 1)
  {
    hide SinglyOk, PerBlock;
    forall q | 0 < q
      ensures q * PerBlock(part) >= 1
    {
      Scaled(1, q, PerBlock(part));
    }
  }

  lemma EarlyHole(part: Partition, row: seq<nat>)
    requires |row| >= 2 && row[0] == 0 && row[1] != 0
    ensures !NoEarlyHole(part, row, 1)
  {
    assert 0 * PerBlock(part) < 1;
  }

  /** blocksize / 4 * blocksize / 4 is a square: the block size is a multiple of 4. */
  lemma SquareForm(part: Partition)
    ensures PerBlock(part) * BlockSize(part) / 4 == Square(part)
  {
    FourPointers(part);
    SquareIs(part);
    hide BlockSize, PerBlock, Square;
    FourTimes(PerBlock(part), BlockSize(part));
  }

  lemma FourPointers(part: Partition)
    ensures BlockSize(part) == 4 * PerBlock(part)
  {
    hide SectorsPerBlock;
    Quarter(BlockSize(part), SectorsPerBlock(part));
  }

  lemma Quarter(size: nat, n: nat)
    requires size == SECTOR * n
    ensures size == 4 * (size / 4)
  {
    assert size == 4 * (128 * n);
  }

  lemma SquareIs(part: Partition)
    ensures Square(part) == PerBlock(part) * PerBlock(part)
  {
    hide PerBlock;
  }

  lemma FourTimes(p: nat, size: nat)
    requires size == 4 * p
    ensures p * size / 4 == p * p
  {
    assert p * size == 4 * (p * p);
  }

  lemma FirstPart(part: Partition, inode: Inode, was: seq<Bytes>, now: seq<Bytes>, n: nat)
    requires inode.Valid() && n <= DIRECT && FilledFrom(part, was, now, 0, n, k => At(inode.direct, k))
    ensures FileIn(part, inode, was, now, n)
  {
    hide Filled, List, PerBlock, ListPointer, Packed, Level;
  }

  lemma SecondPart(part: Partition, inode: Inode, was: seq<Bytes>, mid: seq<Bytes>, now: seq<Bytes>, at: nat, n: nat)
    requires inode.Valid() && at == DIRECT && n <= PerBlock(part) && FileIn(part, inode, was, mid, at)
    requires FilledFrom(part, mid, now, at, n, k => At(List(part, inode.singly), k))
    ensures FileIn(part, inode, was, now, at + n)
  {
    hide Filled, List, PerBlock, ListPointer, Packed, Level;
  }

  lemma ThirdPart(part: Partition, inode: Inode, was: seq<Bytes>, mid: seq<Bytes>, now: seq<Bytes>, at: nat, n: nat)
    requires inode.Valid() && at == DIRECT + PerBlock(part) && n <= Square(part)
    requires FileIn(part, inode, was, mid, at)
    requires FilledFrom(part, mid, now, at, n, k => ListPointer(part, Packed(List(part, inode.doubly)), k))
    ensures FileIn(part, inode, was, now, at + n)
  {
    hide Filled, List, PerBlock, ListPointer, Packed, Level, Square;
  }

  lemma FourthPart(part: Partition, inode: Inode, was: seq<Bytes>, mid: seq<Bytes>, now: seq<Bytes>, at: nat, n: nat)
    requires inode.Valid() && at == DIRECT + PerBlock(part) + Square(part)
    requires FileIn(part, inode, was, mid, at)
    requires FilledFrom(part, mid, now, at, n, k => ListPointer(part, Packed(Level(part, List(part, inode.triply))), k))
    ensures FileIn(part, inode, was, now, at + n)
  {
    hide Filled, List, PerBlock, ListPointer, Packed, Level, Square;
  }
}
