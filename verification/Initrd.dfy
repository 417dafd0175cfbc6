/** The kernel's side of the ramdisk (src/kernel/nucleus.c, src/kernel/initrd.c): it is decrypted where it lies in memory,
    its offsets are made absolute, and files are read from it. Memory is an array indexed by address. */
module Initrd {
  import opened Options
  import opened Words
  import opened InitrdImage
  import opened Aes
  import opened Cbc
  import opened AesCbc

  const EISDIR := 21
  const OFFSET_FIELD := 80
  const LENGTH_FIELD := 84
  const MODE_FIELD := 76

  /** The word at an address. */
  function WordOf(mem: Bytes, address: nat): nat
    requires address + 4 <= |mem|
  {
    FromLe32(mem[address..address + 4])
  }

  function HeaderAddress(location: nat, i: nat): nat {
    location + 4 + HEADER * i
  }

  // ----- decryption

  /** The bytes to decrypt lie within memory: a length of at least the vector's is in front. */
  predicate Payloaded(b: Bytes, at: nat) {
    at + 24 <= |b| && FromLe32(b[at..at + 4]) >= BLOCK && at + 24 + Covered(FromLe32(b[at..at + 4]) - BLOCK) <= |b|
  }

  /** Behind the length and the vector the ciphertext is decrypted, and nothing else changes. */
  ghost predicate Deciphered(was: Bytes, now: Bytes, at: nat, keys: Bytes)
    requires Payloaded(was, at) && Usable(keys, 14)
  {
    var n, start := Covered(FromLe32(was[at..at + 4]) - BLOCK), at + 24;
    && |now| == |was| && now[..start] == was[..start] && now[start + n..] == was[start + n..]
    && now[start..start + n] == CbcDecrypt(was[start..start + n], was[at + 8..at + 24], keys, 14)
  }

  /** decrypt_initrd: the length in front, the vector, then the ciphertext, decrypted in place. Only the low four bytes of the
      length are used: the shifts of the others are wider than the type. */
  method DecryptInitrd(mem: array<bv8>, at: nat, key: array<bv8>) returns (start: nat, ghost keys: Bytes)
    requires key.Length == 32 && key != mem && Payloaded(mem[..], at)
    modifies mem
    ensures start == at + 24 && Usable(keys, 14)
    ensures forall i: nat | i < 60 :: ScheduleIndex(i, 8) && Scheduled(keys, key[..], i, 8)
    ensures Deciphered(old(mem[..]), mem[..], at, keys)
  {
    hide CbcDecrypt, Scheduled, Usable, Deciphered, FromLe32, Covered, LastBlock;
    var ctx := MakeContext(mem, at, key);
    keys := ctx.roundKey[..];
    var length := ReadLength(mem, at);
    start := at + 24;
    ghost var was, n := mem[..], Covered(length - BLOCK);
    assert ctx.iv[..] == was[at + 8..at + 24] && mem[start..start + n] == was[start..start + n];
    ctx.DecryptBuffer(mem, start, length - BLOCK);
    DecipheredParts(was, mem[..], at, n, keys, mem[start..start + n]);
  }

  /** The four bytes put together. */
  method ReadLength(mem: array<bv8>, at: nat) returns (length: nat)
    requires at + 4 <= mem.Length
    ensures length == FromLe32(mem[..][at..at + 4])
  {
    hide IntOf;
    length := IntOf(mem[at]) + 256 * (IntOf(mem[at + 1]) + 256 * (IntOf(mem[at + 2]) + 256 * IntOf(mem[at + 3])));
  }

  lemma DecipheredParts(was: Bytes, now: Bytes, at: nat, n: nat, keys: Bytes, plain: Bytes)
    requires Payloaded(was, at) && Usable(keys, 14) && n == Covered(FromLe32(was[at..at + 4]) - BLOCK) && |now| == |was|
    requires now[..at + 24] == was[..at + 24] && now[at + 24 + n..] == was[at + 24 + n..] && now[at + 24..at + 24 + n] == plain
    requires plain == CbcDecrypt(was[at + 24..at + 24 + n], was[at + 8..at + 24], keys, 14)
    ensures Deciphered(was, now, at, keys)
  {
    hide CbcDecrypt, FromLe32, Covered, Usable;
  }

  /** The expanded key and a copy of the vector. */
  method MakeContext(mem: array<bv8>, at: nat, key: array<bv8>) returns (ctx: AesContext)
    requires key.Length == 32 && at + 24 <= mem.Length
    ensures fresh(ctx) && fresh(ctx.roundKey) && fresh(ctx.iv) && ctx.Valid() && ctx.rounds == 14
    ensures ctx.iv[..] == mem[at + 8..at + 24] && ctx.roundKey.Length == BLOCK * 15
    ensures forall i: nat | i < 60 :: ScheduleIndex(i, 8) && Scheduled(ctx.roundKey[..], key[..], i, 8)
  {
    hide Scheduled;
    var roundKey := new bv8[BLOCK * 15];
    KeyExpansion(roundKey, key, 8, 14);
    var iv := new bv8[BLOCK];
    assert State(mem, at + 8) == mem[at + 8..at + 24];
    CopyBlock(mem, at + 8, iv);
    ctx := new AesContext(roundKey, iv, 14);
  }

  // ----- relocation

  /** Every header but the first has its offset moved by the location, and nothing else changes. */
  ghost predicate Relocated(was: Bytes, now: Bytes, location: nat, k: nat, n: nat)
    requires HeaderAddress(location, n) <= |was| && k <= n
  {
    && |now| == |was|
    && (forall i: nat | 1 <= i < k :: WordOf(now, HeaderAddress(location, i) + OFFSET_FIELD)
                                      == U32(WordOf(was, HeaderAddress(location, i) + OFFSET_FIELD) + location))
    && (forall a: nat | a < |was| && !InOffset(a, location, k) :: now[a] == was[a])
  }

  /** The address is in the offset field of a header from the second up to the k-th. */
  ghost predicate InOffset(a: nat, location: nat, k: nat) {
    exists i: nat :: 1 <= i < k && InField(a, location, i)
  }

  predicate InField(a: nat, location: nat, i: nat) {
    HeaderAddress(location, i) + OFFSET_FIELD <= a < HeaderAddress(location, i) + OFFSET_FIELD + 4
  }

  method PutWord32(mem: array<bv8>, address: nat, x: nat)
    requires address + 4 <= mem.Length && x < 0x1_0000_0000
    modifies mem
    ensures WordOf(mem[..], address) == x
    ensures mem[..address] == old(mem[..address]) && mem[address + 4..] == old(mem[address + 4..])
  {
    hide ByteOf, IntOf, FromLe32, Le32;
    var w := Le32(x);
    mem[address] := w[0];
    mem[address + 1] := w[1];
    mem[address + 2] := w[2];
    mem[address + 3] := w[3];
    assert mem[..][address..address + 4] == w;
    WordBack(x);
  }

  /** init_initrd. */
  method InitInitrd(mem: array<bv8>, location: nat)
    requires location + 4 <= mem.Length && HeaderAddress(location, WordOf(mem[..], location)) <= mem.Length
    modifies mem
    ensures Relocated(old(mem[..]), mem[..], location, old(WordOf(mem[..], location)), old(WordOf(mem[..], location)))
  {
    hide Relocated, FromLe32;
    ghost var was := mem[..];
    var n := WordOf(mem[..], location);
    if n == 0 {
      RelocatedNone(was, location, n, 0);
      return;
    }
    RelocatedNone(was, location, n, 1);
    var i := 1;
    while i < n
      invariant 1 <= i <= n && Relocated(was, mem[..], location, i, n)
    {
      var field := HeaderAddress(location, i) + OFFSET_FIELD;
      ghost var mid := mem[..];
      PutWord32(mem, field, U32(WordOf(mem[..], field) + location));
      RelocatedNext(was, mid, mem[..], location, i, n);
      i := i + 1;
    }
  }

  lemma RelocatedNone(was: Bytes, location: nat, n: nat, k: nat)
    requires HeaderAddress(location, n) <= |was| && k <= n && k <= 1
    ensures Relocated(was, was, location, k, n)
  {
  }

  /** Fields of different headers do not overlap. */
  lemma FieldApart(a: nat, location: nat, i: nat, j: nat)
    requires i != j && InField(a, location, j)
    ensures !InField(a, location, i)
  {
  }

  lemma SameWord(b: Bytes, c: Bytes, address: nat)
    requires |b| == |c| && address + 4 <= |b| && forall a: nat | address <= a < address + 4 :: b[a] == c[a]
    ensures WordOf(b, address) == WordOf(c, address)
  {
    assert b[address..address + 4] == c[address..address + 4];
  }

  lemma RelocatedNext(was: Bytes, mid: Bytes, now: Bytes, location: nat, k: nat, n: nat)
    requires HeaderAddress(location, n) <= |was| && 1 <= k < n && Relocated(was, mid, location, k, n) && |now| == |mid|
    requires var field := HeaderAddress(location, k) + OFFSET_FIELD;
             && now[..field] == mid[..field] && now[field + 4..] == mid[field + 4..]
             && WordOf(now, field) == U32(WordOf(mid, field) + location)
    ensures Relocated(was, now, location, k + 1, n)
  {
    hide FromLe32, WordOf;
    var field := HeaderAddress(location, k) + OFFSET_FIELD;
    forall a: nat | a < |was| && !InField(a, location, k)
      ensures now[a] == mid[a]
    {
      assert a < field ==> now[..field][a] == mid[..field][a];
      assert a >= field + 4 ==> now[field + 4..][a - field - 4] == mid[field + 4..][a - field - 4];
    }
    forall i: nat | 1 <= i < k + 1
      ensures WordOf(now, HeaderAddress(location, i) + OFFSET_FIELD)
              == U32(WordOf(was, HeaderAddress(location, i) + OFFSET_FIELD) + location)
    {
      if i < k {
        SameWord(now, mid, HeaderAddress(location, i) + OFFSET_FIELD);
      } else {
        forall a: nat | field <= a < field + 4
          ensures mid[a] == was[a]
        {
          OnlyField(a, location, k);
        }
        SameWord(mid, was, field);
      }
    }
    forall a: nat | a < |was| && !InOffset(a, location, k + 1)
      ensures now[a] == was[a]
    {
      assert !InField(a, location, k);
      InOffsetGrows(a, location, k);
    }
  }

  lemma InOffsetGrows(a: nat, location: nat, k: nat)
    ensures InOffset(a, location, k) ==> InOffset(a, location, k + 1)
  {
  }

  lemma OnlyField(a: nat, location: nat, k: nat)
    requires InField(a, location, k)
    ensures !InOffset(a, location, k)
  {
    forall i: nat | 1 <= i < k
      ensures !InField(a, location, i)
    {
      FieldApart(a, location, i, k);
    }
  }

  // ----- reading files

  class OpenFile {
    const ino: nat
    var offset: nat

    constructor (ino: nat)
      ensures this.ino == ino && offset == 0
    {
      this.ino, offset := ino, 0;
    }
  }

  predicate IsDirectory(mode: nat) {
    mode / 0x1000 % 16 == 4
  }

  /** How many bytes a read copies. The offset is of 64 bits, so the sum that is compared with the file's length does not wrap around. */
  function ReadCount(offset: nat, length: nat, size: nat): nat {
    if offset >= size then 0
    else if offset + length > size then size - offset
    else length
  }

  /** Nothing behind the end, else the smaller of what is asked for and what is left; repeated reads reach the end and stay there. */
  lemma ReadCountRight(offset: nat, length: nat, more: nat, size: nat)
    requires offset <= size
    ensures offset + ReadCount(offset, length, size) == if offset + length < size then offset + length else size
    ensures ReadCount(offset, length + more, size)
         == ReadCount(offset, length, size) + ReadCount(offset + ReadCount(offset, length, size), more, size)
  {
  }

  /** What a read returns, where it leaves the file, and what the buffer then starts with. */
  predicate ReadOutcome(mem: Bytes, header: nat, offset: nat, length: nat, r: Option<int>, offset': nat, buf: Bytes)
    requires header + HEADER <= |mem|
  {
    var mode, start, size := WordOf(mem, header + MODE_FIELD), WordOf(mem, header + OFFSET_FIELD), WordOf(mem, header + LENGTH_FIELD);
    var n, from := ReadCount(offset, length, size), U32(start + offset);
    if IsDirectory(mode) then r == Some(-EISDIR) && offset' == offset
    else if n == 0 then r == Some(0) && offset' == offset
    else if from + n > |mem| then r == None
    else r == Some(n) && offset' == offset + n && n <= |buf| && buf[..n] == mem[from..from + n]
  }

  /** initrd_read: minus EISDIR for a directory, 0 at the end, else the number of bytes copied; nothing when the copy would
      leave memory. */
  method Read(mem: array<bv8>, location: nat, file: OpenFile, buf: array<bv8>, length: nat) returns (r: Option<int>)
    requires HeaderAddress(location, file.ino + 1) <= mem.Length && buf != mem && length <= buf.Length && length < 0x1_0000_0000
    modifies file`offset, buf
    ensures mem[..] == old(mem[..])
    ensures ReadOutcome(mem[..], HeaderAddress(location, file.ino), old(file.offset), length, r, file.offset, buf[..])
  {
    hide FromLe32, WordOf, IsDirectory;
    var header := HeaderAddress(location, file.ino);
    var mode, start, size := WordOf(mem[..], header + MODE_FIELD), WordOf(mem[..], header + OFFSET_FIELD),
                             WordOf(mem[..], header + LENGTH_FIELD);
    if IsDirectory(mode) {
      return Some(-EISDIR);
    }
    if file.offset >= size {
      return Some(0);
    }
    var n := length;
    if file.offset + length > size {
      n := size - file.offset;
    }
    if n == 0 {
      return Some(0);
    }
    var from := U32(start + file.offset);
    if from + n > mem.Length {
      return None;
    }
    assert n == ReadCount(file.offset, length, size) <= length;
    hide U32, ReadCount;
    for k := 0 to n
      invariant file.offset == old(file.offset) && n <= buf.Length && buf[..k] == mem[from..from + k]
    {
      buf[k] := mem[from + k];
    }
    file.offset := file.offset + n;
    r := Some(n);
    assert mem[..] == old(mem[..]);
  }
}
