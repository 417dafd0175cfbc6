/** MD5 (src/kernel/crypto/md5.c): the code that takes a message in byte by byte, against the padded message of sections 3.1
    and 3.2 of RFC 1321 and the rounds of section 3.4. */
module Md5 {
  import opened BlockSplit
  import W = Words

  type Words = seq<bv32>

  const INIT: Words := [0x67452301, 0xefcdab89, 0x98badcfe, 0x10325476]

  const K: Words := [
    0xd76aa478, 0xe8c7b756, 0x242070db, 0xc1bdceee, 0xf57c0faf, 0x4787c62a, 0xa8304613, 0xfd469501,
    0x698098d8, 0x8b44f7af, 0xffff5bb1, 0x895cd7be, 0x6b901122, 0xfd987193, 0xa679438e, 0x49b40821,
    0xf61e2562, 0xc040b340, 0x265e5a51, 0xe9b6c7aa, 0xd62f105d, 0x02441453, 0xd8a1e681, 0xe7d3fbc8,
    0x21e1cde6, 0xc33707d6, 0xf4d50d87, 0x455a14ed, 0xa9e3e905, 0xfcefa3f8, 0x676f02d9, 0x8d2a4c8a,
    0xfffa3942, 0x8771f681, 0x6d9d6122, 0xfde5380c, 0xa4beea44, 0x4bdecfa9, 0xf6bb4b60, 0xbebfbc70,
    0x289b7ec6, 0xeaa127fa, 0xd4ef3085, 0x04881d05, 0xd9d4d039, 0xe6db99e5, 0x1fa27cf8, 0xc4ac5665,
    0xf4292244, 0x432aff97, 0xab9423a7, 0xfc93a039, 0x655b59c3, 0x8f0ccc92, 0xffeff47d, 0x85845dd1,
    0x6fa87e4f, 0xfe2ce6e0, 0xa3014314, 0x4e0811a1, 0xf7537e82, 0xbd3af235, 0x2ad7d2bb, 0xeb86d391]

  // ----- the compression function

  function RotateLeft(x: bv32, n: nat): bv32
    requires 0 < n < 32
  {
    (x << n) | (x >> (32 - n))
  }

  /** The function of the round and the word it takes, by quarters. */
  function Mix(b: bv32, c: bv32, d: bv32, i: nat): bv32 {
    if i / 16 == 0 then (b & c) | (!b & d)
    else if i / 16 == 1 then (b & d) | (c & !d)
    else if i / 16 == 2 then b ^ c ^ d
    else c ^ (b | !d)
  }

  function Index(i: nat): (j: nat)
    ensures j < 16
  {
    if i / 16 == 0 then i
    else if i / 16 == 1 then (i * 5 + 1) % 16
    else if i / 16 == 2 then (i * 3 + 5) % 16
    else i * 7 % 16
  }

  /** The new second word: b + rotateLeft(a + e + k + m, s). */
  function Turned(a: bv32, b: bv32, e: bv32, k: bv32, m: bv32, s: nat): bv32
    requires 0 < s < 32
  {
    b + RotateLeft(a + e + k + m, s)
  }

  function Plus(x: bv32, y: bv32): bv32 {
    x + y
  }

  /** The rotations: four amounts a quarter, in turn. */
  function S(i: nat): (s: nat)
    ensures 0 < s < 32
  {
    if i / 16 == 0 then Turn(i, 7, 12, 17, 22)
    else if i / 16 == 1 then Turn(i, 5, 9, 14, 20)
    else if i / 16 == 2 then Turn(i, 4, 11, 16, 23)
    else Turn(i, 6, 10, 15, 21)
  }

  function Turn(i: nat, s0: nat, s1: nat, s2: nat, s3: nat): (s: nat)
    ensures s in {s0, s1, s2, s3}
  {
    if i % 4 == 0 then s0 else if i % 4 == 1 then s1 else if i % 4 == 2 then s2 else s3
  }

  function Rounds(h: Words, words: Words, i: nat): (r: Words)
    requires |h| == 4 && |words| == 16 && i <= |K|
    ensures |r| == 4
  {
    if i == 0 then h else
      var v := Rounds(h, words, i - 1);
      [v[3], Turned(v[0], v[1], Mix(v[1], v[2], v[3], i - 1), K[i - 1], words[Index(i - 1)], S(i - 1)), v[1], v[2]]
  }

  lemma RoundsNone(h: Words, words: Words)
    requires |h| == 4 && |words| == 16
    ensures Rounds(h, words, 0) == h
  {
  }

  lemma RoundsNext(h: Words, words: Words, i: nat, a: bv32, b: bv32, c: bv32, d: bv32)
    requires |h| == 4 && |words| == 16 && i < |K| && [a, b, c, d] == Rounds(h, words, i)
    ensures Rounds(h, words, i + 1) == [d, Turned(a, b, Mix(b, c, d, i), K[i], words[Index(i)], S(i)), b, c]
  {
    hide Mix, Turned, Index, S;
  }

  /** Four bytes, the lowest first. */
  function PackWord(b0: bv8, b1: bv8, b2: bv8, b3: bv8): bv32 {
    ((b3 as bv32) << 24) | ((b2 as bv32) << 16) | ((b1 as bv32) << 8) | (b0 as bv32)
  }

  function WordAt(block: Bytes, j: nat): bv32
    requires |block| == BLOCK && j < 16
  {
    PackWord(block[4 * j], block[4 * j + 1], block[4 * j + 2], block[4 * j + 3])
  }

  function WordsOf(block: Bytes): (r: Words)
    requires |block| == BLOCK
    ensures |r| == 16
  {
    seq(16, j requires 0 <= j < 16 => WordAt(block, j))
  }

  function Added(h: Words, v: Words): (r: Words)
    requires |h| == |v| == 4
    ensures |r| == 4
  {
    [Plus(h[0], v[0]), Plus(h[1], v[1]), Plus(h[2], v[2]), Plus(h[3], v[3])]
  }

  function Compress(h: Words, words: Words): (r: Words)
    requires |h| == 4 && |words| == 16
    ensures |r| == 4
  {
    Added(h, Rounds(h, words, |K|))
  }

  function Fold(h: Words, data: Bytes): (r: Words)
    requires |h| == 4 && |data| % BLOCK == 0
    ensures |r| == 4
    decreases |data|
  {
    if data == [] then h
    else
      WholeBlocks(|data|);
      Fold(Compress(h, WordsOf(data[..BLOCK])), data[BLOCK..])
  }

  lemma WholeBlocks(n: nat)
    requires n % BLOCK == 0 && n > 0
    ensures n >= BLOCK && (n - BLOCK) % BLOCK == 0
  {
  }

  lemma FoldNone(h: Words)
    requires |h| == 4
    ensures Fold(h, []) == h
  {
  }

  lemma {:induction false} FoldNext(h: Words, x: Bytes, block: Bytes)
    requires |h| == 4 && |x| % BLOCK == 0 && |block| == BLOCK
    ensures Fold(h, x + block) == Compress(Fold(h, x), WordsOf(block))
    decreases |x|
  {
    hide Compress, WordsOf;
    if x == [] {
      assert x + block == block && block[..BLOCK] == block && block[BLOCK..] == [];
    } else {
      WholeBlocks(|x|);
      assert (x + block)[..BLOCK] == x[..BLOCK] && (x + block)[BLOCK..] == x[BLOCK..] + block;
      FoldNext(Compress(h, WordsOf(x[..BLOCK])), x[BLOCK..], block);
    }
  }

  /** md5Step. */
  method Step(buffer: array<bv32>, input: array<bv32>)
    requires buffer.Length == 4 && input.Length == 16 && buffer != input
    modifies buffer
    ensures buffer[..] == Compress(old(buffer[..]), input[..])
  {
    hide Mix, Turned, Plus, Index, S, Rounds;
    RoundsNone(buffer[..], input[..]);
    ghost var was, words := buffer[..], input[..];
    var a, b, c, d := buffer[0], buffer[1], buffer[2], buffer[3];
    for i := 0 to |K|
      invariant [a, b, c, d] == Rounds(was, words, i) && buffer[..] == was && input[..] == words
    {
      RoundsNext(was, words, i, a, b, c, d);
      var e := Mix(b, c, d, i);
      var j := Index(i);
      var temp := d;
      d := c;
      c := b;
      b := Turned(a, b, e, K[i], input[j], S(i));
      a := temp;
    }
    buffer[0] := Plus(buffer[0], a);
    buffer[1] := Plus(buffer[1], b);
    buffer[2] := Plus(buffer[2], c);
    buffer[3] := Plus(buffer[3], d);
    assert buffer[..] == Added(was, [a, b, c, d]);
  }

  // ----- the context

  /** An integer as a word: the bytes it is stored as, put together. */
  function WordOfInt(x: nat): bv32
    requires x < 0x1_0000_0000
  {
    var b := W.Le32(x);
    PackWord(b[0], b[1], b[2], b[3])
  }

  function U64(x: nat): (r: nat)
    ensures r < 0x1_0000_0000_0000_0000
  {
    x % 0x1_0000_0000_0000_0000
  }

  /** The length in bits, as its two words in eight bytes. */
  function LengthField(bits: nat): (r: Bytes)
    requires bits < 0x1_0000_0000_0000_0000
    ensures |r| == 8
  {
    W.Le32(W.U32(bits)) + W.Le32(bits / 0x1_0000_0000)
  }

  /** The padded message: a one bit, zeros up to 8 bytes before a whole block, the low 64 bits of the length. */
  function Padded(m: Bytes): (r: Bytes)
    ensures |r| % BLOCK == 0
  {
    FillRight(|m|);
    m + [0x80] + Zeros(Fill(|m|) - 1) + LengthField(U64(8 * |m|))
  }

  class Md5Context {
    var size: nat
    const buffer: array<bv32>
    const input: array<bv8>

    ghost predicate Valid()
      reads this
    {
      buffer.Length == 4 && input.Length == BLOCK && size < 0x1_0000_0000_0000_0000
    }

    /** The context has taken in this message, up to this offset in its buffer of one block. */
    ghost predicate Holds(m: Bytes, offset: nat)
      reads this, buffer, input
    {
      Valid() && offset == |m| % BLOCK && input[..offset] == Tail(m) && buffer[..] == Fold(INIT, Front(m))
    }

    ghost predicate Absorbed(m: Bytes)
      reads this, buffer, input
    {
      Holds(m, |m| % BLOCK) && size == U64(|m|)
    }

    constructor ()
      ensures Absorbed([]) && fresh(buffer) && fresh(input)
    {
      buffer := new bv32[4](i requires 0 <= i < 4 => INIT[i]);
      input := new bv8[BLOCK](_ => 0);
      size := 0;
      new;
      hide Fold;
      assert buffer[..] == INIT;
      FoldNone(INIT);
    }

    /** The words of the full buffer, and a step on them. */
    method StepBuffer()
      requires Valid()
      modifies buffer
      ensures buffer[..] == Compress(old(buffer[..]), WordsOf(input[..]))
    {
      hide PackWord, Compress;
      var words := new bv32[16];
      ghost var was, block := buffer[..], input[..];
      for j := 0 to 16
        invariant forall i | 0 <= i < j :: words[i] == WordAt(block, i)
        invariant buffer[..] == was
      {
        words[j] := PackWord(input[4 * j], input[4 * j + 1], input[4 * j + 2], input[4 * j + 3]);
      }
      assert words[..] == WordsOf(block);
      Step(buffer, words);
    }

    /** One round of md5Update's loop. */
    method TakeByte(b: bv8, offset: nat, ghost m: Bytes) returns (next: nat)
      requires Holds(m, offset)
      modifies buffer, input
      ensures Holds(m + [b], next)
    {
      hide Fold, Compress, WordsOf, Front, Tail;
      input[offset] := b;
      next := offset + 1;
      if next % BLOCK == 0 {
        assert input[..] == Tail(m) + [b];
        StepBuffer();
        LastByte(m, b);
        FoldNext(INIT, Front(m), Tail(m) + [b]);
        next := 0;
      } else {
        ShortUpdate(m, [b]);
      }
    }

    /** md5Update. The size is of 64 bits. */
    method Update(data: array<bv8>, n: nat, ghost m: Bytes)
      requires Absorbed(m) && data != input && n <= data.Length
      modifies this, buffer, input
      ensures Absorbed(m + data[..n])
    {
      hide Fold, Front, Tail;
      SizeOffset(|m|);
      var offset: nat := size % BLOCK;
      size := U64(size + n);
      assert m + data[..0] == m;
      for i := 0 to n
        invariant Holds(m + data[..i], offset)
        invariant size == U64(U64(|m|) + n)
      {
        offset := TakeByte(data[i], offset, m + data[..i]);
        assert m + data[..i] + [data[i]] == m + data[..i + 1];
      }
      SizeNext(|m|, n);
    }

    /** The words of the last block: 14 from the buffer, then the length in bits. */
    method LastWords(bits: nat) returns (words: array<bv32>)
      requires Valid() && bits < 0x1_0000_0000_0000_0000
      ensures fresh(words) && words.Length == 16 && words[..] == WordsOf(input[..56] + LengthField(bits))
    {
      hide PackWord, LengthField, WordOfInt;
      words := new bv32[16];
      ghost var block := input[..56] + LengthField(bits);
      for j := 0 to 14
        invariant forall i | 0 <= i < j :: words[i] == WordAt(block, i)
      {
        words[j] := PackWord(input[4 * j], input[4 * j + 1], input[4 * j + 2], input[4 * j + 3]);
      }
      LengthWords(input[..56], bits);
      words[14] := WordOfInt(W.U32(bits));
      words[15] := WordOfInt(bits / 0x1_0000_0000);
      assert words[..] == WordsOf(block);
    }

    /** md5Finalize: the padding goes through md5Update, the length straight into the last two words. */
    method Final(ghost m: Bytes) returns (digest: Bytes)
      requires Absorbed(m)
      modifies this, buffer, input
      ensures digest == Digest(Fold(INIT, Padded(m)))
    {
      hide Fold, Compress, WordsOf, LengthField, Front, Tail, Padded;
      SizeOffset(|m|);
      var offset := size % BLOCK;
      var padding := if offset < 56 then 56 - offset else 56 + 64 - offset;
      var bytes := new bv8[BLOCK](i => if i == 0 then 0x80 else 0);
      assert padding == Fill(|m|) && bytes[..padding] == [0x80] + Zeros(padding - 1);
      Update(bytes, padding, m);
      ghost var m2 := m + ([0x80] + Zeros(padding - 1));
      FilledUp(m, padding);
      SizeBack(|m|, padding);
      size := U64(size + 0x1_0000_0000_0000_0000 - padding);
      var words := LastWords(U64(size * 8));
      PaddedEnd(m, m2, padding);
      FoldNext(INIT, Front(m2), Tail(m2) + LengthField(U64(8 * |m|)));
      Step(buffer, words);
      digest := Digest(buffer[..]);
    }
  }

  function Unpack(x: bv32): (r: Bytes)
    ensures |r| == 4
  {
    [(x & 0xff) as bv8, ((x & 0xff00) >> 8) as bv8, ((x & 0xff_0000) >> 16) as bv8, ((x & 0xff00_0000) >> 24) as bv8]
  }

  function Digest(h: Words): (r: Bytes)
    requires |h| == 4
    ensures |r| == 16
  {
    Unpack(h[0]) + Unpack(h[1]) + Unpack(h[2]) + Unpack(h[3])
  }

  lemma LengthWords(front: Bytes, bits: nat)
    requires |front| == 56 && bits < 0x1_0000_0000_0000_0000
    ensures WordAt(front + LengthField(bits), 14) == WordOfInt(W.U32(bits))
    ensures WordAt(front + LengthField(bits), 15) == WordOfInt(bits / 0x1_0000_0000)
  {
    hide PackWord, W.Le32;
  }

  lemma FilledUp(m: Bytes, padding: nat)
    requires padding == Fill(|m|)
    ensures |m + ([0x80] + Zeros(padding - 1))| % BLOCK == 56
  {
  }

  lemma Shifted(n: nat, x: nat, k: int)
    requires x == n + k * 0x1_0000_0000_0000_0000
    ensures U64(x) == U64(n)
  {
  }

  lemma SizeBack(n: nat, padding: nat)
    requires padding < 0x1_0000_0000_0000_0000
    ensures U64(U64(n + padding) + 0x1_0000_0000_0000_0000 - padding) == U64(n)
    ensures U64(U64(n) * 8) == U64(8 * n)
  {
    Shifted(n, U64(n + padding) + 0x1_0000_0000_0000_0000 - padding, 1 - (n + padding) / 0x1_0000_0000_0000_0000);
    Shifted(8 * n, U64(n) * 8, -8 * (n / 0x1_0000_0000_0000_0000));
  }

  lemma PaddedEnd(m: Bytes, m2: Bytes, padding: nat)
    requires padding == Fill(|m|) && m2 == m + ([0x80] + Zeros(padding - 1))
    ensures Padded(m) == Front(m2) + (Tail(m2) + LengthField(U64(8 * |m|)))
  {
    hide Front, Tail, LengthField, Zeros;
    Split(m2);
    assert m + [0x80] + Zeros(padding - 1) == m2;
    assert m2 + LengthField(U64(8 * |m|)) == Front(m2) + (Tail(m2) + LengthField(U64(8 * |m|)));
  }

  lemma SizeOffset(n: nat)
    ensures U64(n) % BLOCK == n % BLOCK
  {
  }

  lemma SizeNext(m: nat, n: nat)
    ensures U64(U64(m) + n) == U64(m + n)
  {
  }

  lemma LastByte(m: Bytes, b: bv8)
    requires |m| % BLOCK == BLOCK - 1
    ensures Front(m + [b]) == Front(m) + (Tail(m) + [b]) && Tail(m + [b]) == [] && |m + [b]| % BLOCK == 0
  {
    Split(m);
    assert m + [b] == Front(m) + (Tail(m) + [b]) + [];
    SplitUnique(Front(m) + (Tail(m) + [b]), []);
  }

  // ----- any split

  /** However a message is cut into pieces, the digest is that of the padded message. */
  method HashPieces(data: array<bv8>, cuts: seq<nat>) returns (digest: Bytes)
    requires forall k | 0 <= k < |cuts| :: cuts[k] <= data.Length
    requires forall j, k | 0 <= j < k < |cuts| :: cuts[j] <= cuts[k]
    ensures digest == Digest(Fold(INIT, Padded(data[..])))
  {
    hide *;
    var ctx := new Md5Context();
    var done: nat := 0;
    assert data[..0] == [];
    for k := 0 to |cuts|
      invariant fresh(ctx) && fresh(ctx.buffer) && fresh(ctx.input)
      invariant done == if k == 0 then 0 else cuts[k - 1]
      invariant ctx.Absorbed(data[..done])
    {
      done := TakePiece(ctx, data, done, cuts[k]);
    }
    done := TakePiece(ctx, data, done, data.Length);
    assert data[..done] == data[..];
    digest := ctx.Final(data[..done]);
  }

  method TakePiece(ctx: Md5Context, data: array<bv8>, from: nat, to: nat) returns (done: nat)
    requires from <= to <= data.Length && ctx.Absorbed(data[..from]) && data != ctx.input
    modifies ctx, ctx.buffer, ctx.input
    ensures done == to && ctx.Absorbed(data[..to])
  {
    hide *;
    ghost var all := data[..];
    var piece := new bv8[to - from](i requires 0 <= i < to - from reads data => data[from + i]);
    ctx.Update(piece, to - from, data[..from]);
    assert all[..from] + piece[..to - from] == all[..to];
    done := to;
  }
}
