/** The streaming code of src/kernel/crypto/sha2.c against the padded message of section 5.1.1 of FIPS 180-2. */
module Sha256Stream {
  import opened Sha256
  import opened BlockSplit
  import W = Words

  /** A number in four bytes, the highest first. */
  function Be32(x: nat): (r: Bytes)
    requires x < 0x1_0000_0000
    ensures |r| == 4
  {
    var l := W.Le32(x);
    [l[3], l[2], l[1], l[0]]
  }

  /** A message padded as the code does it: the length in bits in four bytes, behind four zeros. */
  function Padded(m: Bytes): (r: Bytes)
    ensures |r| % BLOCK == 0 && |r| > |m|
  {
    FillRight(|m|);
    m + [0x80] + Zeros(Fill(|m|) - 1) + Zeros(4) + Be32(W.U32(8 * |m|))
  }

  /** A message padded as the standard has it: the length in bits in eight bytes. */
  function StandardPadded(m: Bytes): (r: Bytes)
    requires |m| < 0x2000_0000_0000_0000
    ensures |r| % BLOCK == 0
  {
    FillRight(|m|);
    m + [0x80] + Zeros(Fill(|m|) - 1) + Be32(8 * |m| / 0x1_0000_0000) + Be32(W.U32(8 * |m|))
  }

  lemma BeZero(x: nat)
    requires x < 0x1_0000_0000
    ensures Be32(x) == Zeros(4) <==> x == 0
  {
    hide W.ByteOf, W.IntOf;
    W.WordBack(x);
    W.WordBack(0);
    if Be32(x) == Zeros(4) {
      assert Be32(x)[0] == 0 && Be32(x)[1] == 0 && Be32(x)[2] == 0 && Be32(x)[3] == 0;
      assert W.Le32(x) == [0, 0, 0, 0];
      ZeroBytes();
    }
    ZeroBytes();
  }

  lemma ZeroBytes()
    ensures W.Le32(0) == [0, 0, 0, 0]
  {
    assert W.ByteOf(0) == 0;
    hide W.ByteOf;
  }

  /** The two agree exactly for messages of less than 2^29 bytes. */
  lemma PaddingStandard(m: Bytes)
    requires |m| < 0x2000_0000_0000_0000
    ensures Padded(m) == StandardPadded(m) <==> |m| < 0x2000_0000
  {
    hide Be32, Zeros;
    var front, high, low := m + [0x80] + Zeros(Fill(|m|) - 1), Be32(8 * |m| / 0x1_0000_0000), Be32(W.U32(8 * |m|));
    BeZero(8 * |m| / 0x1_0000_0000);
    assert Padded(m) == front + Zeros(4) + low && StandardPadded(m) == front + high + low;
    if Padded(m) == StandardPadded(m) {
      assert (front + Zeros(4) + low)[|front|..|front| + 4] == Zeros(4);
      assert (front + high + low)[|front|..|front| + 4] == high;
    }
  }

  class Sha256Context {
    const h: array<bv32>
    const block: array<bv8>
    var len: nat
    var totLen: nat

    ghost predicate Valid()
      reads this
    {
      h.Length == 8 && block.Length == 2 * BLOCK && len < BLOCK
    }

    /** The context has taken in this message: its whole blocks are in the hash value, the rest is in the buffer. */
    ghost predicate Absorbed(m: Bytes)
      reads this, h, block
    {
      && Valid() && len == |m| % BLOCK && totLen == W.U32(|m| - |m| % BLOCK)
      && block[..len] == Tail(m) && h[..] == Fold(H0, Front(m))
    }

    constructor ()
      ensures Absorbed([]) && fresh(h) && fresh(block)
    {
      h := new bv32[8](i requires 0 <= i < 8 => H0[i]);
      block := new bv8[2 * BLOCK](_ => 0);
      len, totLen := 0, 0;
      new;
      hide Fold;
      assert h[..] == H0;
      FoldNone(H0);
    }

    method Append(message: array<bv8>, from: nat, n: nat)
      requires Valid() && message != block && from + n <= message.Length && len + n <= 2 * BLOCK
      modifies block
      ensures block[..len + n] == old(block[..len]) + message[from..from + n]
    {
      for k := 0 to n
        invariant block[..len + k] == old(block[..len]) + message[from..from + k]
      {
        block[len + k] := message[from + k];
      }
    }

    /** sha256_update. Its first sum is of 32 bits: the message is taken in unless that wraps around to less than a block. */
    method Update(message: array<bv8>, ghost m: Bytes)
      requires Absorbed(m) && message != block && message.Length < 0x1_0000_0000
      modifies this, h, block
      ensures Valid()
      ensures old(len) + message.Length < 0x1_0000_0000 || W.U32(old(len) + message.Length) >= BLOCK ==> Absorbed(m + message[..])
    {
      hide Fold, Compress, Front, Tail, W.U32;
      var n := message.Length;
      SmallSum(len + n);
      var tmpLen := BLOCK - len;
      var remLen := if n < tmpLen then n else tmpLen;
      Append(message, 0, remLen);
      if W.U32(len + n) < BLOCK {
        if len + n < 0x1_0000_0000 {
          ShortUpdate(m, message[..]);
          assert message[..] == message[0..n];
        }
        len := W.U32(len + n);
        return;
      }
      TakeBlocks(message, remLen, m);
    }

    /** The part of sha256_update for a message that fills the buffer. */
    method TakeBlocks(message: array<bv8>, remLen: nat, ghost m: Bytes)
      requires Valid() && len == |m| % BLOCK && totLen == W.U32(|m| - |m| % BLOCK) && h[..] == Fold(H0, Front(m))
      requires message != block && remLen == BLOCK - len <= message.Length
      requires block[..BLOCK] == Tail(m) + message[..remLen]
      modifies this, h, block
      ensures Absorbed(m + message[..])
    {
      hide Fold, Compress, Front, Tail, W.U32;
      ghost var all, first := message[..], block[..BLOCK];
      var newLen := message.Length - remLen;
      var blocks := newLen / BLOCK;
      Transf(h, block, 0, 1);
      Transf(h, message, remLen, blocks);
      assert message[..remLen] == all[..remLen] && message[remLen..remLen + BLOCK * blocks] == all[remLen..remLen + BLOCK * blocks];
      LongUpdate(m, all, remLen, blocks, first);
      LongLengths(|m|, |all|, remLen, blocks);
      len := 0;
      Append(message, remLen + BLOCK * blocks, newLen % BLOCK);
      len := newLen % BLOCK;
      TotalNext(|m|, |m| + |all|, blocks, totLen);
      totLen := W.U32(totLen + (blocks + 1) * BLOCK);
    }

    /** sha256_final: the padding goes into the buffer, which has room for two blocks. */
    method Final(ghost m: Bytes) returns (digest: Bytes)
      requires Absorbed(m)
      modifies this, h, block
      ensures digest == Digest(Fold(H0, Padded(m)))
    {
      hide Fold, Compress, Padded, Be32;
      var blocks := 1 + if BLOCK - 9 < len % BLOCK then 1 else 0;
      var lengthBits := W.U32(W.U32(totLen + len) * 8);
      var size := blocks * BLOCK;
      PadBlock(size, lengthBits);
      PaddedEnd(m, len, size, lengthBits, totLen);
      Transf(h, block, 0, blocks);
      FoldJoins(H0, Front(m), block[..size]);
      digest := [];
      for i := 0 to 8
        invariant h[..] == Fold(H0, Padded(m)) && digest == Digest(h[..])[..4 * i]
      {
        digest := digest + Unpack(h[i]);
        DigestNext(h[..], i);
      }
    }

    method PadBlock(size: nat, lengthBits: nat)
      requires Valid() && len + 9 <= size <= 2 * BLOCK && lengthBits < 0x1_0000_0000
      modifies block
      ensures block[..size] == old(block[..len]) + [0x80] + Zeros(size - len - 5) + Be32(lengthBits)
    {
      hide Be32;
      ghost var tail := block[..len];
      for k := len to size
        invariant block[..k] == tail + Zeros(k - len)
      {
        block[k] := 0;
      }
      block[len] := 0x80;
      assert block[..size] == tail + [0x80] + Zeros(size - len - 1);
      PutLength(size, lengthBits);
      Zeroed(tail + [0x80], size - len - 1, size - len - 5);
    }

    method PutLength(size: nat, lengthBits: nat)
      requires block.Length == 2 * BLOCK && 4 <= size <= 2 * BLOCK && lengthBits < 0x1_0000_0000
      modifies block
      ensures block[..size] == old(block[..size - 4]) + Be32(lengthBits)
    {
      hide Be32;
      var w := Be32(lengthBits);
      block[size - 1] := w[3];
      block[size - 2] := w[2];
      block[size - 3] := w[1];
      block[size - 4] := w[0];
      assert block[size - 4..size] == w;
      assert block[..size] == block[..size - 4] + block[size - 4..size];
    }
  }

  lemma Zeroed(front: Bytes, n: nat, k: nat)
    requires k <= n
    ensures (front + Zeros(n))[..|front| + k] == front + Zeros(k)
  {
  }

  /** UNPACK32. */
  function Unpack(x: bv32): (r: Bytes)
    ensures |r| == 4
  {
    [((x >> 24) & 0xff) as bv8, ((x >> 16) & 0xff) as bv8, ((x >> 8) & 0xff) as bv8, (x & 0xff) as bv8]
  }

  function Digest(h: Words): (r: Bytes)
    requires |h| == 8
    ensures |r| == 32
  {
    Unpack(h[0]) + Unpack(h[1]) + Unpack(h[2]) + Unpack(h[3]) + Unpack(h[4]) + Unpack(h[5]) + Unpack(h[6]) + Unpack(h[7])
  }

  lemma DigestNext(h: Words, i: nat)
    requires |h| == 8 && i < 8
    ensures Digest(h)[..4 * (i + 1)] == Digest(h)[..4 * i] + Unpack(h[i])
  {
    hide Unpack;
  }

  lemma LengthInBits(n: nat, len: nat, totLen: nat)
    requires len <= n && totLen == W.U32(n - len)
    ensures W.U32(W.U32(totLen + len) * 8) == W.U32(8 * n)
  {
  }

  lemma TwoZeros(n: nat, k: nat)
    ensures Zeros(n) + Zeros(k) == Zeros(n + k)
  {
  }

  lemma TotalNext(n: nat, n': nat, blocks: nat, totLen: nat)
    requires totLen == W.U32(n - n % BLOCK) && n' - n' % BLOCK == n - n % BLOCK + BLOCK * (blocks + 1)
    ensures W.U32(totLen + (blocks + 1) * BLOCK) == W.U32(n' - n' % BLOCK)
  {
  }

  /** What is put behind the rest of the message makes it the padded message. */
  lemma PaddedEnd(m: Bytes, len: nat, size: nat, lengthBits: nat, totLen: nat)
    requires len == |m| % BLOCK && size == (if 55 < len then 2 * BLOCK else BLOCK)
    requires totLen == W.U32(|m| - len) && lengthBits == W.U32(W.U32(totLen + len) * 8)
    ensures Padded(m) == Front(m) + (Tail(m) + [0x80] + Zeros(size - len - 5) + Be32(lengthBits))
  {
    Split(m);
    LengthInBits(|m|, len, totLen);
    TwoZeros(Fill(|m|) - 1, 4);
    hide Be32, Front, Tail, Zeros, W.U32;
    assert Fill(|m|) + 3 == size - len - 5;
  }

  lemma SmallSum(x: nat)
    ensures x < 0x1_0000_0000 ==> W.U32(x) == x
  {
  }

  lemma LongLengths(n: nat, x: nat, rem: nat, blocks: nat)
    requires rem == BLOCK - n % BLOCK <= x && blocks == (x - rem) / BLOCK
    ensures rem + BLOCK * blocks <= x && x - (rem + BLOCK * blocks) == (x - rem) % BLOCK == (n + x) % BLOCK
    ensures n + x - (n + x) % BLOCK == n - n % BLOCK + BLOCK * (blocks + 1)
  {
  }

  lemma Regrouped(front: Bytes, tail: Bytes, x: Bytes, i: nat, j: nat)
    requires i <= j <= |x|
    ensures (front + tail) + x == front + (tail + x[..i]) + x[i..j] + x[j..]
  {
    assert x == x[..i] + x[i..j] + x[j..];
  }

  /** The buffer filled up, then whole blocks straight from the message, then the rest. */
  lemma LongUpdate(m: Bytes, x: Bytes, rem: nat, blocks: nat, first: Bytes)
    requires rem == BLOCK - |m| % BLOCK <= |x| && blocks == (|x| - rem) / BLOCK && first == Tail(m) + x[..rem]
    ensures |first| == BLOCK && rem + BLOCK * blocks <= |x|
    ensures Fold(Fold(Fold(H0, Front(m)), first), x[rem..rem + BLOCK * blocks]) == Fold(H0, Front(m + x))
    ensures Tail(m + x) == x[rem + BLOCK * blocks..]
  {
    hide Fold, Front, Tail;
    LongLengths(|m|, |x|, rem, blocks);
    var middle, rest := x[rem..rem + BLOCK * blocks], x[rem + BLOCK * blocks..];
    Split(m);
    Regrouped(Front(m), Tail(m), x, rem, rem + BLOCK * blocks);
    SplitUnique(Front(m) + first + middle, rest);
    FoldJoins(H0, Front(m), first);
    FoldJoins(H0, Front(m) + first, middle);
  }

  // ----- any split

  function Joined(pieces: seq<Bytes>): Bytes {
    if pieces == [] then [] else Joined(pieces[..|pieces| - 1]) + pieces[|pieces| - 1]
  }

  ghost function Contents(pieces: seq<array<bv8>>): (r: seq<Bytes>)
    reads pieces
    ensures |r| == |pieces|
  {
    seq(|pieces|, i requires 0 <= i < |pieces| reads pieces => pieces[i][..])
  }

  lemma {:induction false} PieceShorter(pieces: seq<Bytes>, k: nat)
    requires k <= |pieces|
    ensures |Joined(pieces[..k])| <= |Joined(pieces)|
    ensures k > 0 ==> |pieces[k - 1]| <= |Joined(pieces)|
  {
    if k == |pieces| {
      assert pieces[..k] == pieces;
    } else {
      PieceShorter(pieces[..|pieces| - 1], k);
      assert pieces[..|pieces| - 1][..k] == pieces[..k];
    }
  }

  /** However a message of less than 2^29 bytes is cut into pieces, the digest is that of the standard. */
  method HashPieces(pieces: seq<array<bv8>>) returns (digest: Bytes)
    requires |Joined(Contents(pieces))| < 0x2000_0000
    ensures digest == Digest(Fold(H0, StandardPadded(Joined(Contents(pieces)))))
  {
    hide Fold, Padded, StandardPadded, Digest;
    ghost var parts := Contents(pieces);
    var ctx := new Sha256Context();
    for k := 0 to |pieces|
      invariant fresh(ctx) && fresh(ctx.h) && fresh(ctx.block) && Contents(pieces) == parts
      invariant ctx.Absorbed(Joined(parts[..k]))
    {
      PieceShorter(parts, k + 1);
      assert parts[..k + 1][..k] == parts[..k];
      ctx.Update(pieces[k], Joined(parts[..k]));
    }
    assert parts[..|pieces|] == parts;
    digest := ctx.Final(Joined(parts));
    PaddingStandard(Joined(parts));
  }
}
