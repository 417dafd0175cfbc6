/** SHA-256 (src/kernel/crypto/sha2.c, src/include/kernel/crypto/sha2.h): the compression function as section 6.2 of FIPS 180-2
    states it, the padded message of section 5.1.1, and the streaming code that never holds a whole message. */
module Sha256 {
  import opened BlockSplit

  type Words = seq<bv32>

  const H0: Words := [0x6a09e667, 0xbb67ae85, 0x3c6ef372, 0xa54ff53a,
    0x510e527f, 0x9b05688c, 0x1f83d9ab, 0x5be0cd19]

  const K: Words := [
    0x428a2f98, 0x71374491, 0xb5c0fbcf, 0xe9b5dba5, 0x3956c25b, 0x59f111f1, 0x923f82a4, 0xab1c5ed5,
    0xd807aa98, 0x12835b01, 0x243185be, 0x550c7dc3, 0x72be5d74, 0x80deb1fe, 0x9bdc06a7, 0xc19bf174,
    0xe49b69c1, 0xefbe4786, 0x0fc19dc6, 0x240ca1cc, 0x2de92c6f, 0x4a7484aa, 0x5cb0a9dc, 0x76f988da,
    0x983e5152, 0xa831c66d, 0xb00327c8, 0xbf597fc7, 0xc6e00bf3, 0xd5a79147, 0x06ca6351, 0x14292967,
    0x27b70a85, 0x2e1b2138, 0x4d2c6dfc, 0x53380d13, 0x650a7354, 0x766a0abb, 0x81c2c92e, 0x92722c85,
    0xa2bfe8a1, 0xa81a664b, 0xc24b8b70, 0xc76c51a3, 0xd192e819, 0xd6990624, 0xf40e3585, 0x106aa070,
    0x19a4c116, 0x1e376c08, 0x2748774c, 0x34b0bcb5, 0x391c0cb3, 0x4ed8aa4a, 0x5b9cca4f, 0x682e6ff3,
    0x748f82ee, 0x78a5636f, 0x84c87814, 0x8cc70208, 0x90befffa, 0xa4506ceb, 0xbef9a3f7, 0xc67178f2]

  // ----- the compression function

  function RotR(x: bv32, n: nat): bv32
    requires 0 < n < 32
  {
    (x >> n) | (x << (32 - n))
  }

  function F1(x: bv32): bv32 {
    RotR(x, 2) ^ RotR(x, 13) ^ RotR(x, 22)
  }

  function F2(x: bv32): bv32 {
    RotR(x, 6) ^ RotR(x, 11) ^ RotR(x, 25)
  }

  function F3(x: bv32): bv32 {
    RotR(x, 7) ^ RotR(x, 18) ^ (x >> 3)
  }

  function F4(x: bv32): bv32 {
    RotR(x, 17) ^ RotR(x, 19) ^ (x >> 10)
  }

  function Ch(x: bv32, y: bv32, z: bv32): bv32 {
    (x & y) ^ (!x & z)
  }

  function Maj(x: bv32, y: bv32, z: bv32): bv32 {
    (x & y) ^ (x & z) ^ (y & z)
  }

  /** PACK32: four bytes, the highest first. */
  function PackWord(b0: bv8, b1: bv8, b2: bv8, b3: bv8): bv32 {
    (b3 as bv32) | ((b2 as bv32) << 8) | ((b1 as bv32) << 16) | ((b0 as bv32) << 24)
  }

  /** SHA256_SCR. */
  function Extend(w2: bv32, w7: bv32, w15: bv32, w16: bv32): bv32 {
    F4(w2) + w7 + F3(w15) + w16
  }

  function Plus(x: bv32, y: bv32): bv32 {
    x + y
  }

  function T1(e: bv32, f: bv32, g: bv32, h: bv32, k: bv32, w: bv32): bv32 {
    h + F2(e) + Ch(e, f, g) + k + w
  }

  function T2(a: bv32, b: bv32, c: bv32): bv32 {
    F1(a) + Maj(a, b, c)
  }

  /** Word t of the message schedule. */
  function W(block: Bytes, t: nat): bv32
    requires |block| == BLOCK && t < 64
  {
    if t < 16 then PackWord(block[4 * t], block[4 * t + 1], block[4 * t + 2], block[4 * t + 3])
    else Extend(W(block, t - 2), W(block, t - 7), W(block, t - 15), W(block, t - 16))
  }

  /** One round on the working variables a to h. */
  function Round(v: Words, k: bv32, w: bv32): (r: Words)
    requires |v| == 8
    ensures |r| == 8
  {
    var t1, t2 := T1(v[4], v[5], v[6], v[7], k, w), T2(v[0], v[1], v[2]);
    [Plus(t1, t2), v[0], v[1], v[2], Plus(v[3], t1), v[4], v[5], v[6]]
  }

  function Rounds(h: Words, block: Bytes, t: nat): (r: Words)
    requires |h| == 8 && |block| == BLOCK && t <= |K|
    ensures |r| == 8
  {
    if t == 0 then h else Round(Rounds(h, block, t - 1), K[t - 1], W(block, t - 1))
  }

  /** The hash value after one more block. */
  function Compress(h: Words, block: Bytes): (r: Words)
    requires |h| == 8 && |block| == BLOCK
    ensures |r| == 8
  {
    var v := Rounds(h, block, |K|);
    seq(8, i requires 0 <= i < 8 => Plus(h[i], v[i]))
  }

  function Fold(h: Words, data: Bytes): (r: Words)
    requires |h| == 8 && |data| % BLOCK == 0
    ensures |r| == 8
    decreases |data|
  {
    if data == [] then h
    else
      WholeBlocks(|data|);
      Fold(Compress(h, data[..BLOCK]), data[BLOCK..])
  }

  lemma WholeBlocks(n: nat)
    requires n % BLOCK == 0 && n > 0
    ensures n >= BLOCK && (n - BLOCK) % BLOCK == 0
  {
  }

  lemma {:induction false} FoldJoins(h: Words, x: Bytes, y: Bytes)
    requires |h| == 8 && |x| % BLOCK == 0 && |y| % BLOCK == 0
    ensures Fold(h, x + y) == Fold(Fold(h, x), y)
    decreases |x|
  {
    hide Compress;
    if x == [] {
      assert x + y == y;
    } else {
      assert (x + y)[..BLOCK] == x[..BLOCK] && (x + y)[BLOCK..] == x[BLOCK..] + y;
      FoldJoins(Compress(h, x[..BLOCK]), x[BLOCK..], y);
    }
  }

  lemma FoldOne(h: Words, block: Bytes)
    requires |h| == 8 && |block| == BLOCK
    ensures Fold(h, block) == Compress(h, block)
  {
    hide Compress;
    assert block[..BLOCK] == block && block[BLOCK..] == [];
  }

  // ----- sha256_transf

  lemma WordEarly(block: Bytes, t: nat)
    requires |block| == BLOCK && t < 16
    ensures W(block, t) == PackWord(block[4 * t], block[4 * t + 1], block[4 * t + 2], block[4 * t + 3])
  {
  }

  lemma WordLate(block: Bytes, t: nat)
    requires |block| == BLOCK && 16 <= t < 64
    ensures W(block, t) == Extend(W(block, t - 2), W(block, t - 7), W(block, t - 15), W(block, t - 16))
  {
  }

  method Schedule(message: array<bv8>, at: nat) returns (w: array<bv32>)
    requires at + BLOCK <= message.Length
    ensures fresh(w) && w.Length == 64 && forall t | 0 <= t < 64 :: w[t] == W(message[at..at + BLOCK], t)
  {
    hide PackWord, Extend, W;
    w := new bv32[64];
    ghost var block := message[at..at + BLOCK];
    for j := 0 to 16
      invariant forall t | 0 <= t < j :: w[t] == W(block, t)
    {
      var k := at + 4 * j;
      WordEarly(block, j);
      w[j] := PackWord(message[k], message[k + 1], message[k + 2], message[k + 3]);
    }
    for j := 16 to 64
      invariant forall t | 0 <= t < j :: w[t] == W(block, t)
    {
      WordLate(block, j);
      w[j] := Extend(w[j - 2], w[j - 7], w[j - 15], w[j - 16]);
    }
  }

  /** The working variables move one place on, through t1 and t2. */
  method RoundInPlace(wv: array<bv32>, k: bv32, w: bv32)
    requires wv.Length == 8
    modifies wv
    ensures wv[..] == Round(old(wv[..]), k, w)
  {
    hide T1, T2, Plus, Round;
    var t1 := T1(wv[4], wv[5], wv[6], wv[7], k, w);
    var t2 := T2(wv[0], wv[1], wv[2]);
    ghost var was := wv[..];
    wv[7] := wv[6];
    wv[6] := wv[5];
    wv[5] := wv[4];
    wv[4] := Plus(wv[3], t1);
    wv[3] := wv[2];
    wv[2] := wv[1];
    wv[1] := wv[0];
    wv[0] := Plus(t1, t2);
    RoundIs(was, wv[..], k, w);
  }

  lemma RoundIs(was: Words, now: Words, k: bv32, w: bv32)
    requires |was| == |now| == 8
    requires var t1, t2 := T1(was[4], was[5], was[6], was[7], k, w), T2(was[0], was[1], was[2]);
             now[0] == Plus(t1, t2) && now[4] == Plus(was[3], t1)
    requires now[1] == was[0] && now[2] == was[1] && now[3] == was[2] && now[5] == was[4] && now[6] == was[5] && now[7] == was[6]
    ensures now == Round(was, k, w)
  {
    hide T1, T2, Plus;
  }

  method CompressBlock(h: array<bv32>, message: array<bv8>, at: nat)
    requires h.Length == 8 && at + BLOCK <= message.Length
    modifies h
    ensures h[..] == Compress(old(h[..]), message[at..at + BLOCK])
  {
    hide Round, W, Plus;
    ghost var was, block := h[..], message[at..at + BLOCK];
    var w := Schedule(message, at);
    var wv := new bv32[8];
    for j := 0 to 8
      invariant wv[..j] == was[..j] && h[..] == was
      invariant forall t | 0 <= t < 64 :: w[t] == W(block, t)
    {
      wv[j] := h[j];
    }
    assert wv[..] == was;
    for j := 0 to |K|
      invariant wv[..] == Rounds(was, block, j) && h[..] == was
      invariant forall t | 0 <= t < 64 :: w[t] == W(block, t)
    {
      RoundInPlace(wv, K[j], w[j]);
    }
    ghost var v := Rounds(was, block, |K|);
    for j := 0 to 8
      invariant forall i | 0 <= i < 8 :: h[i] == if i < j then Plus(was[i], v[i]) else was[i]
      invariant wv[..] == v
    {
      assert wv[j] == v[j];
      h[j] := Plus(h[j], wv[j]);
    }
    assert h[..] == Compress(was, block);
  }

  /** sha256_transf. */
  method Transf(h: array<bv32>, message: array<bv8>, at: nat, blocks: nat)
    requires h.Length == 8 && at + BLOCK * blocks <= message.Length
    modifies h
    ensures h[..] == Fold(old(h[..]), message[at..at + BLOCK * blocks])
  {
    hide Compress, Fold;
    ghost var was, all := h[..], message[..];
    FoldNone(was);
    assert message[at..at + BLOCK * 0] == [];
    for i := 0 to blocks
      invariant h[..] == Fold(was, message[at..at + BLOCK * i])
    {
      var k := at + BLOCK * i;
      CompressBlock(h, message, k);
      FoldOne(Fold(was, message[at..k]), message[k..k + BLOCK]);
      FoldJoins(was, message[at..k], message[k..k + BLOCK]);
      assert message[at..k] + message[k..k + BLOCK] == message[at..k + BLOCK];
    }
  }

  lemma FoldNone(h: Words)
    requires |h| == 8
    ensures Fold(h, []) == h
  {
  }
}
