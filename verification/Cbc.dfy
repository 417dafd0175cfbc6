/** Cipher block chaining (src/kernel/crypto/aes.c) as functions on whole messages. */
module Cbc {
  import opened Aes

  predicate Usable(keys: Bytes, rounds: nat) {
    IsKey(keys, rounds) && rounds >= 1
  }

  /** Each block is added to the ciphertext of the one before, and enciphered. */
  function CbcEncrypt(data: Bytes, iv: Bytes, keys: Bytes, rounds: nat): (r: Bytes)
    requires |data| % BLOCK == 0 && |iv| == BLOCK && Usable(keys, rounds)
    ensures |r| == |data|
  {
    if data == [] then [] else
      var c := CipherOf(AddKey(data[..BLOCK], iv), keys, rounds);
      c + CbcEncrypt(data[BLOCK..], c, keys, rounds)
  }

  function CbcDecrypt(data: Bytes, iv: Bytes, keys: Bytes, rounds: nat): (r: Bytes)
    requires |data| % BLOCK == 0 && |iv| == BLOCK && Usable(keys, rounds)
    ensures |r| == |data|
  {
    if data == [] then [] else
      AddKey(InvCipherOf(data[..BLOCK], keys, rounds), iv) + CbcDecrypt(data[BLOCK..], data[..BLOCK], keys, rounds)
  }

  /** What the next block is chained to after this ciphertext. */
  function LastBlock(iv: Bytes, cipher: Bytes): (r: Bytes)
    requires |cipher| % BLOCK == 0 && |iv| == BLOCK
    ensures |r| == BLOCK
  {
    if cipher == [] then iv else cipher[|cipher| - BLOCK..]
  }

  /** Decrypting with the same vector gives the data back. */
  lemma {:induction false} CbcInverse(data: Bytes, iv: Bytes, keys: Bytes, rounds: nat)
    requires |data| % BLOCK == 0 && |iv| == BLOCK && Usable(keys, rounds)
    ensures CbcDecrypt(CbcEncrypt(data, iv, keys, rounds), iv, keys, rounds) == data
  {
    hide CipherOf, InvCipherOf, AddKey;
    if data != [] {
      var p := AddKey(data[..BLOCK], iv);
      var c := CipherOf(p, keys, rounds);
      var rest := CbcEncrypt(data[BLOCK..], c, keys, rounds);
      assert (c + rest)[..BLOCK] == c && (c + rest)[BLOCK..] == rest;
      CipherInverse(p, keys, rounds);
      AddKeyInverse(data[..BLOCK], iv);
      CbcInverse(data[BLOCK..], c, keys, rounds);
    }
  }

  /** Encrypting in two calls, the second with the last block of the first, is encrypting in one. */
  lemma {:induction false} EncryptJoins(x: Bytes, y: Bytes, iv: Bytes, keys: Bytes, rounds: nat)
    requires |x| % BLOCK == 0 && |y| % BLOCK == 0 && |iv| == BLOCK && Usable(keys, rounds)
    ensures var c := CbcEncrypt(x, iv, keys, rounds);
            CbcEncrypt(x + y, iv, keys, rounds) == c + CbcEncrypt(y, LastBlock(iv, c), keys, rounds)
  {
    hide CipherOf, AddKey;
    if x == [] {
      assert x + y == y;
    } else {
      var c := CipherOf(AddKey(x[..BLOCK], iv), keys, rounds);
      var rest := CbcEncrypt(x[BLOCK..], c, keys, rounds);
      assert (x + y)[..BLOCK] == x[..BLOCK] && (x + y)[BLOCK..] == x[BLOCK..] + y;
      EncryptJoins(x[BLOCK..], y, c, keys, rounds);
      assert LastBlock(c, rest) == LastBlock(iv, c + rest);
    }
  }

  lemma {:induction false} DecryptJoins(x: Bytes, y: Bytes, iv: Bytes, keys: Bytes, rounds: nat)
    requires |x| % BLOCK == 0 && |y| % BLOCK == 0 && |iv| == BLOCK && Usable(keys, rounds)
    ensures CbcDecrypt(x + y, iv, keys, rounds)
            == CbcDecrypt(x, iv, keys, rounds) + CbcDecrypt(y, LastBlock(iv, x), keys, rounds)
  {
    hide InvCipherOf, AddKey;
    if x == [] {
      assert x + y == y;
    } else {
      assert (x + y)[..BLOCK] == x[..BLOCK] && (x + y)[BLOCK..] == x[BLOCK..] + y;
      DecryptJoins(x[BLOCK..], y, x[..BLOCK], keys, rounds);
      assert LastBlock(x[..BLOCK], x[BLOCK..]) == LastBlock(iv, x);
    }
  }

  /** Block i as section 6.2 of NIST SP 800-38A has it: the cipher of the plaintext block added to ciphertext block i - 1,
      the vector for the first. */
  lemma {:induction false} CbcBlock(data: Bytes, iv: Bytes, keys: Bytes, rounds: nat, i: nat)
    requires |data| % BLOCK == 0 && |iv| == BLOCK && Usable(keys, rounds) && BLOCK * i < |data|
    ensures var c := CbcEncrypt(data, iv, keys, rounds);
            c[BLOCK * i..BLOCK * i + BLOCK]
            == CipherOf(AddKey(data[BLOCK * i..BLOCK * i + BLOCK], if i == 0 then iv else c[BLOCK * (i - 1)..BLOCK * i]), keys, rounds)
  {
    hide CipherOf, AddKey;
    var first := CipherOf(AddKey(data[..BLOCK], iv), keys, rounds);
    var rest := CbcEncrypt(data[BLOCK..], first, keys, rounds);
    if i > 0 {
      CbcBlock(data[BLOCK..], first, keys, rounds, i - 1);
      assert data[BLOCK..][BLOCK * (i - 1)..BLOCK * (i - 1) + BLOCK] == data[BLOCK * i..BLOCK * i + BLOCK];
      assert (first + rest)[BLOCK * i..BLOCK * i + BLOCK] == rest[BLOCK * (i - 1)..BLOCK * (i - 1) + BLOCK];
      if i > 1 {
        assert (first + rest)[BLOCK * (i - 1)..BLOCK * i] == rest[BLOCK * (i - 2)..BLOCK * (i - 1)];
      }
    }
  }
}
