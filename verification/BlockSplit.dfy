/** Messages cut into blocks of 64 bytes, as both hash functions take them in. */
module BlockSplit {

  type Bytes = seq<bv8>

  const BLOCK := 64

  function Zeros(n: nat): (r: Bytes)
    ensures |r| == n
  {
    seq(n, _ => 0)
  }

  /** Bytes of padding before the length field of eight bytes, the first one included. */
  function Fill(n: nat): nat {
    if n % BLOCK < 56 then 56 - n % BLOCK else 120 - n % BLOCK
  }

  lemma FillRight(n: nat)
    ensures Fill(n) >= 1 && (n + Fill(n) + 8) % BLOCK == 0
  {
  }

  /** The bytes of a message that are not in whole blocks. */
  function Tail(m: Bytes): (r: Bytes)
    ensures |r| == |m| % BLOCK
  {
    m[|m| - |m| % BLOCK..]
  }

  function Front(m: Bytes): (r: Bytes)
    ensures |r| % BLOCK == 0 && |r| == |m| - |m| % BLOCK
  {
    m[..|m| - |m| % BLOCK]
  }

  lemma Split(m: Bytes)
    ensures m == Front(m) + Tail(m)
  {
  }

  /** A message in whole blocks and a rest is split that way. */
  lemma SplitUnique(front: Bytes, tail: Bytes)
    requires |front| % BLOCK == 0 && |tail| < BLOCK
    ensures Front(front + tail) == front && Tail(front + tail) == tail
  {
    assert |front + tail| % BLOCK == |tail|;
  }

  lemma ShortUpdate(m: Bytes, x: Bytes)
    requires |m| % BLOCK + |x| < BLOCK
    ensures Front(m + x) == Front(m) && Tail(m + x) == Tail(m) + x
  {
    Split(m);
    assert m + x == Front(m) + (Tail(m) + x);
    SplitUnique(Front(m), Tail(m) + x);
  }
}
