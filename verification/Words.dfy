/** Little-endian words as the tools and the kernel store them. */
module Words {

  type Bytes = seq<bv8>

  function U32(x: int): (r: nat)
    ensures r < 0x1_0000_0000
  {
    x % 0x1_0000_0000
  }

  /** The byte with these bits, the lowest first. */
  function Pack(b0: bool, b1: bool, b2: bool, b3: bool, b4: bool, b5: bool, b6: bool, b7: bool): bv8 {
    (if b0 then 1 else 0) | (if b1 then 2 else 0) | (if b2 then 4 else 0) | (if b3 then 8 else 0)
    | (if b4 then 16 else 0) | (if b5 then 32 else 0) | (if b6 then 64 else 0) | (if b7 then 128 else 0)
  }

  function Weigh(b0: bool, b1: bool, b2: bool, b3: bool, b4: bool, b5: bool, b6: bool, b7: bool): (n: int)
    ensures 0 <= n < 256
  {
    (if b0 then 1 else 0) + (if b1 then 2 else 0) + (if b2 then 4 else 0) + (if b3 then 8 else 0)
    + (if b4 then 16 else 0) + (if b5 then 32 else 0) + (if b6 then 64 else 0) + (if b7 then 128 else 0)
  }

  predicate Odd(x: int) {
    x % 2 == 1
  }

  function ByteOf(x: int): bv8
    requires 0 <= x < 256
  {
    var x1 := x / 2;
    var x2 := x1 / 2;
    var x3 := x2 / 2;
    var x4 := x3 / 2;
    var x5 := x4 / 2;
    var x6 := x5 / 2;
    var x7 := x6 / 2;
    Pack(Odd(x), Odd(x1), Odd(x2), Odd(x3), Odd(x4), Odd(x5), Odd(x6), Odd(x7))
  }

  function IntOf(b: bv8): (n: int)
    ensures 0 <= n < 256
  {
    Weigh(b & 1 != 0, b & 2 != 0, b & 4 != 0, b & 8 != 0, b & 16 != 0, b & 32 != 0, b & 64 != 0, b & 128 != 0)
  }

  lemma PackedBits(b0: bool, b1: bool, b2: bool, b3: bool, b4: bool, b5: bool, b6: bool, b7: bool)
    ensures IntOf(Pack(b0, b1, b2, b3, b4, b5, b6, b7)) == Weigh(b0, b1, b2, b3, b4, b5, b6, b7)
  {
    hide Weigh;
  }

  lemma Halves(x: int, half: int)
    requires 0 <= x < 2 * half
    ensures 0 <= x / 2 < half && x == 2 * (x / 2) + if Odd(x) then 1 else 0
  {
  }

  lemma WeighedHalves(x: int, x1: int, x2: int, x3: int, x4: int, x5: int, x6: int, x7: int,
                      b0: bool, b1: bool, b2: bool, b3: bool, b4: bool, b5: bool, b6: bool, b7: bool)
    requires x == 2 * x1 + (if b0 then 1 else 0) && x1 == 2 * x2 + (if b1 then 1 else 0)
    requires x2 == 2 * x3 + (if b2 then 1 else 0) && x3 == 2 * x4 + (if b3 then 1 else 0)
    requires x4 == 2 * x5 + (if b4 then 1 else 0) && x5 == 2 * x6 + (if b5 then 1 else 0)
    requires x6 == 2 * x7 + (if b6 then 1 else 0) && x7 == (if b7 then 1 else 0)
    ensures Weigh(b0, b1, b2, b3, b4, b5, b6, b7) == x
  {
  }

  lemma ByteBack(x: int)
    requires 0 <= x < 256
    ensures IntOf(ByteOf(x)) == x
  {
    var x1 := x / 2;
    var x2 := x1 / 2;
    var x3 := x2 / 2;
    var x4 := x3 / 2;
    var x5 := x4 / 2;
    var x6 := x5 / 2;
    var x7 := x6 / 2;
    PackedBits(Odd(x), Odd(x1), Odd(x2), Odd(x3), Odd(x4), Odd(x5), Odd(x6), Odd(x7));
    hide IntOf, Pack, Odd, Weigh;
    Halves(x, 128);
    Halves(x1, 64);
    Halves(x2, 32);
    Halves(x3, 16);
    Halves(x4, 8);
    Halves(x5, 4);
    Halves(x6, 2);
    Halves(x7, 1);
    WeighedHalves(x, x1, x2, x3, x4, x5, x6, x7, Odd(x), Odd(x1), Odd(x2), Odd(x3), Odd(x4), Odd(x5), Odd(x6), Odd(x7));
  }

  function Le32(x: int): (r: Bytes)
    requires 0 <= x < 0x1_0000_0000
    ensures |r| == 4
  {
    [ByteOf(x % 256), ByteOf(x / 256 % 256), ByteOf(x / 256 / 256 % 256), ByteOf(x / 256 / 256 / 256)]
  }

  function FromLe32(b: Bytes): (r: nat)
    requires |b| == 4
    ensures r < 0x1_0000_0000
  {
    FromDigits(IntOf(b[0]), IntOf(b[1]), IntOf(b[2]), IntOf(b[3]))
  }

  function FromDigits(a: int, b: int, c: int, d: int): (r: nat)
    requires 0 <= a < 256 && 0 <= b < 256 && 0 <= c < 256 && 0 <= d < 256
    ensures r < 0x1_0000_0000
  {
    a + 256 * (b + 256 * (c + 256 * d))
  }

  /** Reading a word gives the number that was written. */
  lemma WordBack(x: int)
    requires 0 <= x < 0x1_0000_0000
    ensures FromLe32(Le32(x)) == x
  {
    hide ByteOf, IntOf;
    ByteBack(x % 256);
    ByteBack(x / 256 % 256);
    ByteBack(x / 256 / 256 % 256);
    ByteBack(x / 256 / 256 / 256);
  }
}
