/** The AES block cipher (src/kernel/crypto/aes.c) as functions on a state of 16 bytes: byte 4c + r is row r of column c.
    The round keys are any 16 * (rounds + 1) bytes. */
module Aes {
  import opened AesTables

  type Bytes = seq<bv8>

  // ----- the field

  /** xtime: multiplication by x in GF(2^8). */
  function XTime(x: bv8): bv8 {
    (x << 1) ^ (((x >> 7) & 1) * 0x1b)
  }

  /** The macro Multiply, for factors below 32. */
  function Multiply(x: bv8, y: bv8): bv8 {
    ((y & 1) * x) ^ (((y >> 1) & 1) * XTime(x)) ^ (((y >> 2) & 1) * XTime(XTime(x)))
    ^ (((y >> 3) & 1) * XTime(XTime(XTime(x)))) ^ (((y >> 4) & 1) * XTime(XTime(XTime(XTime(x)))))
  }

  function Sum2(a: bv8, b: bv8): bv8 {
    a ^ b
  }

  function Sum3(a: bv8, b: bv8, c: bv8): bv8 {
    a ^ b ^ c
  }

  function Sum4(a: bv8, b: bv8, c: bv8, d: bv8): bv8 {
    a ^ b ^ c ^ d
  }

  lemma XTimeLinear(x: bv8, y: bv8)
    ensures XTime(Sum2(x, y)) == Sum2(XTime(x), XTime(y))
  {
  }

  /** The factors of InvMixColumns, as sums of powers of x. */
  lemma MultiplyForms(x: bv8)
    ensures Multiply(x, 0x0e) == Sum3(XTime(x), XTime(XTime(x)), XTime(XTime(XTime(x))))
    ensures Multiply(x, 0x0b) == Sum3(x, XTime(x), XTime(XTime(XTime(x))))
    ensures Multiply(x, 0x0d) == Sum3(x, XTime(XTime(x)), XTime(XTime(XTime(x))))
    ensures Multiply(x, 0x09) == Sum2(x, XTime(XTime(XTime(x))))
  {
    hide XTime;
  }

  lemma LeftSum(a: bv8, b: bv8, c: bv8)
    ensures Sum2(Sum2(a, b), c) == Sum3(a, b, c)
  {
  }

  lemma RightSum(a: bv8, b: bv8, c: bv8)
    ensures Sum2(a, Sum2(b, c)) == Sum3(a, b, c)
  {
  }

  lemma SumLaws(a: bv8, b: bv8, c: bv8)
    ensures Sum2(a, b) == Sum2(b, a)
    ensures Sum2(Sum2(a, b), c) == Sum2(a, Sum2(b, c)) == Sum3(a, b, c)
  {
    assert Sum2(a, b) == Sum2(b, a);
    hide Sum2, Sum3;
    LeftSum(a, b, c);
    RightSum(a, b, c);
  }

  lemma Swap(a: bv8, b: bv8, c: bv8, d: bv8)
    ensures Sum2(Sum2(a, b), Sum2(c, d)) == Sum2(Sum2(a, c), Sum2(b, d))
  {
    hide Sum2;
    SumLaws(a, b, Sum2(c, d));
    SumLaws(b, c, d);
    SumLaws(c, b, d);
    SumLaws(a, c, Sum2(b, d));
  }

  lemma SumOfSums(x1: bv8, x2: bv8, x3: bv8, z1: bv8, z2: bv8, z3: bv8)
    ensures Sum3(Sum2(x1, z1), Sum2(x2, z2), Sum2(x3, z3)) == Sum2(Sum3(x1, x2, x3), Sum3(z1, z2, z3))
    ensures Sum2(Sum2(x1, z1), Sum2(x3, z3)) == Sum2(Sum2(x1, x3), Sum2(z1, z3))
  {
    hide Sum2, Sum3;
    SumLaws(x1, x2, x3);
    SumLaws(z1, z2, z3);
    SumLaws(Sum2(x1, z1), Sum2(x2, z2), Sum2(x3, z3));
    Swap(x1, z1, x2, z2);
    Swap(Sum2(x1, x2), Sum2(z1, z2), x3, z3);
    Swap(x1, z1, x3, z3);
  }

  predicate Factor(y: bv8) {
    y == 0x0e || y == 0x0b || y == 0x0d || y == 0x09
  }

  lemma MultiplyLinear(x: bv8, z: bv8, y: bv8)
    requires Factor(y)
    ensures Multiply(Sum2(x, z), y) == Sum2(Multiply(x, y), Multiply(z, y))
  {
    hide XTime, Multiply, Sum2, Sum3;
    MultiplyForms(x);
    MultiplyForms(z);
    MultiplyForms(Sum2(x, z));
    var x1, x2, x3 := XTime(x), XTime(XTime(x)), XTime(XTime(XTime(x)));
    var z1, z2, z3 := XTime(z), XTime(XTime(z)), XTime(XTime(XTime(z)));
    XTimeLinear(x, z);
    XTimeLinear(x1, z1);
    XTimeLinear(x2, z2);
    SumOfSums(x1, x2, x3, z1, z2, z3);
    SumOfSums(x, x1, x3, z, z1, z3);
    SumOfSums(x, x2, x3, z, z2, z3);
  }

  // ----- one column

  /** One byte of MixColumns, from its column read downwards from that byte. */
  function Mixed(a: bv8, b: bv8, c: bv8, d: bv8): bv8 {
    Sum2(a, Sum2(XTime(Sum2(a, b)), Sum4(a, b, c, d)))
  }

  /** One byte of InvMixColumns. */
  function InvMixed(a: bv8, b: bv8, c: bv8, d: bv8): bv8 {
    Sum4(Multiply(a, 0x0e), Multiply(b, 0x0b), Multiply(c, 0x0d), Multiply(d, 0x09))
  }

  function Triple(x: bv8): bv8 {
    Sum2(XTime(x), x)
  }

  /** MixColumns is the matrix of section 5.1.3 of FIPS 197, with the row 02, 03, 01, 01. */
  lemma MixedMatrix(a: bv8, b: bv8, c: bv8, d: bv8)
    ensures Mixed(a, b, c, d) == Sum4(XTime(a), Triple(b), c, d)
  {
    hide XTime, Sum2, Sum4;
    XTimeLinear(a, b);
    var a2, b2 := XTime(a), XTime(b);
    TwiceCancels(a, a2, b2, b, c, d);
  }

  lemma TwiceCancels(a: bv8, a2: bv8, b2: bv8, b: bv8, c: bv8, d: bv8)
    ensures Sum2(a, Sum2(Sum2(a2, b2), Sum4(a, b, c, d))) == Sum4(a2, Sum2(b2, b), c, d)
  {
  }

  /** The inverse matrix times the matrix, one coefficient at a time: 1 on the diagonal, 0 elsewhere. */
  lemma Coefficients(a: bv8)
    ensures Sum4(Multiply(XTime(a), 0x0e), Multiply(a, 0x0b), Multiply(a, 0x0d), Multiply(Triple(a), 0x09)) == a
    ensures Sum4(Multiply(Triple(a), 0x0e), Multiply(XTime(a), 0x0b), Multiply(a, 0x0d), Multiply(a, 0x09)) == 0
    ensures Sum4(Multiply(a, 0x0e), Multiply(Triple(a), 0x0b), Multiply(XTime(a), 0x0d), Multiply(a, 0x09)) == 0
    ensures Sum4(Multiply(a, 0x0e), Multiply(a, 0x0b), Multiply(Triple(a), 0x0d), Multiply(XTime(a), 0x09)) == 0
  {
  }

  lemma FourIsTwoTwos(p: bv8, q: bv8, r: bv8, s: bv8)
    ensures Sum4(p, q, r, s) == Sum2(Sum2(p, q), Sum2(r, s))
  {
  }

  lemma MultiplyFour(p: bv8, q: bv8, r: bv8, s: bv8, y: bv8)
    requires Factor(y)
    ensures Multiply(Sum4(p, q, r, s), y) == Sum4(Multiply(p, y), Multiply(q, y), Multiply(r, y), Multiply(s, y))
  {
    hide Multiply, Sum2, Sum4;
    FourIsTwoTwos(p, q, r, s);
    FourIsTwoTwos(Multiply(p, y), Multiply(q, y), Multiply(r, y), Multiply(s, y));
    MultiplyLinear(Sum2(p, q), Sum2(r, s), y);
    MultiplyLinear(p, q, y);
    MultiplyLinear(r, s, y);
  }

  lemma SumRows(p0: bv8, p1: bv8, p2: bv8, p3: bv8, q0: bv8, q1: bv8, q2: bv8, q3: bv8)
    ensures Sum2(Sum4(p0, p1, p2, p3), Sum4(q0, q1, q2, q3)) == Sum4(Sum2(p0, q3), Sum2(p1, q0), Sum2(p2, q1), Sum2(p3, q2))
  {
    hide Sum2, Sum4;
    FourIsTwoTwos(p0, p1, p2, p3);
    FourIsTwoTwos(q3, q0, q1, q2);
    FourRotates(q0, q1, q2, q3);
    FourIsTwoTwos(Sum2(p0, q3), Sum2(p1, q0), Sum2(p2, q1), Sum2(p3, q2));
    Swap(Sum2(p0, p1), Sum2(p2, p3), Sum2(q3, q0), Sum2(q1, q2));
    Swap(p0, p1, q3, q0);
    Swap(p2, p3, q1, q2);
  }

  lemma FourRotatesOnce(q0: bv8, q1: bv8, q2: bv8, q3: bv8)
    ensures Sum4(q0, q1, q2, q3) == Sum4(q3, q0, q1, q2)
  {
  }

  lemma FourRotates(q0: bv8, q1: bv8, q2: bv8, q3: bv8)
    ensures Sum4(q0, q1, q2, q3) == Sum4(q3, q0, q1, q2) == Sum4(q2, q3, q0, q1) == Sum4(q1, q2, q3, q0)
  {
    hide Sum4;
    FourRotatesOnce(q0, q1, q2, q3);
    FourRotatesOnce(q3, q0, q1, q2);
    FourRotatesOnce(q2, q3, q0, q1);
  }

  /** Sixteen terms add up the same by rows and by columns. */
  lemma Transpose(p0: bv8, p1: bv8, p2: bv8, p3: bv8, q0: bv8, q1: bv8, q2: bv8, q3: bv8,
                  r0: bv8, r1: bv8, r2: bv8, r3: bv8, s0: bv8, s1: bv8, s2: bv8, s3: bv8)
    ensures Sum4(Sum4(p0, p1, p2, p3), Sum4(q0, q1, q2, q3), Sum4(r0, r1, r2, r3), Sum4(s0, s1, s2, s3))
            == Sum4(Sum4(p0, q3, r2, s1), Sum4(p1, q0, r3, s2), Sum4(p2, q1, r0, s3), Sum4(p3, q2, r1, s0))
  {
    hide Sum2, Sum4;
    SumRows(p0, p1, p2, p3, q0, q1, q2, q3);
    SumRows(r0, r1, r2, r3, s0, s1, s2, s3);
    FourIsTwoTwos(Sum4(p0, p1, p2, p3), Sum4(q0, q1, q2, q3), Sum4(r0, r1, r2, r3), Sum4(s0, s1, s2, s3));
    SumColumns(Sum2(p0, q3), Sum2(p1, q0), Sum2(p2, q1), Sum2(p3, q2), Sum2(r0, s3), Sum2(r1, s0), Sum2(r2, s1), Sum2(r3, s2));
    FourIsTwoTwos(p0, q3, r2, s1);
    FourIsTwoTwos(p1, q0, r3, s2);
    FourIsTwoTwos(p2, q1, r0, s3);
    FourIsTwoTwos(p3, q2, r1, s0);
  }

  lemma SumColumns(p0: bv8, p1: bv8, p2: bv8, p3: bv8, q0: bv8, q1: bv8, q2: bv8, q3: bv8)
    ensures Sum2(Sum4(p0, p1, p2, p3), Sum4(q0, q1, q2, q3)) == Sum4(Sum2(p0, q2), Sum2(p1, q3), Sum2(p2, q0), Sum2(p3, q1))
  {
    hide Sum2, Sum4;
    FourRotates(q0, q1, q2, q3);
    SumRows(p0, p1, p2, p3, q3, q0, q1, q2);
  }

  lemma SumOfZeros(a: bv8)
    ensures Sum4(a, 0, 0, 0) == a
  {
  }

  /** Unmixing a mixed column gives its bytes back. */
  lemma ColumnInverse(a: bv8, b: bv8, c: bv8, d: bv8)
    ensures InvMixed(Mixed(a, b, c, d), Mixed(b, c, d, a), Mixed(c, d, a, b), Mixed(d, a, b, c)) == a
  {
    hide XTime, Multiply, Mixed, Sum4, Triple;
    MixedMatrix(a, b, c, d);
    MixedMatrix(b, c, d, a);
    MixedMatrix(c, d, a, b);
    MixedMatrix(d, a, b, c);
    MultiplyFour(XTime(a), Triple(b), c, d, 0x0e);
    MultiplyFour(XTime(b), Triple(c), d, a, 0x0b);
    MultiplyFour(XTime(c), Triple(d), a, b, 0x0d);
    MultiplyFour(XTime(d), Triple(a), b, c, 0x09);
    Transpose(Multiply(XTime(a), 0x0e), Multiply(Triple(b), 0x0e), Multiply(c, 0x0e), Multiply(d, 0x0e),
              Multiply(XTime(b), 0x0b), Multiply(Triple(c), 0x0b), Multiply(d, 0x0b), Multiply(a, 0x0b),
              Multiply(XTime(c), 0x0d), Multiply(Triple(d), 0x0d), Multiply(a, 0x0d), Multiply(b, 0x0d),
              Multiply(XTime(d), 0x09), Multiply(Triple(a), 0x09), Multiply(b, 0x09), Multiply(c, 0x09));
    Coefficients(a);
    Coefficients(b);
    Coefficients(c);
    Coefficients(d);
    SumOfZeros(a);
  }

  // ----- the layers

  const BLOCK := 16

  /** AddRoundKey: the state plus 16 bytes of the round keys. */
  function AddKey(s: Bytes, key: Bytes): (r: Bytes)
    requires |s| == |key| == BLOCK
    ensures |r| == BLOCK
  {
    seq(BLOCK, i requires 0 <= i < BLOCK => s[i] ^ key[i])
  }

  function SubBytesOf(s: Bytes): (r: Bytes)
    requires |s| == BLOCK
    ensures |r| == BLOCK
  {
    seq(BLOCK, i requires 0 <= i < BLOCK => SBox(s[i]))
  }

  function InvSubBytesOf(s: Bytes): (r: Bytes)
    requires |s| == BLOCK
    ensures |r| == BLOCK
  {
    seq(BLOCK, i requires 0 <= i < BLOCK => InvSBox(s[i]))
  }

  /** Where ShiftRows takes byte i from: row r moves r columns to the left. */
  function ShiftFrom(i: nat): (j: nat)
    requires i < BLOCK
    ensures j < BLOCK
  {
    match i
    case 0 => 0 case 1 => 5 case 2 => 10 case 3 => 15 case 4 => 4 case 5 => 9 case 6 => 14 case 7 => 3
    case 8 => 8 case 9 => 13 case 10 => 2 case 11 => 7 case 12 => 12 case 13 => 1 case 14 => 6 case _ => 11
  }

  /** Where InvShiftRows takes byte i from: row r moves r columns to the right. */
  function InvShiftFrom(i: nat): (j: nat)
    requires i < BLOCK
    ensures j < BLOCK
  {
    match i
    case 0 => 0 case 1 => 13 case 2 => 10 case 3 => 7 case 4 => 4 case 5 => 1 case 6 => 14 case 7 => 11
    case 8 => 8 case 9 => 5 case 10 => 2 case 11 => 15 case 12 => 12 case 13 => 9 case 14 => 6 case _ => 3
  }

  /** The byte below byte i in its column, around the end. */
  function Next(i: nat): (j: nat)
    requires i < BLOCK
    ensures j < BLOCK
  {
    match i
    case 0 => 1 case 1 => 2 case 2 => 3 case 3 => 0 case 4 => 5 case 5 => 6 case 6 => 7 case 7 => 4
    case 8 => 9 case 9 => 10 case 10 => 11 case 11 => 8 case 12 => 13 case 13 => 14 case 14 => 15 case _ => 12
  }

  function ShiftRowsOf(s: Bytes): (r: Bytes)
    requires |s| == BLOCK
    ensures |r| == BLOCK
  {
    seq(BLOCK, i requires 0 <= i < BLOCK => s[ShiftFrom(i)])
  }

  function InvShiftRowsOf(s: Bytes): (r: Bytes)
    requires |s| == BLOCK
    ensures |r| == BLOCK
  {
    seq(BLOCK, i requires 0 <= i < BLOCK => s[InvShiftFrom(i)])
  }

  /** Section 5.1.2 of FIPS 197: byte (row, column) comes from column + row, around the end. */
  lemma ShiftRowsAt(s: Bytes, row: nat, column: nat)
    requires |s| == BLOCK && row < 4 && column < 4
    ensures ShiftRowsOf(s)[4 * column + row] == s[4 * ((column + row) % 4) + row]
    ensures InvShiftRowsOf(s)[4 * ((column + row) % 4) + row] == s[4 * column + row]
  {
  }

  function MixedFrom(s: Bytes, i: nat): bv8
    requires |s| == BLOCK && i < BLOCK
  {
    Mixed(s[i], s[Next(i)], s[Next(Next(i))], s[Next(Next(Next(i)))])
  }

  function UnmixedFrom(s: Bytes, i: nat): bv8
    requires |s| == BLOCK && i < BLOCK
  {
    InvMixed(s[i], s[Next(i)], s[Next(Next(i))], s[Next(Next(Next(i)))])
  }

  function MixColumnsOf(s: Bytes): (r: Bytes)
    requires |s| == BLOCK
    ensures |r| == BLOCK
  {
    seq(BLOCK, i requires 0 <= i < BLOCK => MixedFrom(s, i))
  }

  function InvMixColumnsOf(s: Bytes): (r: Bytes)
    requires |s| == BLOCK
    ensures |r| == BLOCK
  {
    seq(BLOCK, i requires 0 <= i < BLOCK => UnmixedFrom(s, i))
  }

  lemma AddKeyInverse(s: Bytes, key: Bytes)
    requires |s| == |key| == BLOCK
    ensures AddKey(AddKey(s, key), key) == s
  {
    forall i | 0 <= i < BLOCK
      ensures AddKey(AddKey(s, key), key)[i] == s[i]
    {
      assert AddKey(s, key)[i] == s[i] ^ key[i];
      XorTwice(s[i], key[i]);
    }
  }

  lemma XorTwice(a: bv8, k: bv8)
    ensures (a ^ k) ^ k == a
  {
  }

  lemma SubBytesInverse(s: Bytes)
    requires |s| == BLOCK
    ensures InvSubBytesOf(SubBytesOf(s)) == s
  {
    hide SBox, InvSBox;
    forall i | 0 <= i < BLOCK
      ensures InvSubBytesOf(SubBytesOf(s))[i] == s[i]
    {
      SBoxInverse(s[i]);
    }
  }

  lemma ShiftRowsInverse(s: Bytes)
    requires |s| == BLOCK
    ensures InvShiftRowsOf(ShiftRowsOf(s)) == s
  {
    forall i | 0 <= i < BLOCK
      ensures InvShiftRowsOf(ShiftRowsOf(s))[i] == s[i]
    {
      ShiftFromInverse(i);
    }
  }

  lemma ShiftFromInverse(i: nat)
    requires i < BLOCK
    ensures ShiftFrom(InvShiftFrom(i)) == i
  {
  }

  lemma NextAround(i: nat)
    requires i < BLOCK
    ensures Next(Next(Next(Next(i)))) == i
  {
  }

  lemma MixColumnsInverse(s: Bytes)
    requires |s| == BLOCK
    ensures InvMixColumnsOf(MixColumnsOf(s)) == s
  {
    forall i | 0 <= i < BLOCK
      ensures InvMixColumnsOf(MixColumnsOf(s))[i] == s[i]
    {
      hide Mixed, InvMixed, Next;
      NextAround(i);
      ColumnInverse(s[i], s[Next(i)], s[Next(Next(i))], s[Next(Next(Next(i)))]);
    }
  }

  // ----- the cipher

  /** Round keys for this many rounds. */
  predicate IsKey(keys: Bytes, rounds: nat) {
    |keys| == BLOCK * (rounds + 1)
  }

  function RoundKey(keys: Bytes, rounds: nat, k: nat): (r: Bytes)
    requires IsKey(keys, rounds) && k <= rounds
    ensures |r| == BLOCK
  {
    keys[BLOCK * k..BLOCK * k + BLOCK]
  }

  /** The state after the first k full rounds. */
  function Rounds(s: Bytes, keys: Bytes, rounds: nat, k: nat): (r: Bytes)
    requires |s| == BLOCK && IsKey(keys, rounds) && k < rounds
    ensures |r| == BLOCK
  {
    if k == 0 then AddKey(s, RoundKey(keys, rounds, 0))
    else AddKey(MixColumnsOf(ShiftRowsOf(SubBytesOf(Rounds(s, keys, rounds, k - 1)))), RoundKey(keys, rounds, k))
  }

  /** Cipher: the last round does not mix columns. */
  function CipherOf(s: Bytes, keys: Bytes, rounds: nat): (r: Bytes)
    requires |s| == BLOCK && IsKey(keys, rounds) && rounds >= 1
    ensures |r| == BLOCK
  {
    AddKey(ShiftRowsOf(SubBytesOf(Rounds(s, keys, rounds, rounds - 1))), RoundKey(keys, rounds, rounds))
  }

  /** The rounds of InvCipher from the k-th down: the key of round 0 ends them, the others unmix columns. */
  function InvRounds(t: Bytes, keys: Bytes, rounds: nat, k: nat): (r: Bytes)
    requires |t| == BLOCK && IsKey(keys, rounds) && k < rounds
    ensures |r| == BLOCK
    decreases k
  {
    var u := AddKey(InvSubBytesOf(InvShiftRowsOf(t)), RoundKey(keys, rounds, k));
    if k == 0 then u else InvRounds(InvMixColumnsOf(u), keys, rounds, k - 1)
  }

  function InvCipherOf(t: Bytes, keys: Bytes, rounds: nat): (r: Bytes)
    requires |t| == BLOCK && IsKey(keys, rounds) && rounds >= 1
    ensures |r| == BLOCK
  {
    InvRounds(AddKey(t, RoundKey(keys, rounds, rounds)), keys, rounds, rounds - 1)
  }

  lemma {:induction false} InvRoundsUndo(s: Bytes, keys: Bytes, rounds: nat, k: nat)
    requires |s| == BLOCK && IsKey(keys, rounds) && k < rounds
    ensures InvRounds(ShiftRowsOf(SubBytesOf(Rounds(s, keys, rounds, k))), keys, rounds, k) == s
  {
    hide AddKey, SubBytesOf, InvSubBytesOf, ShiftRowsOf, InvShiftRowsOf, MixColumnsOf, InvMixColumnsOf, RoundKey;
    var r := Rounds(s, keys, rounds, k);
    ShiftRowsInverse(SubBytesOf(r));
    SubBytesInverse(r);
    if k == 0 {
      AddKeyInverse(s, RoundKey(keys, rounds, 0));
    } else {
      var inner := ShiftRowsOf(SubBytesOf(Rounds(s, keys, rounds, k - 1)));
      AddKeyInverse(MixColumnsOf(inner), RoundKey(keys, rounds, k));
      MixColumnsInverse(inner);
      InvRoundsUndo(s, keys, rounds, k - 1);
    }
  }

  /** InvCipher undoes Cipher, for every state, every number of rounds and all round keys. */
  lemma CipherInverse(s: Bytes, keys: Bytes, rounds: nat)
    requires |s| == BLOCK && IsKey(keys, rounds) && rounds >= 1
    ensures InvCipherOf(CipherOf(s, keys, rounds), keys, rounds) == s
  {
    hide AddKey, SubBytesOf, ShiftRowsOf, RoundKey, Rounds, InvRounds;
    AddKeyInverse(ShiftRowsOf(SubBytesOf(Rounds(s, keys, rounds, rounds - 1))), RoundKey(keys, rounds, rounds));
    InvRoundsUndo(s, keys, rounds, rounds - 1);
  }
}
