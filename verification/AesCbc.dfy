/** The in-place code of src/kernel/crypto/aes.c: the layers on 16 bytes of a buffer, the key schedule, and CBC mode
    over a buffer of any length, which goes on from one call to the next through the context's Iv. */
module AesCbc {
  import opened AesTables
  import opened Aes
  import opened Cbc

  /** The state that starts at this place of the buffer. */
  function State(buf: array<bv8>, at: nat): (s: Bytes)
    requires at + BLOCK <= buf.Length
    reads buf
    ensures |s| == BLOCK
  {
    buf[at..at + BLOCK]
  }

  /** All of the buffer but the state at this place is as it was. */
  twostate predicate RestKept(buf: array<bv8>, at: nat)
    requires at + BLOCK <= buf.Length
    reads buf
  {
    buf[..at] == old(buf[..at]) && buf[at + BLOCK..] == old(buf[at + BLOCK..])
  }

  // ----- the layers, in place

  /** (*state)[i][j] = v, with k = 4i + j. */
  method SetByte(buf: array<bv8>, at: nat, k: nat, v: bv8)
    requires at + BLOCK <= buf.Length && k < BLOCK
    modifies buf
    ensures State(buf, at) == old(State(buf, at))[k := v] && RestKept(buf, at)
  {
    buf[at + k] := v;
  }

  method AddRoundKey(round: nat, buf: array<bv8>, at: nat, keys: array<bv8>)
    requires at + BLOCK <= buf.Length && BLOCK * (round + 1) <= keys.Length && buf != keys
    modifies buf
    ensures State(buf, at) == AddKey(old(State(buf, at)), keys[BLOCK * round..BLOCK * round + BLOCK]) && RestKept(buf, at)
  {
    ghost var was, key := State(buf, at), keys[BLOCK * round..BLOCK * round + BLOCK];
    for i := 0 to 4
      invariant RestKept(buf, at)
      invariant forall m | 0 <= m < BLOCK :: State(buf, at)[m] == if m < 4 * i then was[m] ^ key[m] else was[m]
    {
      for j := 0 to 4
        invariant RestKept(buf, at)
        invariant forall m | 0 <= m < BLOCK :: State(buf, at)[m] == if m < 4 * i + j then was[m] ^ key[m] else was[m]
      {
        assert State(buf, at)[4 * i + j] == was[4 * i + j] && key[4 * i + j] == keys[BLOCK * round + 4 * i + j];
        SetByte(buf, at, 4 * i + j, buf[at + 4 * i + j] ^ keys[round * BLOCK + i * 4 + j]);
      }
    }
    assert State(buf, at) == AddKey(was, key);
  }

  method SubBytes(buf: array<bv8>, at: nat)
    requires at + BLOCK <= buf.Length
    modifies buf
    ensures State(buf, at) == SubBytesOf(old(State(buf, at))) && RestKept(buf, at)
  {
    hide SBox;
    ghost var was := State(buf, at);
    for i := 0 to 4
      invariant RestKept(buf, at)
      invariant forall m | 0 <= m < BLOCK :: State(buf, at)[m] == if m % 4 < i then SBox(was[m]) else was[m]
    {
      for j := 0 to 4
        invariant RestKept(buf, at)
        invariant forall m | 0 <= m < BLOCK ::
                    State(buf, at)[m] == if m % 4 < i || (m % 4 == i && m / 4 < j) then SBox(was[m]) else was[m]
      {
        assert State(buf, at)[4 * j + i] == was[4 * j + i];
        SetByte(buf, at, 4 * j + i, SBox(buf[at + 4 * j + i]));
      }
    }
    assert State(buf, at) == SubBytesOf(was);
  }

  method InvSubBytes(buf: array<bv8>, at: nat)
    requires at + BLOCK <= buf.Length
    modifies buf
    ensures State(buf, at) == InvSubBytesOf(old(State(buf, at))) && RestKept(buf, at)
  {
    hide InvSBox;
    ghost var was := State(buf, at);
    for i := 0 to 4
      invariant RestKept(buf, at)
      invariant forall m | 0 <= m < BLOCK :: State(buf, at)[m] == if m % 4 < i then InvSBox(was[m]) else was[m]
    {
      for j := 0 to 4
        invariant RestKept(buf, at)
        invariant forall m | 0 <= m < BLOCK ::
                    State(buf, at)[m] == if m % 4 < i || (m % 4 == i && m / 4 < j) then InvSBox(was[m]) else was[m]
      {
        assert State(buf, at)[4 * j + i] == was[4 * j + i];
        SetByte(buf, at, 4 * j + i, InvSBox(buf[at + 4 * j + i]));
      }
    }
    assert State(buf, at) == InvSubBytesOf(was);
  }

  function Rotated(w: Bytes, p: nat, q: nat, r: nat, s: nat): (v: Bytes)
    requires |w| == BLOCK && p < BLOCK && q < BLOCK && r < BLOCK && s < BLOCK
    ensures |v| == BLOCK
  {
    w[p := w[q]][q := w[r]][r := w[s]][s := w[p]]
  }

  function Exchanged(w: Bytes, p: nat, q: nat): (v: Bytes)
    requires |w| == BLOCK && p < BLOCK && q < BLOCK
    ensures |v| == BLOCK
  {
    w[p := w[q]][q := w[p]]
  }

  /** The moves the code makes are the row shifts. */
  lemma ShiftRowsMoves(w: Bytes)
    requires |w| == BLOCK
    ensures Rotated(Exchanged(Exchanged(Rotated(w, 1, 5, 9, 13), 2, 10), 6, 14), 3, 15, 11, 7) == ShiftRowsOf(w)
  {
  }

  lemma InvShiftRowsMoves(w: Bytes)
    requires |w| == BLOCK
    ensures Rotated(Exchanged(Exchanged(Rotated(w, 13, 9, 5, 1), 2, 10), 6, 14), 3, 7, 11, 15) == InvShiftRowsOf(w)
  {
  }

  /** The bytes at four places move one place down the list, the first to the last place. */
  method Rotate(buf: array<bv8>, at: nat, p: nat, q: nat, r: nat, s: nat)
    requires at + BLOCK <= buf.Length && p < BLOCK && q < BLOCK && r < BLOCK && s < BLOCK
    requires p != q && p != r && p != s && q != r && q != s && r != s
    modifies buf
    ensures State(buf, at) == Rotated(old(State(buf, at)), p, q, r, s) && RestKept(buf, at)
  {
    ghost var was := State(buf, at);
    var temp := buf[at + p];
    assert temp == was[p] && buf[at + q] == was[q];
    SetByte(buf, at, p, buf[at + q]);
    assert buf[at + r] == State(buf, at)[r];
    SetByte(buf, at, q, buf[at + r]);
    assert buf[at + s] == State(buf, at)[s];
    SetByte(buf, at, r, buf[at + s]);
    SetByte(buf, at, s, temp);
  }

  method Exchange(buf: array<bv8>, at: nat, p: nat, q: nat)
    requires at + BLOCK <= buf.Length && p < BLOCK && q < BLOCK && p != q
    modifies buf
    ensures State(buf, at) == Exchanged(old(State(buf, at)), p, q) && RestKept(buf, at)
  {
    var temp := buf[at + p];
    SetByte(buf, at, p, buf[at + q]);
    SetByte(buf, at, q, temp);
  }

  /** Row 1 rotates by one column, row 2 exchanges two pairs, row 3 rotates the other way. */
  method ShiftRows(buf: array<bv8>, at: nat)
    requires at + BLOCK <= buf.Length
    modifies buf
    ensures State(buf, at) == ShiftRowsOf(old(State(buf, at))) && RestKept(buf, at)
  {
    hide Rotated, Exchanged, ShiftRowsOf;
    Rotate(buf, at, 1, 5, 9, 13);
    Exchange(buf, at, 2, 10);
    Exchange(buf, at, 6, 14);
    Rotate(buf, at, 3, 15, 11, 7);
    ShiftRowsMoves(old(State(buf, at)));
  }

  method InvShiftRows(buf: array<bv8>, at: nat)
    requires at + BLOCK <= buf.Length
    modifies buf
    ensures State(buf, at) == InvShiftRowsOf(old(State(buf, at))) && RestKept(buf, at)
  {
    hide Rotated, Exchanged, InvShiftRowsOf;
    Rotate(buf, at, 13, 9, 5, 1);
    Exchange(buf, at, 2, 10);
    Exchange(buf, at, 6, 14);
    Rotate(buf, at, 3, 7, 11, 15);
    InvShiftRowsMoves(old(State(buf, at)));
  }

  /** One column of a state changes. */
  function WithColumn(s: Bytes, i: nat, p: bv8, q: bv8, r: bv8, t: bv8): (w: Bytes)
    requires |s| == BLOCK && i < 4
    ensures |w| == BLOCK
  {
    s[4 * i := p][4 * i + 1 := q][4 * i + 2 := r][4 * i + 3 := t]
  }

  /** What MixColumns does to one column: each sum uses the column as it was. */
  method MixColumn(buf: array<bv8>, at: nat, i: nat)
    requires at + BLOCK <= buf.Length && i < 4
    modifies buf
    ensures var was := old(State(buf, at));
            var a, b, c, d := was[4 * i], was[4 * i + 1], was[4 * i + 2], was[4 * i + 3];
            State(buf, at) == WithColumn(was, i, Mixed(a, b, c, d), Mixed(b, c, d, a), Mixed(c, d, a, b), Mixed(d, a, b, c))
    ensures RestKept(buf, at)
  {
    hide XTime, Sum2, Sum4, Mixed;
    var k := at + 4 * i;
    ghost var was := State(buf, at);
    ghost var a, b, c, d := was[4 * i], was[4 * i + 1], was[4 * i + 2], was[4 * i + 3];
    var t := buf[k];
    var sum := Sum4(buf[k], buf[k + 1], buf[k + 2], buf[k + 3]);
    MixedSteps(a, b, c, d);
    var tm := XTime(Sum2(buf[k], buf[k + 1]));
    SetByte(buf, at, 4 * i, Sum2(buf[k], Sum2(tm, sum)));
    assert buf[k + 1] == State(buf, at)[4 * i + 1] == b && buf[k + 2] == State(buf, at)[4 * i + 2] == c;
    tm := XTime(Sum2(buf[k + 1], buf[k + 2]));
    SetByte(buf, at, 4 * i + 1, Sum2(buf[k + 1], Sum2(tm, sum)));
    assert buf[k + 2] == State(buf, at)[4 * i + 2] == c && buf[k + 3] == State(buf, at)[4 * i + 3] == d;
    tm := XTime(Sum2(buf[k + 2], buf[k + 3]));
    SetByte(buf, at, 4 * i + 2, Sum2(buf[k + 2], Sum2(tm, sum)));
    assert buf[k + 3] == State(buf, at)[4 * i + 3] == d;
    tm := XTime(Sum2(buf[k + 3], t));
    SetByte(buf, at, 4 * i + 3, Sum2(buf[k + 3], Sum2(tm, sum)));
  }

  /** The four sums of the code share the sum of the whole column. */
  lemma MixedSteps(a: bv8, b: bv8, c: bv8, d: bv8)
    ensures Sum2(a, Sum2(XTime(Sum2(a, b)), Sum4(a, b, c, d))) == Mixed(a, b, c, d)
    ensures Sum2(b, Sum2(XTime(Sum2(b, c)), Sum4(a, b, c, d))) == Mixed(b, c, d, a)
    ensures Sum2(c, Sum2(XTime(Sum2(c, d)), Sum4(a, b, c, d))) == Mixed(c, d, a, b)
    ensures Sum2(d, Sum2(XTime(Sum2(d, a)), Sum4(a, b, c, d))) == Mixed(d, a, b, c)
  {
    hide XTime, Sum2, Sum4;
    FourRotates(a, b, c, d);
  }

  method MixColumns(buf: array<bv8>, at: nat)
    requires at + BLOCK <= buf.Length
    modifies buf
    ensures State(buf, at) == MixColumnsOf(old(State(buf, at))) && RestKept(buf, at)
  {
    hide MixColumnsOf, WithColumn, Mixed;
    ghost var was := State(buf, at);
    for i := 0 to 4
      invariant RestKept(buf, at)
      invariant State(buf, at) == MixColumnsOf(was)[..4 * i] + was[4 * i..]
    {
      MixColumn(buf, at, i);
      NextColumn(was, MixColumnsOf(was), i);
      MixedAt(was, i);
    }
  }

  /** A state whose first columns are the new ones becomes so for one more. */
  lemma NextColumn(was: Bytes, now: Bytes, i: nat)
    requires |was| == |now| == BLOCK && i < 4
    ensures WithColumn(now[..4 * i] + was[4 * i..], i, now[4 * i], now[4 * i + 1], now[4 * i + 2], now[4 * i + 3])
            == now[..4 * (i + 1)] + was[4 * (i + 1)..]
  {
  }

  lemma MixedAt(s: Bytes, i: nat)
    requires |s| == BLOCK && i < 4
    ensures var a, b, c, d := s[4 * i], s[4 * i + 1], s[4 * i + 2], s[4 * i + 3];
            var t := MixColumnsOf(s);
            t[4 * i] == Mixed(a, b, c, d) && t[4 * i + 1] == Mixed(b, c, d, a)
            && t[4 * i + 2] == Mixed(c, d, a, b) && t[4 * i + 3] == Mixed(d, a, b, c)
  {
    hide Mixed;
    assert Next(4 * i) == 4 * i + 1 && Next(4 * i + 1) == 4 * i + 2 && Next(4 * i + 2) == 4 * i + 3 && Next(4 * i + 3) == 4 * i;
  }
  lemma UnmixedAt(s: Bytes, i: nat)
    requires |s| == BLOCK && i < 4
    ensures var a, b, c, d := s[4 * i], s[4 * i + 1], s[4 * i + 2], s[4 * i + 3];
            var t := InvMixColumnsOf(s);
            t[4 * i] == InvMixed(a, b, c, d) && t[4 * i + 1] == InvMixed(b, c, d, a)
            && t[4 * i + 2] == InvMixed(c, d, a, b) && t[4 * i + 3] == InvMixed(d, a, b, c)
  {
    hide InvMixed;
    assert Next(4 * i) == 4 * i + 1 && Next(4 * i + 1) == 4 * i + 2 && Next(4 * i + 2) == 4 * i + 3 && Next(4 * i + 3) == 4 * i;
  }
  /** The rows of the inverse matrix as the code writes them out. */
  lemma UnmixedRows(a: bv8, b: bv8, c: bv8, d: bv8)
    ensures Sum4(Multiply(a, 0x0e), Multiply(b, 0x0b), Multiply(c, 0x0d), Multiply(d, 0x09)) == InvMixed(a, b, c, d)
    ensures Sum4(Multiply(a, 0x09), Multiply(b, 0x0e), Multiply(c, 0x0b), Multiply(d, 0x0d)) == InvMixed(b, c, d, a)
    ensures Sum4(Multiply(a, 0x0d), Multiply(b, 0x09), Multiply(c, 0x0e), Multiply(d, 0x0b)) == InvMixed(c, d, a, b)
    ensures Sum4(Multiply(a, 0x0b), Multiply(b, 0x0d), Multiply(c, 0x09), Multiply(d, 0x0e)) == InvMixed(d, a, b, c)
  {
    hide Multiply, Sum4;
    FourRotates(Multiply(a, 0x09), Multiply(b, 0x0e), Multiply(c, 0x0b), Multiply(d, 0x0d));
    FourRotates(Multiply(a, 0x0d), Multiply(b, 0x09), Multiply(c, 0x0e), Multiply(d, 0x0b));
    FourRotates(Multiply(a, 0x0b), Multiply(b, 0x0d), Multiply(c, 0x09), Multiply(d, 0x0e));
  }

  method InvMixColumn(buf: array<bv8>, at: nat, i: nat)
    requires at + BLOCK <= buf.Length && i < 4
    modifies buf
    ensures var was := old(State(buf, at));
            var a, b, c, d := was[4 * i], was[4 * i + 1], was[4 * i + 2], was[4 * i + 3];
            State(buf, at) == WithColumn(was, i, InvMixed(a, b, c, d), InvMixed(b, c, d, a), InvMixed(c, d, a, b), InvMixed(d, a, b, c))
    ensures RestKept(buf, at)
  {
    hide Multiply, Sum4, InvMixed;
    var a, b, c, d := buf[at + 4 * i], buf[at + 4 * i + 1], buf[at + 4 * i + 2], buf[at + 4 * i + 3];
    UnmixedRows(a, b, c, d);
    SetByte(buf, at, 4 * i, Sum4(Multiply(a, 0x0e), Multiply(b, 0x0b), Multiply(c, 0x0d), Multiply(d, 0x09)));
    SetByte(buf, at, 4 * i + 1, Sum4(Multiply(a, 0x09), Multiply(b, 0x0e), Multiply(c, 0x0b), Multiply(d, 0x0d)));
    SetByte(buf, at, 4 * i + 2, Sum4(Multiply(a, 0x0d), Multiply(b, 0x09), Multiply(c, 0x0e), Multiply(d, 0x0b)));
    SetByte(buf, at, 4 * i + 3, Sum4(Multiply(a, 0x0b), Multiply(b, 0x0d), Multiply(c, 0x09), Multiply(d, 0x0e)));
  }

  method InvMixColumns(buf: array<bv8>, at: nat)
    requires at + BLOCK <= buf.Length
    modifies buf
    ensures State(buf, at) == InvMixColumnsOf(old(State(buf, at))) && RestKept(buf, at)
  {
    hide InvMixColumnsOf, WithColumn, InvMixed;
    ghost var was := State(buf, at);
    for i := 0 to 4
      invariant RestKept(buf, at)
      invariant State(buf, at) == InvMixColumnsOf(was)[..4 * i] + was[4 * i..]
    {
      InvMixColumn(buf, at, i);
      NextColumn(was, InvMixColumnsOf(was), i);
      UnmixedAt(was, i);
    }
  }

  // ----- the cipher, in place

  method Cipher(buf: array<bv8>, at: nat, keys: array<bv8>, rounds: nat)
    requires at + BLOCK <= buf.Length && buf != keys && IsKey(keys[..], rounds) && rounds >= 1
    modifies buf
    ensures State(buf, at) == CipherOf(old(State(buf, at)), keys[..], rounds) && RestKept(buf, at)
  {
    hide AddKey, SubBytesOf, ShiftRowsOf, MixColumnsOf;
    ghost var was := State(buf, at);
    AddRoundKey(0, buf, at, keys);
    KeySlice(keys, rounds, 0);
    var round := 1;
    while true
      invariant 1 <= round <= rounds && RestKept(buf, at)
      invariant State(buf, at) == Rounds(was, keys[..], rounds, round - 1)
      decreases rounds - round
    {
      SubBytes(buf, at);
      ShiftRows(buf, at);
      if round == rounds {
        break;
      }
      MixColumns(buf, at);
      AddRoundKey(round, buf, at, keys);
      KeySlice(keys, rounds, round);
      round := round + 1;
    }
    AddRoundKey(rounds, buf, at, keys);
    KeySlice(keys, rounds, rounds);
  }

  lemma KeySlice(keys: array<bv8>, rounds: nat, k: nat)
    requires IsKey(keys[..], rounds) && k <= rounds
    ensures keys[BLOCK * k..BLOCK * k + BLOCK] == RoundKey(keys[..], rounds, k)
  {
  }

  method InvCipher(buf: array<bv8>, at: nat, keys: array<bv8>, rounds: nat)
    requires at + BLOCK <= buf.Length && buf != keys && IsKey(keys[..], rounds) && rounds >= 1
    modifies buf
    ensures State(buf, at) == InvCipherOf(old(State(buf, at)), keys[..], rounds) && RestKept(buf, at)
  {
    hide AddKey, InvSubBytesOf, InvShiftRowsOf, InvMixColumnsOf;
    ghost var was := State(buf, at);
    AddRoundKey(rounds, buf, at, keys);
    KeySlice(keys, rounds, rounds);
    var round := rounds - 1;
    while true
      invariant 0 <= round < rounds && RestKept(buf, at)
      invariant InvRounds(State(buf, at), keys[..], rounds, round) == InvCipherOf(was, keys[..], rounds)
      decreases round
    {
      InvShiftRows(buf, at);
      InvSubBytes(buf, at);
      AddRoundKey(round, buf, at, keys);
      KeySlice(keys, rounds, round);
      if round == 0 {
        break;
      }
      InvMixColumns(buf, at);
      round := round - 1;
    }
  }

  // ----- the key schedule

  const RCON: Bytes := [0x8d, 0x01, 0x02, 0x04, 0x08, 0x10, 0x20, 0x40, 0x80, 0x1b, 0x36]

  function WordAt(b: Bytes, i: nat): (w: Bytes)
    requires 4 * i + 4 <= |b|
    ensures |w| == 4
  {
    b[4 * i..4 * i + 4]
  }

  function AddWords(v: Bytes, w: Bytes): (r: Bytes)
    requires |v| == |w| == 4
    ensures |r| == 4
  {
    [v[0] ^ w[0], v[1] ^ w[1], v[2] ^ w[2], v[3] ^ w[3]]
  }

  function RotWord(w: Bytes): (r: Bytes)
    requires |w| == 4
    ensures |r| == 4
  {
    [w[1], w[2], w[3], w[0]]
  }

  function SubWord(w: Bytes): (r: Bytes)
    requires |w| == 4
    ensures |r| == 4
  {
    [SBox(w[0]), SBox(w[1]), SBox(w[2]), SBox(w[3])]
  }

  /** What section 5.2 of FIPS 197 adds to the word nk places back, from the word before. */
  function ScheduleCore(before: Bytes, i: nat, nk: nat): (r: Bytes)
    requires |before| == 4 && 0 < nk && i / nk <= 10
    ensures |r| == 4
  {
    if i % nk == 0 then AddWords(SubWord(RotWord(before)), [RCON[i / nk], 0, 0, 0])
    else if nk == 8 && i % nk == 4 then SubWord(before)
    else before
  }

  /** Word i of the schedule is right. */
  ghost predicate Scheduled(b: Bytes, key: Bytes, i: nat, nk: nat)
    requires 4 * i + 4 <= |b| && |key| == 4 * nk && 0 < nk && i / nk <= 10
  {
    if i < nk then WordAt(b, i) == WordAt(key, i)
    else WordAt(b, i) == AddWords(WordAt(b, i - nk), ScheduleCore(WordAt(b, i - 1), i, nk))
  }

  method PutWord(roundKey: array<bv8>, i: nat, w: Bytes)
    requires 4 * i + 4 <= roundKey.Length && |w| == 4
    modifies roundKey
    ensures roundKey[..4 * i] == old(roundKey[..4 * i]) && WordAt(roundKey[..], i) == w
  {
    roundKey[4 * i] := w[0];
    roundKey[4 * i + 1] := w[1];
    roundKey[4 * i + 2] := w[2];
    roundKey[4 * i + 3] := w[3];
  }

  /** What the loop does to tempa. */
  method CoreWord(before: Bytes, i: nat, nk: nat) returns (tempa: Bytes)
    requires |before| == 4 && nk in {4, 6, 8} && i / nk <= 10
    ensures tempa == ScheduleCore(before, i, nk)
  {
    hide SBox;
    tempa := before;
    if i % nk == 0 {
      tempa := RotWord(tempa);
      tempa := SubWord(tempa);
      tempa := tempa[0 := tempa[0] ^ RCON[i / nk]];
    }
    if nk == 8 && i % nk == 4 {
      tempa := SubWord(tempa);
    }
    CoreSteps(before, tempa, i, nk);
  }

  /** KeyExpansion, for keys of 4, 6 or 8 words: the round keys satisfy the recurrence of the standard throughout. */
  method KeyExpansion(roundKey: array<bv8>, key: array<bv8>, nk: nat, rounds: nat)
    requires nk in {4, 6, 8} && rounds == nk + 6 && key.Length == 4 * nk && roundKey != key
    requires roundKey.Length == BLOCK * (rounds + 1)
    modifies roundKey
    ensures Usable(roundKey[..], rounds)
    ensures forall i: nat | i < 4 * (rounds + 1) :: ScheduleIndex(i, nk) && Scheduled(roundKey[..], key[..], i, nk)
  {
    hide WordAt, ScheduleCore, AddWords, Scheduled;
    var i := 0;
    while i < nk
      invariant 0 <= i <= nk
      invariant forall k: nat | k < i :: ScheduleIndex(k, nk) && Scheduled(roundKey[..], key[..], k, nk)
    {
      Index(i, nk);
      ghost var was := roundKey[..];
      PutWord(roundKey, i, WordAt(key[..], i));
      EarlierWords(was, roundKey[..], key[..], i, nk);
      ScheduledNow(roundKey[..], key[..], i, nk);
      i := i + 1;
    }
    while i < 4 * (rounds + 1)
      invariant nk <= i <= 4 * (rounds + 1)
      invariant forall k: nat | k < i :: ScheduleIndex(k, nk) && Scheduled(roundKey[..], key[..], k, nk)
    {
      Index(i, nk);
      ghost var was := roundKey[..];
      var tempa := CoreWord(WordAt(roundKey[..], i - 1), i, nk);
      PutWord(roundKey, i, AddWords(WordAt(roundKey[..], i - nk), tempa));
      EarlierWords(was, roundKey[..], key[..], i, nk);
      ScheduledNow(roundKey[..], key[..], i, nk);
      i := i + 1;
    }
  }

  /** The round constants reach this far. */
  ghost predicate ScheduleIndex(i: nat, nk: nat) {
    0 < nk && i / nk <= 10
  }

  lemma Index(i: nat, nk: nat)
    requires nk in {4, 6, 8} && i < 4 * (nk + 7)
    ensures ScheduleIndex(i, nk)
  {
  }

  lemma ScheduledNow(b: Bytes, key: Bytes, i: nat, nk: nat)
    requires 4 * i + 4 <= |b| && |key| == 4 * nk && ScheduleIndex(i, nk)
    requires i < nk ==> WordAt(b, i) == WordAt(key, i)
    requires i >= nk ==> WordAt(b, i) == AddWords(WordAt(b, i - nk), ScheduleCore(WordAt(b, i - 1), i, nk))
    ensures Scheduled(b, key, i, nk)
  {
  }

  lemma EarlierWords(was: Bytes, now: Bytes, key: Bytes, i: nat, nk: nat)
    requires |was| == |now| && 4 * i + 4 <= |was| && was[..4 * i] == now[..4 * i] && |key| == 4 * nk && ScheduleIndex(i, nk)
    ensures forall k: nat | k < i && ScheduleIndex(k, nk) && Scheduled(was, key, k, nk) :: Scheduled(now, key, k, nk)
    ensures forall k: nat | k < i :: WordAt(now, k) == WordAt(was, k)
  {
    forall k: nat | k < i
      ensures WordAt(now, k) == WordAt(was, k)
    {
      assert was[..4 * i][4 * k..4 * k + 4] == WordAt(was, k);
      assert now[..4 * i][4 * k..4 * k + 4] == WordAt(now, k);
    }
    hide WordAt, ScheduleCore, AddWords;
  }

  lemma CoreSteps(before: Bytes, tempa: Bytes, i: nat, nk: nat)
    requires |before| == |tempa| == 4 && nk in {4, 6, 8} && i / nk <= 10
    requires i % nk == 0 ==> tempa == SubWord(RotWord(before))[0 := SubWord(RotWord(before))[0] ^ RCON[i / nk]]
    requires i % nk != 0 && nk == 8 && i % nk == 4 ==> tempa == SubWord(before)
    requires i % nk != 0 && !(nk == 8 && i % nk == 4) ==> tempa == before
    ensures tempa == ScheduleCore(before, i, nk)
  {
    hide SubWord, RotWord;
    if i % nk == 0 {
      var w := SubWord(RotWord(before));
      assert w[1] ^ 0 == w[1] && w[2] ^ 0 == w[2] && w[3] ^ 0 == w[3];
    }
  }

  // ----- chaining, in place

  method XorWithIv(buf: array<bv8>, at: nat, iv: array<bv8>, ivAt: nat)
    requires at + BLOCK <= buf.Length && ivAt + BLOCK <= iv.Length && (buf == iv ==> ivAt + BLOCK <= at)
    modifies buf
    ensures State(buf, at) == AddKey(old(State(buf, at)), old(State(iv, ivAt))) && RestKept(buf, at)
  {
    ghost var was, v := State(buf, at), State(iv, ivAt);
    for i := 0 to BLOCK
      invariant RestKept(buf, at) && State(iv, ivAt) == v
      invariant forall m | 0 <= m < BLOCK :: State(buf, at)[m] == if m < i then was[m] ^ v[m] else was[m]
    {
      assert State(buf, at)[i] == was[i] && State(iv, ivAt)[i] == v[i];
      SetByte(buf, at, i, buf[at + i] ^ iv[ivAt + i]);
    }
    assert State(buf, at) == AddKey(was, v);
  }

  /** Number of bytes the loops go over: whole blocks. */
  function Covered(length: nat): nat {
    (length + BLOCK - 1) / BLOCK * BLOCK
  }

  lemma CoveredStart(length: nat)
    ensures Covered(length) % BLOCK == 0 && Covered(length) >= length
  {
  }

  lemma CoveredStep(i: nat, length: nat)
    requires i % BLOCK == 0 && i < length
    ensures i + BLOCK <= Covered(length) && (i + BLOCK) % BLOCK == 0
  {
  }

  lemma CoveredEnd(i: nat, length: nat)
    requires i % BLOCK == 0 && length <= i <= Covered(length)
    ensures i == Covered(length)
  {
  }

  class AesContext {
    const rounds: nat
    const roundKey: array<bv8>
    /** The vector, then the last ciphertext block of the call before. */
    const iv: array<bv8>

    ghost predicate Valid()
      reads roundKey
    {
      iv.Length == BLOCK && roundKey != iv && Usable(roundKey[..], rounds)
    }

    constructor (roundKey: array<bv8>, iv: array<bv8>, rounds: nat)
      requires iv.Length == BLOCK && roundKey != iv && Usable(roundKey[..], rounds)
      ensures Valid() && this.roundKey == roundKey && this.iv == iv && this.rounds == rounds
    {
      this.roundKey, this.iv, this.rounds := roundKey, iv, rounds;
    }

    /** One round of AES_CBC_encrypt_buffer's loop, on a buffer done so far up to this place. */
    method EncryptBlock(buf: array<bv8>, at: nat, from: array<bv8>, place: nat,
                        ghost pre: Bytes, ghost done: Bytes, ghost rest: Bytes, ghost post: Bytes)
      returns (ghost block: Bytes)
      requires Valid() && buf != roundKey && place + BLOCK <= from.Length && (buf == from ==> place + BLOCK <= at)
      requires buf[..] == pre + done + rest + post && at == |pre| + |done| && |rest| >= BLOCK
      modifies buf
      ensures |block| == BLOCK && buf[..] == pre + (done + block) + rest[BLOCK..] + post && State(buf, at) == block
      ensures block == CipherOf(AddKey(rest[..BLOCK], old(State(from, place))), roundKey[..], rounds)
    {
      hide CipherOf, AddKey;
      ghost var whole := buf[..];
      Window(whole, pre, done, rest, post);
      XorWithIv(buf, at, from, place);
      Cipher(buf, at, roundKey, rounds);
      block := State(buf, at);
      WindowPut(whole, buf[..], pre, done, rest, post, block);
    }

    /** AES_CBC_encrypt_buffer. The vector of the next call is the last block written. */
    method EncryptBuffer(buf: array<bv8>, at: nat, length: nat)
      requires Valid() && buf != roundKey && buf != iv && at + Covered(length) <= buf.Length
      modifies buf, iv
      ensures Valid() && buf[..at] == old(buf[..at]) && buf[at + Covered(length)..] == old(buf[at + Covered(length)..])
      ensures buf[at..at + Covered(length)] == CbcEncrypt(old(buf[at..at + Covered(length)]), old(iv[..]), roundKey[..], rounds)
      ensures iv[..] == LastBlock(old(iv[..]), buf[at..at + Covered(length)])
    {
      hide CipherOf, AddKey, CbcEncrypt, Covered, LastBlock, Usable;
      CoveredStart(length);
      ghost var pre, was, post, iv0 := buf[..at], buf[at..at + Covered(length)], buf[at + Covered(length)..], iv[..];
      ghost var done: Bytes := [];
      NoBlocks(was, iv0, roundKey[..], rounds);
      // the pointer Iv
      var from, place := iv, 0;
      var i := 0;
      while i < length
        invariant i % BLOCK == 0 && i <= Covered(length) && |done| == i
        invariant buf[..] == pre + done + was[i..] + post && iv[..] == iv0
        invariant done == CbcEncrypt(was[..i], iv0, roundKey[..], rounds)
        invariant if i == 0 then from == iv && place == 0 else from == buf && place == at + i - BLOCK
        invariant State(from, place) == LastBlock(iv0, done)
      {
        CoveredStep(i, length);
        assert was[i..][..BLOCK] == was[i..i + BLOCK] && was[i..][BLOCK..] == was[i + BLOCK..];
        ghost var block := EncryptBlock(buf, at + i, from, place, pre, done, was[i..], post);
        OneMoreBlock(was, i, done, block, iv0, roundKey[..], rounds);
        done := done + block;
        from, place := buf, at + i;
        i := i + BLOCK;
      }
      CoveredEnd(i, length);
      assert was[..i] == was;
      CopyBlock(from, place, iv);
    }

    /** One round of AES_CBC_decrypt_buffer's loop. */
    method DecryptBlock(buf: array<bv8>, at: nat, next: array<bv8>,
                        ghost pre: Bytes, ghost done: Bytes, ghost rest: Bytes, ghost post: Bytes)
      returns (ghost block: Bytes)
      requires Valid() && buf != roundKey && buf != iv
      requires next.Length == BLOCK && next != buf && next != iv && next != roundKey
      requires buf[..] == pre + done + rest + post && at == |pre| + |done| && |rest| >= BLOCK
      modifies buf, next, iv
      ensures |block| == BLOCK && buf[..] == pre + (done + block) + rest[BLOCK..] + post
      ensures block == AddKey(InvCipherOf(rest[..BLOCK], roundKey[..], rounds), old(iv[..])) && iv[..] == rest[..BLOCK]
    {
      hide InvCipherOf, AddKey;
      ghost var whole := buf[..];
      Window(whole, pre, done, rest, post);
      assert State(iv, 0) == iv[..];
      CopyBlock(buf, at, next);
      InvCipher(buf, at, roundKey, rounds);
      XorWithIv(buf, at, iv, 0);
      assert State(next, 0) == next[..];
      CopyBlock(next, 0, iv);
      block := State(buf, at);
      WindowPut(whole, buf[..], pre, done, rest, post, block);
    }

    /** AES_CBC_decrypt_buffer. The vector of the next call is the last ciphertext block of this one. */
    method DecryptBuffer(buf: array<bv8>, at: nat, length: nat)
      requires Valid() && buf != roundKey && buf != iv && at + Covered(length) <= buf.Length
      modifies buf, iv
      ensures Valid() && buf[..at] == old(buf[..at]) && buf[at + Covered(length)..] == old(buf[at + Covered(length)..])
      ensures buf[at..at + Covered(length)] == CbcDecrypt(old(buf[at..at + Covered(length)]), old(iv[..]), roundKey[..], rounds)
      ensures iv[..] == LastBlock(old(iv[..]), old(buf[at..at + Covered(length)]))
    {
      hide InvCipherOf, AddKey, CbcDecrypt, Covered;
      CoveredStart(length);
      ghost var pre, was, post, iv0 := buf[..at], buf[at..at + Covered(length)], buf[at + Covered(length)..], iv[..];
      ghost var done: Bytes := [];
      NoBlocks(was, iv0, roundKey[..], rounds);
      var next := new bv8[BLOCK];
      var i := 0;
      while i < length
        invariant i % BLOCK == 0 && i <= Covered(length) && |done| == i
        invariant buf[..] == pre + done + was[i..] + post
        invariant done == CbcDecrypt(was[..i], iv0, roundKey[..], rounds)
        invariant iv[..] == LastBlock(iv0, was[..i])
      {
        CoveredStep(i, length);
        assert was[i..][..BLOCK] == was[i..i + BLOCK] && was[i..][BLOCK..] == was[i + BLOCK..];
        ghost var block := DecryptBlock(buf, at + i, next, pre, done, was[i..], post);
        OneBlockLess(was, i, done, block, iv0, roundKey[..], rounds);
        done := done + block;
        i := i + BLOCK;
      }
      CoveredEnd(i, length);
      assert was[..i] == was;
    }
  }

  lemma NoBlocks(was: Bytes, iv: Bytes, keys: Bytes, rounds: nat)
    requires Usable(keys, rounds) && |iv| == BLOCK
    ensures CbcEncrypt(was[..0], iv, keys, rounds) == CbcDecrypt(was[..0], iv, keys, rounds) == []
    ensures LastBlock(iv, []) == iv && iv[..BLOCK] == iv
  {
  }

  /** A buffer in four parts, and its third one. */
  lemma Window(whole: Bytes, pre: Bytes, done: Bytes, rest: Bytes, post: Bytes)
    requires whole == pre + done + rest + post && |rest| >= BLOCK
    ensures whole[|pre| + |done|..|pre| + |done| + BLOCK] == rest[..BLOCK]
  {
  }

  lemma WindowPut(whole: Bytes, now: Bytes, pre: Bytes, done: Bytes, rest: Bytes, post: Bytes, block: Bytes)
    requires whole == pre + done + rest + post && |rest| >= BLOCK && |now| == |whole| && |block| == BLOCK
    requires var k := |pre| + |done|;
             now[..k] == whole[..k] && now[k + BLOCK..] == whole[k + BLOCK..] && now[k..k + BLOCK] == block
    ensures now == pre + (done + block) + rest[BLOCK..] + post
  {
    var k := |pre| + |done|;
    assert now == now[..k] + now[k..k + BLOCK] + now[k + BLOCK..];
    assert whole[..k] == pre + done;
    assert whole[k + BLOCK..] == rest[BLOCK..] + post;
  }

  method CopyBlock(from: array<bv8>, place: nat, to: array<bv8>)
    requires place + BLOCK <= from.Length && to.Length == BLOCK && (from == to ==> place == 0)
    modifies to
    ensures to[..] == old(State(from, place))
  {
    ghost var was := State(from, place);
    for k := 0 to BLOCK
      invariant to[..k] == was[..k]
      invariant from != to ==> State(from, place) == was
      invariant from == to ==> to[..] == was
    {
      to[k] := from[place + k];
    }
  }

  lemma OneMoreBlock(was: Bytes, i: nat, done: Bytes, block: Bytes, iv: Bytes, keys: Bytes, rounds: nat)
    requires Usable(keys, rounds) && |iv| == BLOCK && i % BLOCK == 0 && i + BLOCK <= |was|
    requires done == CbcEncrypt(was[..i], iv, keys, rounds)
    requires block == CipherOf(AddKey(was[i..i + BLOCK], LastBlock(iv, done)), keys, rounds)
    ensures done + block == CbcEncrypt(was[..i + BLOCK], iv, keys, rounds)
    ensures block == LastBlock(iv, done + block)
  {
    hide CipherOf, AddKey;
    var y := was[i..i + BLOCK];
    assert was[..i + BLOCK] == was[..i] + y;
    EncryptJoins(was[..i], y, iv, keys, rounds);
    assert y[..BLOCK] == y && y[BLOCK..] == [];
    assert CbcEncrypt(y, LastBlock(iv, done), keys, rounds) == block + [];
  }

  lemma OneBlockLess(was: Bytes, i: nat, done: Bytes, block: Bytes, iv: Bytes, keys: Bytes, rounds: nat)
    requires Usable(keys, rounds) && |iv| == BLOCK && i % BLOCK == 0 && i + BLOCK <= |was|
    requires done == CbcDecrypt(was[..i], iv, keys, rounds)
    requires block == AddKey(InvCipherOf(was[i..i + BLOCK], keys, rounds), LastBlock(iv, was[..i]))
    ensures done + block == CbcDecrypt(was[..i + BLOCK], iv, keys, rounds)
    ensures was[i..i + BLOCK] == LastBlock(iv, was[..i + BLOCK])
  {
    hide InvCipherOf, AddKey;
    var y := was[i..i + BLOCK];
    assert was[..i + BLOCK] == was[..i] + y;
    DecryptJoins(was[..i], y, iv, keys, rounds);
    assert y[..BLOCK] == y && y[BLOCK..] == [];
    assert CbcDecrypt(y, LastBlock(iv, was[..i]), keys, rounds) == block + [];
  }
}
