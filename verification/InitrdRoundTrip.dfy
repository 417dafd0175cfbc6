/** From the files given to the tools to the bytes a program reads: written, encrypted, decrypted, relocated, read. */
module InitrdRoundTrip {
  import opened Options
  import opened Words
  import opened InitrdImage
  import opened ImageWriter
  import opened Aes
  import opened Cbc
  import opened AesCbc
  import opened Initrd

  // ----- the keys of both sides

  /** These are the round keys of an AES-256 key. */
  ghost predicate IsSchedule(keys: Bytes, key: Bytes) {
    && |key| == 32 && |keys| == BLOCK * 15
    && forall i: nat | i < 60 :: ScheduleIndex(i, 8) && Scheduled(keys, key, i, 8)
  }

  /** The recurrence determines them. */
  lemma {:induction false} ScheduleUnique(a: Bytes, b: Bytes, key: Bytes, n: nat)
    requires IsSchedule(a, key) && IsSchedule(b, key) && n <= 60
    ensures a[..4 * n] == b[..4 * n]
  {
    hide ScheduleCore, AddWords;
    if n > 0 {
      ScheduleUnique(a, b, key, n - 1);
      var i := n - 1;
      assert Scheduled(a, key, i, 8) && Scheduled(b, key, i, 8);
      if i >= 8 {
        SameWords(a, b, i, i - 8);
        SameWords(a, b, i, i - 1);
      }
      assert WordAt(a, i) == WordAt(b, i);
      assert a[..4 * n] == a[..4 * i] + WordAt(a, i) && b[..4 * n] == b[..4 * i] + WordAt(b, i);
    }
  }

  lemma SameWords(a: Bytes, b: Bytes, n: nat, i: nat)
    requires i < n && 4 * n <= |a| && 4 * n <= |b| && a[..4 * n] == b[..4 * n]
    ensures WordAt(a, i) == WordAt(b, i)
  {
    assert a[..4 * n][4 * i..4 * i + 4] == WordAt(a, i) && b[..4 * n][4 * i..4 * i + 4] == WordAt(b, i);
  }

  // ----- the payload

  /** The parts of a payload. */
  lemma PayloadParts(data: Bytes, iv: Bytes, keys: Bytes, rounds: nat)
    requires |iv| == BLOCK && Usable(keys, rounds) && |data| + 2 * BLOCK < 0x1_0000_0000
    ensures var p, n := Payload(data, iv, keys, rounds), |Pad(data)|;
            && |p| == 24 + n && FromLe32(p[..4]) == BLOCK + n && p[8..24] == iv && p[24..] == CbcEncrypt(Pad(data), iv, keys, rounds)
  {
    hide CbcEncrypt, Pad, FromLe32, Le32;
    var c := CbcEncrypt(Pad(data), iv, keys, rounds);
    WordBack(BLOCK + |c|);
    var p := Payload(data, iv, keys, rounds);
    assert p == Le32(BLOCK + |c|) + [0, 0, 0, 0] + (iv + c);
    assert p[..4] == Le32(BLOCK + |c|);
  }

  lemma WholeBlocks(n: nat)
    requires n % BLOCK == 0
    ensures Covered(n) == n
  {
  }

  /** Decrypting a payload in memory leaves the image that was encrypted, at the address returned. */
  method Decrypt(mem: array<bv8>, at: nat, key: array<bv8>, ghost image: Bytes, ghost iv: Bytes, ghost keys: Bytes) returns (start: nat)
    requires key.Length == 32 && key != mem && IsSchedule(keys, key[..]) && |iv| == BLOCK && |image| + 2 * BLOCK < 0x1_0000_0000
    requires Usable(keys, 14) && at + |Payload(image, iv, keys, 14)| <= mem.Length
    requires mem[at..at + |Payload(image, iv, keys, 14)|] == Payload(image, iv, keys, 14)
    modifies mem
    ensures start == at + 24 && start + |image| <= mem.Length && mem[start..start + |image|] == image
  {
    hide CbcEncrypt, CbcDecrypt, IsSchedule, Scheduled, FromLe32, Usable, Payload, Pad, Covered;
    ghost var p, padded := Payload(image, iv, keys, 14), Pad(image);
    PayloadParts(image, iv, keys, 14);
    WholeBlocks(|padded|);
    ghost var was := mem[..];
    assert was[at..at + |p|] == p;
    Inside(was, at, p, 0, 4);
    Inside(was, at, p, 8, 24);
    Inside(was, at, p, 24, |p|);
    ghost var expanded;
    start, expanded := DecryptInitrd(mem, at, key);
    Same(expanded, keys, key[..]);
    CbcInverse(padded, iv, keys, 14);
    Inside(mem[..], start, padded, 0, |image|);
  }

  lemma Inside(b: Bytes, at: nat, p: Bytes, i: nat, j: nat)
    requires at + |p| <= |b| && b[at..at + |p|] == p && i <= j <= |p|
    ensures b[at + i..at + j] == p[i..j]
  {
    forall k | 0 <= k < j - i
      ensures b[at + i..at + j][k] == p[i..j][k]
    {
      assert b[at..at + |p|][i + k] == b[at + i + k];
    }
  }

  lemma Same(a: Bytes, b: Bytes, key: Bytes)
    requires |key| == 32 && Usable(a, 14) && IsSchedule(b, key)
    requires forall i: nat | i < 60 :: ScheduleIndex(i, 8) && Scheduled(a, key, i, 8)
    ensures a == b
  {
    ScheduleUnique(a, b, key, 60);
  }

  // ----- the files

  /** Words 19 to 21 of a header. */
  ghost predicate HeaderHolds(h: Bytes, mode: nat, offset: nat, length: nat)
    requires |h| == HEADER
  {
    && FromLe32(h[MODE_FIELD..MODE_FIELD + 4]) == mode && FromLe32(h[OFFSET_FIELD..OFFSET_FIELD + 4]) == offset
    && FromLe32(h[LENGTH_FIELD..LENGTH_FIELD + 4]) == length
  }

  lemma HeaderWords(e: Entry, offset: int, length: int)
    ensures HeaderHolds(Header(e, offset, length), U32(e.mode), U32(offset), U32(length))
  {
    hide FromLe32, Le32, NameField;
    var h := Header(e, offset, length);
    var front := Le32(U32(e.parent)) + Le32(U32(e.inode)) + Le32(U32(e.mtime)) + NameField(e.name);
    assert h == front + Le32(U32(e.mode)) + Le32(U32(offset)) + Le32(U32(length));
    assert h[MODE_FIELD..MODE_FIELD + 4] == Le32(U32(e.mode));
    assert h[OFFSET_FIELD..OFFSET_FIELD + 4] == Le32(U32(offset));
    assert h[LENGTH_FIELD..LENGTH_FIELD + 4] == Le32(U32(length));
    WordBack(U32(e.mode));
    WordBack(U32(offset));
    WordBack(U32(length));
  }

  /** File i of an image that lies at this location is there to be read: its header's words, and its bytes at the address the
      header gives. */
  ghost predicate Readable(mem: Bytes, location: nat, i: nat, e: Entry) {
    && HeaderAddress(location, i + 1) <= |mem|
    && var header := HeaderAddress(location, i);
    && var start := WordOf(mem, header + OFFSET_FIELD);
    && WordOf(mem, header + MODE_FIELD) == e.mode && WordOf(mem, header + LENGTH_FIELD) == e.size
    && start + e.size <= |mem| && mem[start..start + e.size] == e.Body()
  }

  lemma WordsOfHeader(mem: Bytes, location: nat, files: seq<Entry>, i: nat)
    requires Writable(files) && i < |files| && location + |Image(files)| <= |mem|
    requires mem[location..location + |Image(files)|] == Image(files)
    ensures location + 4 <= |mem| && HeaderAddress(location, |files|) <= |mem| && WordOf(mem, location) == |files|
    ensures var header := HeaderAddress(location, i);
            && WordOf(mem, header + MODE_FIELD) == files[i].mode
            && WordOf(mem, header + OFFSET_FIELD) == OffsetOf(files, i)
            && WordOf(mem, header + LENGTH_FIELD) == LengthOf(files, i)
  {
    hide Header, FromLe32, Le32, Image, OffsetOf, LengthOf;
    var image, h := Image(files), Header(files[i], OffsetOf(files, i), LengthOf(files, i));
    ImageHeader(files, i);
    HeaderWords(files[i], OffsetOf(files, i), LengthOf(files, i));
    WordBack(|files|);
    assert Packs(files, i);
    var at := 4 + HEADER * i;
    Inside(mem, location, image, 0, 4);
    Inside(mem, location, image, at, at + HEADER);
    Inside(mem, location + at, h, MODE_FIELD, MODE_FIELD + 4);
    Inside(mem, location + at, h, OFFSET_FIELD, OFFSET_FIELD + 4);
    Inside(mem, location + at, h, LENGTH_FIELD, LENGTH_FIELD + 4);
  }

  /** Relocation makes every file but the first readable where it is. */
  lemma RelocatedReadable(was: Bytes, now: Bytes, location: nat, files: seq<Entry>, i: nat)
    requires Writable(files) && 1 <= i < |files| && !files[i].IsDir() && location + |Image(files)| <= |was| <= 0x1_0000_0000
    requires was[location..location + |Image(files)|] == Image(files)
    requires HeaderAddress(location, |files|) <= |was| && Relocated(was, now, location, |files|, |files|)
    ensures Readable(now, location, i, files[i])
  {
    hide Header, FromLe32, Le32, Image, Writable, Relocated, InOffset, Entry.Body, Entry.IsDir, DataBefore, OffsetOf;
    RelocatedWord(was, now, location, i, |files|);
    SizeIsLength(files, i);
    WordsOfHeader(was, location, files, i);
    ImageBody(files, i);
    var header, start := HeaderAddress(location, i), location + OffsetOf(files, i);
    StaysReadable(was, now, location, |files|, i, start, start + files[i].size);
    SameWord(was, now, header + MODE_FIELD);
    SameWord(was, now, header + LENGTH_FIELD);
    Inside(was, location, Image(files), OffsetOf(files, i), OffsetOf(files, i) + files[i].size);
    SameSlice(was, now, start, start + files[i].size);
  }

  /** Mode and length of a header stay, and what is behind the headers. */
  lemma StaysReadable(was: Bytes, now: Bytes, location: nat, n: nat, i: nat, lo: nat, hi: nat)
    requires i < n && HeaderAddress(location, n) <= |was| && Relocated(was, now, location, n, n)
    requires HeaderAddress(location, n) <= lo <= hi <= |was|
    ensures |now| == |was|
    ensures var header := HeaderAddress(location, i);
            forall a: nat | header + MODE_FIELD <= a < header + MODE_FIELD + 4 || header + LENGTH_FIELD <= a < header + LENGTH_FIELD + 4
                            || lo <= a < hi :: now[a] == was[a]
  {
    hide Relocated, InOffset;
    var header := HeaderAddress(location, i);
    NotAnOffset(header + MODE_FIELD, location, n, i);
    RelocatedElsewhere(was, now, location, header + MODE_FIELD, n);
    forall a: nat | header + MODE_FIELD <= a < header + MODE_FIELD + 4 || header + LENGTH_FIELD <= a < header + LENGTH_FIELD + 4
                    || lo <= a < hi
      ensures now[a] == was[a]
    {
      NotAnOffset(a, location, n, i);
      RelocatedElsewhere(was, now, location, a, n);
    }
  }

  lemma SameSlice(b: Bytes, c: Bytes, i: nat, j: nat)
    requires i <= j <= |b| == |c| && forall a: nat | i <= a < j :: b[a] == c[a]
    ensures b[i..j] == c[i..j]
  {
  }

  lemma RelocatedWord(was: Bytes, now: Bytes, location: nat, i: nat, n: nat)
    requires HeaderAddress(location, n) <= |was| && Relocated(was, now, location, n, n) && 1 <= i < n
    ensures |now| == |was| && HeaderAddress(location, i + 1) <= |was|
    ensures WordOf(now, HeaderAddress(location, i) + OFFSET_FIELD) == U32(WordOf(was, HeaderAddress(location, i) + OFFSET_FIELD) + location)
  {
    hide WordOf, InOffset;
  }

  lemma RelocatedElsewhere(was: Bytes, now: Bytes, location: nat, a: nat, n: nat)
    requires HeaderAddress(location, n) <= |was| && Relocated(was, now, location, n, n) && a < |was| && !InOffset(a, location, n)
    ensures |now| == |was| && now[a] == was[a]
  {
    hide WordOf, InOffset;
  }

  lemma SizeIsLength(files: seq<Entry>, i: nat)
    requires i < |files| && !files[i].IsDir()
    ensures LengthOf(files, i) == files[i].size
  {
  }

  /** Mode and length fields, and the data behind the headers, are no offset fields. */
  lemma NotAnOffset(a: nat, location: nat, n: nat, i: nat)
    requires i < n
    requires var header := HeaderAddress(location, i);
             header + MODE_FIELD <= a < header + MODE_FIELD + 4 || header + LENGTH_FIELD <= a < header + LENGTH_FIELD + 4
             || a >= HeaderAddress(location, n)
    ensures !InOffset(a, location, n)
  {
    forall j: nat | 1 <= j < n
      ensures !InField(a, location, j)
    {
    }
  }

  // ----- reading in any pieces

  function Sum(lengths: seq<nat>): nat {
    if lengths == [] then 0 else Sum(lengths[..|lengths| - 1]) + lengths[|lengths| - 1]
  }

  function Min(a: nat, b: nat): nat {
    if a < b then a else b
  }

  /** Any sequence of reads delivers the file's bytes in order, from the first to as many as are asked for and there are. */
  method ReadPieces(mem: array<bv8>, location: nat, i: nat, ghost e: Entry, lengths: seq<nat>) returns (got: Bytes)
    requires Readable(mem[..], location, i, e) && !e.IsDir() && mem.Length <= 0x1_0000_0000
    requires forall k | 0 <= k < |lengths| :: lengths[k] < 0x1_0000_0000
    ensures got == e.Body()[..Min(e.size, Sum(lengths))] && |e.Body()| == e.size
  {
    hide FromLe32, WordOf, Entry.Body;
    var file := new OpenFile(i);
    got := [];
    ghost var was := mem[..];
    BodySize(was, location, i, e);
    assert lengths[..|lengths|] == lengths;
    for k := 0 to |lengths|
      invariant file.ino == i && fresh(file) && mem[..] == was
      invariant file.offset == Min(e.size, Sum(lengths[..k])) && got == e.Body()[..file.offset]
    {
      var buf := new bv8[lengths[k]];
      ghost var before := file.offset;
      SumNext(lengths, k);
      var r := Read(mem, location, file, buf, lengths[k]);
      Delivered(was, location, i, e, before, lengths[k], r, file.offset, buf[..]);
      if r.Some? && r.value > 0 {
        got := got + buf[..r.value];
      }
    }
  }

  lemma SumNext(lengths: seq<nat>, k: nat)
    requires k < |lengths|
    ensures Sum(lengths[..k + 1]) == Sum(lengths[..k]) + lengths[k] && Sum(lengths[..0]) == 0
  {
    assert lengths[..k + 1][..k] == lengths[..k];
  }

  lemma BodySize(mem: Bytes, location: nat, i: nat, e: Entry)
    requires Readable(mem, location, i, e)
    ensures |e.Body()| == e.size
  {
    hide FromLe32;
  }

  /** One read of a readable file: no error, and the next bytes. */
  lemma Delivered(mem: Bytes, location: nat, i: nat, e: Entry, offset: nat, length: nat, r: Option<int>, offset': nat, buf: Bytes)
    requires Readable(mem, location, i, e) && !e.IsDir() && |mem| <= 0x1_0000_0000 && offset <= e.size
    requires |buf| == length
    requires ReadOutcome(mem, HeaderAddress(location, i), offset, length, r, offset', buf)
    ensures r.Some? && r.value >= 0 && offset' == offset + r.value == Min(e.size, offset + length) && r.value <= |buf|
    ensures e.Body()[..offset'] == e.Body()[..offset] + buf[..r.value]
  {
    hide FromLe32, WordOf, Entry.Body;
    var start := WordOf(mem, HeaderAddress(location, i) + OFFSET_FIELD);
    NotDirectory(e);
    hide Entry.IsDir, IsDirectory, U32;
    if offset < e.size && length > 0 {
      NoWrap(start + offset);
      var n := offset' - offset;
      Inside(mem, start, e.Body(), offset, offset + n);
    }
  }

  lemma NoWrap(x: nat)
    requires x < 0x1_0000_0000
    ensures U32(x) == x
  {
  }

  lemma NotDirectory(e: Entry)
    requires !e.IsDir() && e.mode >= 0
    ensures !IsDirectory(e.mode)
  {
  }

  // ----- from one end to the other

  /** The kernel takes up an encrypted image in memory, and any sequence of reads of a file but the first delivers its bytes. */
  method TakeUpAndRead(ghost files: seq<Entry>, key: array<bv8>, ghost keys: Bytes, ghost iv: Bytes, mem: array<bv8>, at: nat, i: nat, lengths: seq<nat>)
    returns (got: Bytes)
    requires Writable(files) && |Image(files)| + 2 * BLOCK < 0x1_0000_0000
    requires key.Length == 32 && key != mem && IsSchedule(keys, key[..]) && Usable(keys, 14) && |iv| == BLOCK
    requires 1 <= i < |files| && !files[i].IsDir()
    requires mem.Length <= 0x1_0000_0000 && forall k | 0 <= k < |lengths| :: lengths[k] < 0x1_0000_0000
    requires at + |Payload(Image(files), iv, keys, 14)| <= mem.Length
    requires mem[at..at + |Payload(Image(files), iv, keys, 14)|] == Payload(Image(files), iv, keys, 14)
    modifies mem
    ensures |files[i].Body()| == files[i].size && got == files[i].Body()[..Min(files[i].size, Sum(lengths))]
  {
    hide *;
    var location := Decrypt(mem, at, key, Image(files), iv, keys);
    ghost var was := mem[..];
    WordsOfHeader(was, location, files, i);
    InitInitrd(mem, location);
    RelocatedReadable(was, mem[..], location, files, i);
    got := ReadPieces(mem, location, i, files[i], lengths);
  }

  /** For every list of files that can be written, every key and vector: the image the tools make, put in memory and taken up by
      the kernel, delivers the bytes of every file but the first to any sequence of reads. */
  method WriteAndRead(files: seq<File>, key: array<bv8>, keys: Bytes, iv: Bytes, mem: array<bv8>, at: nat, i: nat, lengths: seq<nat>)
    returns (got: Option<Bytes>)
    requires forall j, k | 0 <= j < k < |files| :: files[j] != files[k]
    requires forall k | 0 <= k < |files| :: files[k].length == files[k].entry.size
    requires key.Length == 32 && key != mem && IsSchedule(keys, key[..]) && Usable(keys, 14) && |iv| == BLOCK
    requires 1 <= i < |files| && !files[i].entry.IsDir()
    requires mem.Length < 0x1_0000_0000 && forall k | 0 <= k < |lengths| :: lengths[k] < 0x1_0000_0000
    modifies files, mem
    ensures got.Some? ==>
              var e := files[i].entry;
              Writable(Entries(files)) && |e.Body()| == e.size && got.value == e.Body()[..Min(e.size, Sum(lengths))]
    ensures got.None? ==> !Writable(Entries(files)) || at + |Image(Entries(files))| + 24 + BLOCK > mem.Length
  {
    hide Image, Writable, Payload, CbcEncrypt, IsSchedule, Usable, Pad, Entries, Entry.Body, Entry.IsDir, Sum, Min;
    EntryAt(files, i);
    var image := CreateImage(files);
    if image.None? {
      return None;
    }
    if at + |image.value| + 24 + BLOCK > mem.Length {
      return None;
    }
    var payload := Payload(image.value, iv, keys, 14);
    PayloadParts(image.value, iv, keys, 14);
    Place(mem, at, payload);
    var bytes := TakeUpAndRead(Entries(files), key, keys, iv, mem, at, i, lengths);
    got := Some(bytes);
  }

  /** The boot loader's part. */
  method Place(mem: array<bv8>, at: nat, payload: Bytes)
    requires at + |payload| <= mem.Length
    modifies mem
    ensures mem[at..at + |payload|] == payload
  {
    for k := 0 to |payload|
      invariant mem[at..at + k] == payload[..k]
    {
      mem[at + k] := payload[k];
    }
  }
}
