/** The two tools that build the ramdisk: misc/create_initrd.py lays the image out in two passes, misc/encrypt_initrd.py
    pads and encrypts it. */
module ImageWriter {
  import opened Options
  import opened Words
  import opened InitrdImage
  import opened Aes
  import opened Cbc

  class File {
    const entry: Entry
    var offset: nat
    var length: nat

    constructor (entry: Entry)
      ensures this.entry == entry && length == entry.size && offset == 0
    {
      this.entry := entry;
      offset := 0;
      length := entry.size;
    }
  }

  function Entries(files: seq<File>): (r: seq<Entry>)
    ensures |r| == |files|
  {
    seq(|files|, i requires 0 <= i < |files| => files[i].entry)
  }

  lemma EntryAt(files: seq<File>, k: nat)
    requires k < |files|
    ensures Entries(files)[k] == files[k].entry
  {
  }

  /** Fields of the first k files are what the layout says, those of the others as they were made. */
  ghost predicate LaidOut(files: seq<File>, k: nat)
    reads files
    requires k <= |files|
  {
    forall i | 0 <= i < |files| ::
      if i < k then files[i].offset == OffsetOf(Entries(files), i) && files[i].length == LengthOf(Entries(files), i)
      else files[i].length == files[i].entry.size
  }

  lemma LayoutStart(es: seq<Entry>)
    ensures Headers(es, 0) == [] && Data(es, 0) == [] && DataBefore(es, 0) == 0
  {
  }

  lemma LayoutNext(es: seq<Entry>, k: nat)
    requires k < |es|
    ensures Headers(es, k + 1) == Headers(es, k) + Header(es[k], OffsetOf(es, k), LengthOf(es, k))
    ensures Data(es, k + 1) == Data(es, k) + es[k].Body()
    ensures DataBefore(es, k + 1) == DataBefore(es, k) + if es[k].IsDir() then 0 else es[k].size
  {
    hide Header;
  }

  lemma Joins(p: Bytes, q: Bytes, r: Bytes)
    ensures p + q + r == p + (q + r) && (r == [] ==> q + r == q)
  {
  }

  method CountChildren(files: seq<File>, inode: int) returns (children: nat)
    ensures children == Children(Entries(files), inode)
  {
    children := 0;
    ghost var es := Entries(files);
    for i := 0 to |files|
      invariant children == Children(es[..i], inode)
    {
      assert es[..i + 1][..i] == es[..i] && es[..i + 1][i] == files[i].entry;
      if files[i].entry.parent == inode {
        children := children + 1;
      }
    }
    assert es[..|files|] == es;
  }

  /** First pass: every file gets its offset and length, and its header is written. */
  method WriteHeaders(files: seq<File>) returns (ok: bool, out: Bytes)
    requires forall i, j | 0 <= i < j < |files| :: files[i] != files[j]
    requires forall i | 0 <= i < |files| :: files[i].length == files[i].entry.size
    modifies files
    ensures ok <==> forall k | 0 <= k < |files| :: Packs(Entries(files), k)
    ensures ok ==> out == Headers(Entries(files), |files|) && LaidOut(files, |files|)
  {
    hide Header, CanPack, Headers, DataBefore, Entry.IsDir;
    LayoutStart(Entries(files));
    ghost var es := Entries(files);
    out := [];
    var total := 0;
    for k := 0 to |files|
      invariant total == DataBefore(es, k) && out == Headers(es, k) && LaidOut(files, k)
      invariant forall j | 0 <= j < k :: Packs(es, j)
    {
      var file := files[k];
      EntryAt(files, k);
      LayoutNext(es, k);
      if !file.entry.IsDir() {
        file.offset := 4 + HEADER * |files| + total;
      } else {
        file.offset := 0;
        var children := CountChildren(files, file.entry.inode);
        file.length := children;
      }
      var packs := CanPack(file.entry, file.offset, file.length);
      if !packs {
        assert !Packs(es, k);
        return false, out;
      }
      out := out + Header(file.entry, file.offset, file.length);
      if !file.entry.IsDir() {
        total := total + file.length;
      }
    }
    ok := true;
  }

  /** The bytes of one file, at the position its header promises; the two assertions on the position fail only when the
      file's size is not that of its data. */
  method WriteBody(file: File, out: Bytes) returns (ok: bool, now: Bytes)
    requires file.length == file.entry.size || file.entry.IsDir()
    requires !file.entry.IsDir() ==> |out| == file.offset
    ensures ok <==> SizeRight(file.entry)
    ensures ok ==> now == out + file.entry.Body()
  {
    hide Entry.IsDir;
    now := out;
    if !file.entry.IsDir() && file.length != 0 {
      if |now| != file.offset {
        return false, now;
      }
      now := now + file.entry.data;
      if |now| != file.offset + file.length {
        return false, now;
      }
    }
    ok := true;
  }

  lemma RightNone(es: seq<Entry>)
    ensures SizesRight(es, 0)
  {
  }

  lemma RightNext(es: seq<Entry>, k: nat)
    requires k < |es|
    ensures SizesRight(es, k + 1) <==> SizesRight(es, k) && SizeRight(es[k])
  {
    hide SizeRight;
  }

  lemma NotAllRight(es: seq<Entry>, k: nat)
    requires k < |es| && !SizeRight(es[k])
    ensures !SizesRight(es, |es|)
  {
    hide SizeRight;
  }

  lemma LaidOutAt(files: seq<File>, k: nat)
    requires LaidOut(files, |files|) && k < |files|
    ensures !files[k].entry.IsDir() ==> files[k].offset == 4 + HEADER * |files| + DataBefore(Entries(files), k)
    ensures files[k].length == files[k].entry.size || files[k].entry.IsDir()
  {
    hide Entry.IsDir, DataBefore;
    EntryAt(files, k);
  }

  /** Second pass: the bytes of every file. */
  method WriteBodies(files: seq<File>, before: Bytes) returns (ok: bool, out: Bytes)
    requires LaidOut(files, |files|) && |before| == 4 + HEADER * |files|
    ensures ok <==> SizesRight(Entries(files), |files|)
    ensures ok ==> out == before + Data(Entries(files), |files|)
  {
    hide *;
    ghost var es := Entries(files);
    LayoutStart(es);
    assert SizesRight(es, 0) by {
      RightNone(es);
    }
    ghost var data: Bytes := [];
    out := before;
    for k := 0 to |files|
      invariant data == Data(es, k) && out == before + data
      invariant SizesRight(es, k)
    {
      EntryAt(files, k);
      DataLength(es, k);
      LayoutNext(es, k);
      LaidOutAt(files, k);
      RightNext(es, k);
      ok, out := WriteBody(files[k], out);
      if !ok {
        NotAllRight(es, k);
        return;
      }
      Joins(before, data, es[k].Body());
      data := data + es[k].Body();
    }
    ok := true;
  }

  /** create_image: all or nothing, and then exactly the image. */
  method CreateImage(files: seq<File>) returns (r: Option<Bytes>)
    requires forall i, j | 0 <= i < j < |files| :: files[i] != files[j]
    requires forall i | 0 <= i < |files| :: files[i].length == files[i].entry.size
    modifies files
    ensures r.Some? <==> Writable(Entries(files))
    ensures r.Some? ==> r.value == Image(Entries(files)) && LaidOut(files, |files|)
  {
    hide Header, LengthOf, OffsetOf, SizeRight, Packs, LaidOut;
    // the header format holds a signed word
    if |files| < 1 || |files| >= 0x8000_0000 {
      return None;
    }
    var ok, heads := WriteHeaders(files);
    if !ok {
      return None;
    }
    var out;
    ok, out := WriteBodies(files, Le32(|files|) + heads);
    if !ok {
      return None;
    }
    r := Some(out);
  }

  // ----- encryption

  /** PKCS 7: as many bytes as are missing to a whole block, at least one, each with that number. */
  function Pad(data: Bytes): (r: Bytes)
    ensures |r| % BLOCK == 0 && |data| < |r| <= |data| + BLOCK && r[..|data|] == data
  {
    var n := BLOCK - |data| % BLOCK;
    data + seq(n, _ => ByteOf(n))
  }

  /** What is written over the image: the length of the rest as eight bytes, the vector, the encrypted padded data. */
  function Payload(data: Bytes, iv: Bytes, keys: Bytes, rounds: nat): (r: Bytes)
    requires |iv| == BLOCK && Usable(keys, rounds) && |data| + 2 * BLOCK < 0x1_0000_0000
  {
    var cipher := iv + CbcEncrypt(Pad(data), iv, keys, rounds);
    Le32(|cipher|) + [0, 0, 0, 0] + cipher
  }
}
