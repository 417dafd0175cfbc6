/** The initial ramdisk as misc/create_initrd.py writes it: a count, a header of 88 bytes for each file, then the files' bytes. */
module InitrdImage {
  import opened Words

  const HEADER := 88
  const NAME_MAX := 63

  /** A file or directory to put in the image: what its inode says, and the bytes that reading it gives. */
  datatype Entry = Entry(parent: int, inode: int, mtime: int, name: Bytes, mode: int, size: nat, data: Bytes) {
    /** mode & 0040000: bit 2 of the digit of the file's type. */
    predicate IsDir() {
      mode / 0x1000 % 16 / 4 % 2 == 1
    }

    /** The bytes that go into the image: none for directories and empty files. */
    function Body(): Bytes {
      if IsDir() || size == 0 then [] else data
    }
  }

  predicate Signed(x: int) {
    -0x8000_0000 <= x < 0x8000_0000
  }

  predicate Unsigned(x: int) {
    0 <= x < 0x1_0000_0000
  }

  function Zeros(n: nat): (r: Bytes)
    ensures |r| == n
  {
    seq(n, _ => 0)
  }

  /** A name of at most 63 bytes in its field of 64. */
  function NameField(name: Bytes): (r: Bytes)
    ensures |r| == 64
  {
    var kept := if |name| <= NAME_MAX then name else name[..NAME_MAX];
    kept + Zeros(64 - |kept|)
  }

  /** What struct.pack accepts for 'iii64sIII'. */
  predicate CanPack(e: Entry, offset: int, length: int) {
    Signed(e.parent) && Signed(e.inode) && Signed(e.mtime) && Unsigned(e.mode) && Unsigned(offset) && Unsigned(length)
  }

  function Header(e: Entry, offset: int, length: int): (r: Bytes)
    ensures |r| == HEADER
  {
    Le32(U32(e.parent)) + Le32(U32(e.inode)) + Le32(U32(e.mtime)) + NameField(e.name)
    + Le32(U32(e.mode)) + Le32(U32(offset)) + Le32(U32(length))
  }

  // ----- the layout

  /** Bytes of data of the first k files. */
  function DataBefore(files: seq<Entry>, k: nat): (n: nat)
    requires k <= |files|
  {
    if k == 0 then 0 else DataBefore(files, k - 1) + if files[k - 1].IsDir() then 0 else files[k - 1].size
  }

  function Children(files: seq<Entry>, inode: int): (n: nat)
    ensures n <= |files|
  {
    if files == [] then 0
    else Children(files[..|files| - 1], inode) + if files[|files| - 1].parent == inode then 1 else 0
  }

  /** Where a file's bytes start: behind all headers and the data of the files before it. */
  function OffsetOf(files: seq<Entry>, k: nat): nat
    requires k < |files|
  {
    if files[k].IsDir() then 0 else 4 + HEADER * |files| + DataBefore(files, k)
  }

  function LengthOf(files: seq<Entry>, k: nat): nat
    requires k < |files|
  {
    if files[k].IsDir() then Children(files, files[k].inode) else files[k].size
  }

  predicate Packs(files: seq<Entry>, k: nat)
    requires k < |files|
  {
    CanPack(files[k], OffsetOf(files, k), LengthOf(files, k))
  }

  /** A file's size is that of its data; an empty file's data are not read. */
  predicate SizeRight(e: Entry) {
    e.IsDir() || e.size == 0 || |e.data| == e.size
  }

  predicate Writable(files: seq<Entry>) {
    && 1 <= |files| < 0x8000_0000
    && (forall k | 0 <= k < |files| :: Packs(files, k))
    && SizesRight(files, |files|)
  }

  predicate SizesRight(files: seq<Entry>, k: nat)
    requires k <= |files|
  {
    forall j | 0 <= j < k :: SizeRight(files[j])
  }

  function Headers(files: seq<Entry>, k: nat): (r: Bytes)
    requires k <= |files|
    ensures |r| == HEADER * k
  {
    if k == 0 then [] else Headers(files, k - 1) + Header(files[k - 1], OffsetOf(files, k - 1), LengthOf(files, k - 1))
  }

  function Data(files: seq<Entry>, k: nat): Bytes
    requires k <= |files|
  {
    if k == 0 then [] else Data(files, k - 1) + files[k - 1].Body()
  }

  function Image(files: seq<Entry>): Bytes
    requires Writable(files)
  {
    Le32(|files|) + Headers(files, |files|) + Data(files, |files|)
  }

  lemma {:induction false} DataLength(files: seq<Entry>, k: nat)
    requires k <= |files| && SizesRight(files, k)
    ensures |Data(files, k)| == DataBefore(files, k)
  {
    if k > 0 {
      DataLength(files, k - 1);
    }
  }

  lemma FrontSlice(front: Bytes, last: Bytes, i: nat, j: nat)
    requires i <= j <= |front|
    ensures (front + last)[i..j] == front[i..j]
  {
  }

  /** Header i stands at its place in the image. */
  lemma {:induction false} HeaderInHeaders(files: seq<Entry>, k: nat, i: nat)
    requires i < k <= |files|
    ensures Headers(files, k)[HEADER * i..HEADER * i + HEADER] == Header(files[i], OffsetOf(files, i), LengthOf(files, i))
  {
    hide Header, OffsetOf, LengthOf;
    var front := Headers(files, k - 1);
    var last := Header(files[k - 1], OffsetOf(files, k - 1), LengthOf(files, k - 1));
    if i < k - 1 {
      HeaderInHeaders(files, k - 1, i);
      FrontSlice(front, last, HEADER * i, HEADER * i + HEADER);
    }
  }

  lemma DataStep(files: seq<Entry>, k: nat)
    requires 0 < k <= |files| && SizesRight(files, k)
    ensures SizesRight(files, k - 1) && Data(files, k) == Data(files, k - 1) + files[k - 1].Body()
    ensures |Data(files, k - 1)| == DataBefore(files, k - 1)
  {
    DataLength(files, k - 1);
  }

  lemma {:induction false} BodyInData(files: seq<Entry>, k: nat, i: nat)
    requires i < k <= |files| && SizesRight(files, k)
    ensures DataBefore(files, i) + |files[i].Body()| <= |Data(files, k)|
    ensures Data(files, k)[DataBefore(files, i)..DataBefore(files, i) + |files[i].Body()|] == files[i].Body()
  {
    hide *;
    DataStep(files, k);
    if i < k - 1 {
      BodyInData(files, k - 1, i);
      FrontSlice(Data(files, k - 1), files[k - 1].Body(), DataBefore(files, i), DataBefore(files, i) + |files[i].Body()|);
    }
  }

  /** Slices of three parts put together. */
  lemma PartsAt(p: Bytes, q: Bytes, r: Bytes, i: nat, n: nat)
    ensures i + n <= |p| ==> (p + q + r)[i..i + n] == p[i..i + n]
    ensures i + n <= |q| ==> (p + q + r)[|p| + i..|p| + i + n] == q[i..i + n]
    ensures i + n <= |r| ==> (p + q + r)[|p| + |q| + i..|p| + |q| + i + n] == r[i..i + n]
  {
  }

  /** The image read back: its count, and every header at its index. */
  lemma ImageHeader(files: seq<Entry>, i: nat)
    requires Writable(files) && i < |files|
    ensures var image := Image(files);
            && |image| == 4 + HEADER * |files| + DataBefore(files, |files|)
            && image[..4] == Le32(|files|)
            && image[4 + HEADER * i..4 + HEADER * i + HEADER] == Header(files[i], OffsetOf(files, i), LengthOf(files, i))
  {
    hide Header, Le32, OffsetOf, LengthOf, Headers, Data, DataBefore;
    DataLength(files, |files|);
    HeaderInHeaders(files, |files|, i);
    PartsAt(Le32(|files|), Headers(files, |files|), Data(files, |files|), HEADER * i, HEADER);
    PartsAt(Le32(|files|), Headers(files, |files|), Data(files, |files|), 0, 4);
  }

  /** Every file's bytes are at the offset its header names. */
  lemma ImageBody(files: seq<Entry>, i: nat)
    requires Writable(files) && i < |files| && !files[i].IsDir()
    ensures var image, at := Image(files), OffsetOf(files, i);
            && 4 + HEADER * |files| <= at && at + files[i].size <= |image|
            && image[at..at + files[i].size] == files[i].Body()
  {
    hide Header, Le32, Headers, Data, DataBefore;
    DataLength(files, |files|);
    BodyInData(files, |files|, i);
    PartsAt(Le32(|files|), Headers(files, |files|), Data(files, |files|), DataBefore(files, i), files[i].size);
  }
}
