/** From the host's directory tree to the bytes a program reads from a path: listed, written, encrypted, decrypted, relocated,
    looked up, read. */
module InitrdTree {
  import opened Options
  import opened Words
  import opened InitrdImage
  import opened ImageWriter
  import opened HostTree
  import opened InitrdListing
  import opened Aes
  import opened Cbc
  import opened Initrd
  import opened InitrdLookup
  import opened InitrdRoundTrip

  /** The files of a tree as the image has them. */
  function FilesOf(root: Stat, d: Folder): (files: seq<Entry>)
    ensures |files| == |Rows(root, d)| >= 2
  {
    EntriesOf(Rows(root, d))
  }

  lemma FileAt(root: Stat, d: Folder, k: nat)
    requires Proper(d) && root.IsDir() && k < |Rows(root, d)|
    ensures var row, e := Rows(root, d)[k], FilesOf(root, d)[k];
            && e == Made(row.item, row.parent, k) && 0 !in e.name && e.name == row.item.name
            && (e.IsDir() <==> DirBit(row.item.stat.mode)) && (IsDirectory(e.mode) <==> row.item.stat.IsDir())
  {
    hide ReadOnly, Walked, Proper;
    WalkedSound(d, 1, 2);
    ReadOnlyKind(Rows(root, d)[k].item.stat.mode);
    assert k >= 2 ==> Rows(root, d)[k] == Walked(d, 1, 2)[k - 2];
  }

  /** The length of a directory's header is the number of its entries, with the root counting itself. */
  lemma DirectoryLength(root: Stat, d: Folder, k: nat)
    requires Proper(d) && root.IsDir() && 1 <= k < |Rows(root, d)| && Rows(root, d)[k].item.stat.IsDir()
    ensures LengthOf(FilesOf(root, d), k) == Rows(root, d)[k].inside.Count() + if k == 1 then 1 else 0
  {
    hide Children, Rows, Made;
    FileAt(root, d, k);
    TypeBit(Rows(root, d)[k].item.stat.mode);
    ChildrenCounted(root, d, k);
    assert FilesOf(root, d)[k].inode == k by {
      MadeNumber(Rows(root, d)[k], k);
    }
  }

  lemma TypeBit(mode: nat)
    ensures mode / 0x1000 % 16 == 4 ==> DirBit(mode)
  {
  }

  lemma MadeNumber(row: Row, k: nat)
    ensures Made(row.item, row.parent, k).inode == k
  {
  }

  lemma HeadingPut(was: Bytes, location: nat, files: seq<Entry>, i: nat)
    requires Writable(files) && i < |files| && location + |Image(files)| <= |was|
    requires was[location..location + |Image(files)|] == Image(files)
    ensures HeaderAddress(location, |files|) <= |was|
    ensures was[HeaderAddress(location, i)..HeaderAddress(location, i) + OFFSET_FIELD]
         == Header(files[i], OffsetOf(files, i), LengthOf(files, i))[..OFFSET_FIELD]
  {
    hide Header, Image, Writable, OffsetOf, LengthOf, Le32, DataBefore;
    var h := Header(files[i], OffsetOf(files, i), LengthOf(files, i));
    ImageHeader(files, i);
    Inside(was, location, Image(files), 4 + HEADER * i, 4 + HEADER * i + HEADER);
    Inside(was, HeaderAddress(location, i), h, 0, OFFSET_FIELD);
  }

  /** The part of a header in front of its offset survives relocation. */
  lemma HeadingKept(was: Bytes, now: Bytes, location: nat, files: seq<Entry>, i: nat)
    requires Writable(files) && i < |files| && location + |Image(files)| <= |was|
    requires was[location..location + |Image(files)|] == Image(files)
    requires HeaderAddress(location, |files|) <= |was| && Relocated(was, now, location, |files|, |files|)
    ensures |now| == |was|
    ensures HeadingAt(now, location, i) == HeadingOf(Header(files[i], OffsetOf(files, i), LengthOf(files, i))[..OFFSET_FIELD])
  {
    hide Header, Image, Writable, Relocated, InOffset, HeadingOf, OffsetOf, LengthOf;
    HeadingPut(was, location, files, i);
    SizeOfRelocated(was, now, location, |files|);
    var header := HeaderAddress(location, i);
    forall a: nat | header <= a < header + OFFSET_FIELD
      ensures now[a] == was[a]
    {
      BeforeOffset(a, location, |files|, i);
      RelocatedElsewhere(was, now, location, a, |files|);
    }
    SameSlice(was, now, header, header + OFFSET_FIELD);
  }

  lemma SizeOfRelocated(was: Bytes, now: Bytes, location: nat, n: nat)
    requires HeaderAddress(location, n) <= |was| && Relocated(was, now, location, n, n)
    ensures |now| == |was|
  {
  }

  lemma BeforeOffset(a: nat, location: nat, n: nat, i: nat)
    requires i < n && HeaderAddress(location, i) <= a < HeaderAddress(location, i) + OFFSET_FIELD
    ensures !InOffset(a, location, n)
  {
    forall j: nat | 1 <= j < n
      ensures !InField(a, location, j)
    {
    }
  }

  /** After the kernel has taken the image up, its headers describe the rows of the tree. */
  lemma HeadersDescribe(was: Bytes, now: Bytes, location: nat, root: Stat, d: Folder)
    requires Proper(d) && root.IsDir()
    requires var files := FilesOf(root, d);
             && Writable(files) && location + |Image(files)| <= |was| && was[location..location + |Image(files)|] == Image(files)
             && HeaderAddress(location, |files|) <= |was| && Relocated(was, now, location, |files|, |files|)
    ensures |now| == |was| && Describe(HeadingsAt(now, location, |Rows(root, d)|), Rows(root, d))
  {
    hide Image, Relocated, Rows, Made, Header, OffsetOf, LengthOf, HeadingOf, HeadingAt, Proper, CanPack, Cut, SizesRight, Entry.IsDir, IsDirectory, DirBit;
    var files, rows := FilesOf(root, d), Rows(root, d);
    SizeOfRelocated(was, now, location, |files|);
    var hs := HeadingsAt(now, location, |rows|);
    forall k | 0 <= k < |rows|
      ensures hs[k].parent == rows[k].parent && hs[k].inode == k && hs[k].name == Cut(rows[k].item.name)
              && (IsDirectory(hs[k].mode) <==> rows[k].item.stat.IsDir()) && (DirBit(hs[k].mode) <==> DirBit(rows[k].item.stat.mode))
    {
      assert Packs(files, k);
      FileAt(root, d, k);
      MadeFields(rows[k], k);
      HeadingKept(was, now, location, files, k);
      HeadingBack(files[k], OffsetOf(files, k), LengthOf(files, k));
    }
  }

  lemma MadeFields(row: Row, k: nat)
    ensures var e := Made(row.item, row.parent, k); e.IsDir() == DirBit(e.mode) && e.parent == row.parent && e.inode == k && e.name == row.item.name
  {
  }

  /** The bytes that reading this file should give: from its start, as many as are asked for and there are. */
  function Expected(item: Item, lengths: seq<nat>): Option<Bytes>
    requires item.stat.size == 0 || |item.stat.data| == item.stat.size
  {
    Some(item.stat.data[..Min(item.stat.size, Sum(lengths))])
  }

  lemma BodyOf(root: Stat, d: Folder, k: nat, lengths: seq<nat>)
    requires Proper(d) && root.IsDir() && k < |Rows(root, d)| && Writable(FilesOf(root, d)) && !DirBit(Rows(root, d)[k].item.stat.mode)
    ensures var item, e := Rows(root, d)[k].item, FilesOf(root, d)[k];
            && (item.stat.size == 0 || |item.stat.data| == item.stat.size) && !e.IsDir() && |e.Body()| == e.size
            && Expected(item, lengths) == Some(e.Body()[..Min(e.size, Sum(lengths))])
  {
    hide Rows, ReadOnly, Packs, Sum, Proper, Entry.IsDir, DirBit;
    FileAt(root, d, k);
    assert SizeRight(FilesOf(root, d)[k]);
  }

  /** The kernel opens a path in the image of a tree and reads: it finds nothing if the path names nothing in the tree, and a
      file's bytes if it names that file. */
  method TakeUpAndOpen(ghost root: Stat, ghost d: Folder, key: array<bv8>, ghost keys: Bytes, ghost iv: Bytes, mem: array<bv8>, at: nat,
                       tokens: seq<Bytes>, name: Bytes, lengths: seq<nat>) returns (got: Option<Bytes>)
    requires Proper(d) && root.IsDir() && Writable(FilesOf(root, d)) && |Image(FilesOf(root, d))| + 2 * BLOCK < 0x1_0000_0000
    requires key.Length == 32 && key != mem && IsSchedule(keys, key[..]) && Usable(keys, 14) && |iv| == BLOCK
    requires mem.Length <= 0x1_0000_0000 && forall k | 0 <= k < |lengths| :: lengths[k] < 0x1_0000_0000
    requires at + |Payload(Image(FilesOf(root, d)), iv, keys, 14)| <= mem.Length
    requires mem[at..at + |Payload(Image(FilesOf(root, d)), iv, keys, 14)|] == Payload(Image(FilesOf(root, d)), iv, keys, 14)
    requires PathNames(tokens) && SLASH !in name
    modifies mem
    ensures match Meant(d, tokens, name)
            case None => got == None
            case Some(item) => !DirBit(item.stat.mode) ==>
                                 (item.stat.size == 0 || |item.stat.data| == item.stat.size) && got == Expected(item, lengths)
  {
    hide *;
    ghost var files := FilesOf(root, d);
    var location := Decrypt(mem, at, key, Image(files), iv, keys);
    ghost var was := mem[..];
    WordsOfHeader(was, location, files, 0);
    var n := WordOf(mem[..], location);
    InitInitrd(mem, location);
    HeadersDescribe(was, mem[..], location, root, d);
    var i := FindFile(mem, location, n, tokens, name);
    ghost var hs := HeadingsAt(mem[..], location, n);
    OpenedIsMeant(hs, root, d, tokens, name);
    if i.None? {
      return None;
    }
    HeadingIn(mem[..], location, n, root, d, i.value);
    if DirBit(HeadingAt(mem[..], location, i.value).mode) {
      return None;
    }
    FileAt(root, d, i.value);
    BodyOf(root, d, i.value, lengths);
    RelocatedReadable(was, mem[..], location, files, i.value);
    var bytes := ReadPieces(mem, location, i.value, files[i.value], lengths);
    got := Some(bytes);
  }

  lemma HeadingIn(mem: Bytes, location: nat, n: nat, root: Stat, d: Folder, i: nat)
    requires HeaderAddress(location, n) <= |mem| && Describe(HeadingsAt(mem, location, n), Rows(root, d)) && i < n
    ensures HeaderAddress(location, i + 1) <= |mem| && i < |Rows(root, d)|
    ensures DirBit(HeadingAt(mem, location, i).mode) <==> DirBit(Rows(root, d)[i].item.stat.mode)
  {
    hide HeadingAt, Rows, Cut, IsDirectory, DirBit;
    assert HeadingsAt(mem, location, n)[i] == HeadingAt(mem, location, i);
  }

  /** For every tree, key and vector: the image that the tools make of the tree, taken up by the kernel, gives for every path
      what the tree has there. */
  method BuildAndOpen(root: Stat, d: Folder, key: array<bv8>, keys: Bytes, iv: Bytes, mem: array<bv8>, at: nat,
                      tokens: seq<Bytes>, name: Bytes, lengths: seq<nat>) returns (built: bool, got: Option<Bytes>)
    requires Proper(d) && root.IsDir() && key.Length == 32 && key != mem && IsSchedule(keys, key[..]) && Usable(keys, 14) && |iv| == BLOCK
    requires mem.Length < 0x1_0000_0000 && forall k | 0 <= k < |lengths| :: lengths[k] < 0x1_0000_0000
    requires PathNames(tokens) && SLASH !in name
    modifies mem
    ensures built <==> InTime(Item([SLASH], root)) && Datable(d) && Writable(FilesOf(root, d))
                       && at + |Image(FilesOf(root, d))| + 24 + BLOCK <= mem.Length
    ensures built ==> match Meant(d, tokens, name)
                      case None => got == None
                      case Some(item) => !DirBit(item.stat.mode) ==>
                                           (item.stat.size == 0 || |item.stat.data| == item.stat.size) && got == Expected(item, lengths)
  {
    hide *;
    SameFiles(root, d);
    var image := BuildImage(root, d);
    if image.None? || at + |image.value| + 24 + BLOCK > mem.Length {
      return false, None;
    }
    built := true;
    BlockSize();
    var payload := Payload(image.value, iv, keys, 14);
    PayloadParts(image.value, iv, keys, 14);
    Place(mem, at, payload);
    got := TakeUpAndOpen(root, d, key, keys, iv, mem, at, tokens, name, lengths);
  }

  lemma BlockSize()
    ensures BLOCK == 16
  {
  }

  lemma SameFiles(root: Stat, d: Folder)
    ensures FilesOf(root, d) == EntriesOf(Rows(root, d))
  {
  }
}
