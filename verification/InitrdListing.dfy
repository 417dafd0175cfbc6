/** misc/create_initrd.py's list of files: numbers are given in order, and the number of a file's directory is found by its path. */
module InitrdListing {
  import opened Options
  import opened Words
  import opened InitrdImage
  import opened ImageWriter
  import opened HostTree

  datatype Found = Found(path: Bytes, entry: Entry)

  /** The assertions on the time of last change. */
  predicate InTime(item: Item) {
    0 <= item.stat.mtime < 0x7FFF_FFFF
  }

  predicate Datable(d: Folder) {
    && (forall i | 0 <= i < d.Count() :: InTime(d.Nth(i)))
    && (forall i | 0 <= i < |d.dirs| :: Skipped(d.dirs[i].item.name) || Datable(d.dirs[i].inside))
  }

  /** From this place on the list is that of the rows. */
  ghost predicate Lists(found: seq<Found>, from: nat, rows: seq<Row>) {
    && |found| == from + |rows|
    && forall j | 0 <= j < |rows| :: found[from + j].entry == Made(rows[j].item, rows[j].parent, from + j)
  }

  ghost predicate Numbered(found: seq<Found>) {
    forall k | 0 <= k < |found| :: found[k].entry.inode == k
  }

  predicate InRoot(dir: Bytes) {
    |dir| == 1 || dir == TOP
  }

  /** The first entry with this path. */
  ghost predicate FirstIs(found: seq<Found>, path: Bytes, k: nat) {
    k < |found| && found[k].path == path && forall j | 0 <= j < k :: found[j].path != path
  }

  ghost predicate NoneBelow(found: seq<Found>, top: Bytes) {
    forall k | 0 <= k < |found| :: !Below(top, found[k].path)
  }

  /** Entries are found by the path of their directory under its number. */
  ghost predicate NumberOf(found: seq<Found>, top: Bytes, me: nat) {
    if InRoot(top) then me == 1 else FirstIs(found, top, me)
  }

  class Listing {
    var found: seq<Found>
    var inode: nat

    ghost predicate Valid()
      reads this
    {
      inode == |found| && Numbered(found)
    }

    /** The null entry, with number 0. */
    constructor ()
      ensures Valid() && found == [Found([], Entry(0, 0, 0, [], 0x4000, 0, []))]
    {
      found := [Found([], Entry(0, 0, 0, [], 0x4000, 0, []))];
      inode := 1;
    }

    /** parent_inode. */
    method ParentInode(path: Bytes) returns (r: Option<int>)
      ensures InRoot(Dirname(path)) ==> r == Some(1)
      ensures !InRoot(Dirname(path)) && r.Some? ==> exists k: nat :: FirstIs(found, Dirname(path), k) && r.value == found[k].entry.inode
      ensures r.None? ==> !InRoot(Dirname(path)) && forall k | 0 <= k < |found| :: found[k].path != Dirname(path)
    {
      hide Dirname;
      var dir := Dirname(path);
      if InRoot(dir) {
        return Some(1);
      }
      for k := 0 to |found|
        invariant forall j | 0 <= j < k :: found[j].path != dir
      {
        if found[k].path == dir {
          assert FirstIs(found, dir, k);
          return Some(found[k].entry.inode);
        }
      }
      r := None;
    }

    /** add_entry: the next number, and the parent that the path names; it raises an error when there is none, or when the
        time is out of range. */
    method AddEntry(root: Bytes, item: Item) returns (r: Option<int>)
      requires Valid()
      modifies this
      ensures var dir := Dirname(Join(root, item.name));
              && (r.Some? <==> InTime(item) && (InRoot(dir) || exists k :: 0 <= k < |old(found)| && old(found)[k].path == dir))
              && (r.Some? && InRoot(dir) ==> r.value == 1)
              && (r.Some? && !InRoot(dir) ==> exists k: nat :: FirstIs(old(found), dir, k) && r.value == k)
      ensures r.Some? ==> Valid() && found == old(found) + [Found(Join(root, item.name), Made(item, r.value, |old(found)|))]
      ensures r.None? ==> found == old(found)
    {
      hide Dirname, Join, ReadOnly, DirBit;
      var path := Join(root, item.name);
      var parent := ParentInode(path);
      if parent.None? {
        return None;
      }
      var number := inode;
      inode := inode + 1;
      if !(0 <= item.stat.mtime < 0x7FFF_FFFF) {
        return None;
      }
      found := found + [Found(path, Made(item, parent.value, number))];
      r := parent;
    }
  
    /** One entry of a directory: its parent is found. */
    method AddIn(top: Bytes, d: Folder, ghost me: nat, i: nat) returns (ok: bool)
      requires Valid() && Proper(d) && SoundTop(top) && NumberOf(found, top, me) && i < d.Count()
      modifies this
      ensures ok <==> InTime(d.Nth(i))
      ensures ok ==> Valid() && found == old(found) + [Found(Join(top, d.Nth(i).name), Made(d.Nth(i), me, |old(found)|))]
      ensures ok ==> NumberOf(found, top, me)
    {
      hide Dirname, Join, Made, InTime;
      JoinedName(top, d.Nth(i).name);
      ghost var was := found;
      if !InRoot(top) {
        assert found[me].path == top;
      }
      var r := AddEntry(top, d.Nth(i));
      ok := r.Some?;
      if ok && !InRoot(top) {
        ghost var k: nat :| FirstIs(was, top, k) && r.value == k;
        assert k == me;
      }
    }

    /** The loops over the subdirectories and the other entries. */
    method AddAll(top: Bytes, d: Folder, ghost me: nat) returns (ok: bool)
      requires Valid() && Proper(d) && SoundTop(top) && NumberOf(found, top, me)
      modifies this
      ensures ok <==> forall i | 0 <= i < d.Count() :: InTime(d.Nth(i))
      ensures ok ==> Valid() && HeadsListed(old(found), found, top, d, me, d.Count())
    {
      hide Join, Made, InTime, Proper, NumberOf, HeadsListed;
      ghost var was := found;
      NoHeads(was, top, d, me);
      for i := 0 to |d.dirs|
        invariant Valid() && NumberOf(found, top, me) && HeadsListed(was, found, top, d, me, i)
        invariant forall j | 0 <= j < i :: InTime(d.Nth(j))
      {
        ghost var mid := found;
        ok := AddIn(top, d, me, i);
        if !ok {
          return;
        }
        OneMore(was, mid, found, top, d, me, i);
      }
      for i := |d.dirs| to d.Count()
        invariant Valid() && NumberOf(found, top, me) && HeadsListed(was, found, top, d, me, i)
        invariant forall j | 0 <= j < i :: InTime(d.Nth(j))
      {
        ghost var mid := found;
        ok := AddIn(top, d, me, i);
        if !ok {
          return;
        }
        OneMore(was, mid, found, top, d, me, i);
      }
      ok := true;
    }

    /** What happens from one directory of the walk on: its entries are added, then the walk goes through its subdirectories. It
        never looks for a parent in vain, and lists exactly the rows. */
    method Walk(top: Bytes, d: Folder, ghost me: nat) returns (ok: bool)
      requires Valid() && Proper(d) && SoundTop(top) && NumberOf(found, top, me) && NoneBelow(found, top)
      modifies this
      ensures ok <==> Datable(d)
      ensures ok ==> Valid() && WalkListed(old(found), found, top, Walked(d, me, |old(found)|))
      decreases d
    {
      hide Join, Made, InTime, NumberOf, NoneBelow, HeadsListed, WalkListed, Undone, Valid, Inner, SoundTop, ProperName;
      ghost var was := found;
      ok := AddAll(top, d, me);
      if !ok {
        return;
      }
      NoneDone(was, found, top, d, me);
      for k := 0 to |d.dirs|
        invariant Valid() && WalkListed(was, found, top, Heads(d, me) + Inner(d, k, |was|)) && Undone(was, found, top, d, k)
        invariant forall i | 0 <= i < k :: Skipped(d.dirs[i].item.name) || Datable(d.dirs[i].inside)
      {
        ghost var mid := found;
        var name := d.dirs[k].item.name;
        assert name == d.Nth(k).name;
        NextUndone(was, mid, top, d, k);
        if !Skipped(name) {
          ok := Walk(Join(top, name), d.dirs[k].inside, |was| + k);
          if !ok {
            return;
          }
          ghost var block := Walked(d.dirs[k].inside, |was| + k, |mid|);
          WalkedOn(was, mid, found, top, name, Heads(d, me) + Inner(d, k, |was|), block);
          OthersUndone(was, mid, found, top, d, k, block);
          InnerNext(d, k, |was|, Heads(d, me), block, |mid|);
        } else {
          InnerNext(d, k, |was|, Heads(d, me), [], 0);
        }
      }
      ok := true;
    }
  }

  /** The first n entries of a directory have been added. */
  ghost predicate HeadsListed(was: seq<Found>, now: seq<Found>, top: Bytes, d: Folder, me: nat, n: nat) {
    && n <= d.Count() && |now| == |was| + n && now[..|was|] == was
    && forall j | 0 <= j < n :: now[|was| + j] == Found(Join(top, d.Nth(j).name), Made(d.Nth(j), me, |was| + j))
  }

  lemma NoHeads(was: seq<Found>, top: Bytes, d: Folder, me: nat)
    ensures HeadsListed(was, was, top, d, me, 0)
  {
  }

  lemma OneMore(was: seq<Found>, mid: seq<Found>, now: seq<Found>, top: Bytes, d: Folder, me: nat, i: nat)
    requires HeadsListed(was, mid, top, d, me, i) && i < d.Count()
    requires now == mid + [Found(Join(top, d.Nth(i).name), Made(d.Nth(i), me, |mid|))]
    ensures HeadsListed(was, now, top, d, me, i + 1)
  {
    hide Join, Made;
  }

  /** These rows have been added, for files below this path. */
  ghost predicate WalkListed(was: seq<Found>, now: seq<Found>, top: Bytes, rows: seq<Row>) {
    && |was| <= |now| && now[..|was|] == was && Lists(now, |was|, rows)
    && forall k | |was| <= k < |now| :: Below(top, now[k].path)
  }

  /** The subdirectories from the k-th on are found under their numbers, and nothing is listed below them yet. */
  ghost predicate Undone(was: seq<Found>, now: seq<Found>, top: Bytes, d: Folder, k: nat) {
    forall j | k <= j < |d.dirs| :: SubUndone(was, now, Join(top, d.Nth(j).name), j)
  }

  ghost predicate SubUndone(was: seq<Found>, now: seq<Found>, path: Bytes, j: nat) {
    FirstIs(now, path, |was| + j) && NoneBelow(now, path)
  }

  lemma NoneDone(was: seq<Found>, now: seq<Found>, top: Bytes, d: Folder, me: nat)
    requires Proper(d) && SoundTop(top) && NoneBelow(was, top) && HeadsListed(was, now, top, d, me, d.Count())
    ensures WalkListed(was, now, top, Heads(d, me) + Inner(d, 0, |was|)) && Undone(was, now, top, d, 0)
  {
    hide Join, Made, Below, ProperName, SoundTop, SubUndone, NoneBelow;
    assert Heads(d, me) + Inner(d, 0, |was|) == Heads(d, me);
    forall j | 0 <= j < d.Count()
      ensures Below(top, Join(top, d.Nth(j).name))
    {
      JoinedName(top, d.Nth(j).name);
    }
    forall k | |was| <= k < |now|
      ensures Below(top, now[k].path)
    {
      assert now[|was| + (k - |was|)].path == Join(top, d.Nth(k - |was|).name);
    }
    forall j | 0 <= j < |d.dirs|
      ensures SubUndone(was, now, Join(top, d.Nth(j).name), j)
    {
      NoneDoneAt(was, now, top, d, me, j);
    }
  }

  lemma NoneDoneAt(was: seq<Found>, now: seq<Found>, top: Bytes, d: Folder, me: nat, j: nat)
    requires Proper(d) && SoundTop(top) && NoneBelow(was, top) && HeadsListed(was, now, top, d, me, d.Count()) && j < d.Count()
    ensures SubUndone(was, now, Join(top, d.Nth(j).name), j)
  {
    hide Join, Made, Below, ProperName, SoundTop;
    var path := Join(top, d.Nth(j).name);
    forall i | 0 <= i < |now|
      ensures !Below(path, now[i].path) && (i != |was| + j ==> now[i].path != path)
    {
      if i < |was| {
        assert now[i] == was[i];
        NotBelowOld(top, d.Nth(j).name, was[i].path);
      } else {
        assert now[|was| + (i - |was|)].path == Join(top, d.Nth(i - |was|).name);
        NotBelowHead(top, d.Nth(j).name, d.Nth(i - |was|).name);
      }
    }
  }

  lemma NotBelowOld(top: Bytes, name: Bytes, p: Bytes)
    requires SoundTop(top) && ProperName(name) && !Below(top, p)
    ensures !Below(Join(top, name), p) && p != Join(top, name)
  {
    JoinedName(top, name);
    if Below(Join(top, name), p) {
      BelowName(top, name, p);
    }
  }

  lemma NotBelowHead(top: Bytes, name: Bytes, other: Bytes)
    requires SoundTop(top) && ProperName(name) && ProperName(other)
    ensures !Below(Join(top, name), Join(top, other)) && (name != other ==> Join(top, name) != Join(top, other))
  {
    JoinedName(top, name);
    JoinedName(top, other);
    if Below(Join(top, name), Join(top, other)) {
      Siblings(top, name, other, Join(top, other));
    }
    assert Join(top, name)[|top| + 1..] == name && Join(top, other)[|top| + 1..] == other;
  }

  /** The next subdirectory can be walked. */
  lemma NextUndone(was: seq<Found>, now: seq<Found>, top: Bytes, d: Folder, k: nat)
    requires Undone(was, now, top, d, k) && k < |d.dirs| && Proper(d) && SoundTop(top)
    ensures var path := Join(top, d.Nth(k).name);
            SoundTop(path) && NumberOf(now, path, |was| + k) && NoneBelow(now, path) && Proper(d.dirs[k].inside)
    ensures Undone(was, now, top, d, k + 1)
  {
    hide Join;
    JoinedName(top, d.Nth(k).name);
    assert SubUndone(was, now, Join(top, d.Nth(k).name), k);
  }

  lemma WalkedOn(was: seq<Found>, mid: seq<Found>, now: seq<Found>, top: Bytes, name: Bytes, rows: seq<Row>, block: seq<Row>)
    requires SoundTop(top) && ProperName(name)
    requires WalkListed(was, mid, top, rows) && WalkListed(mid, now, Join(top, name), block)
    ensures WalkListed(was, now, top, rows + block) && |mid| == |was| + |rows|
  {
    hide Join, Made, Below, ProperName, SoundTop;
    forall k | |mid| <= k < |now|
      ensures Below(top, now[k].path)
    {
      BelowName(top, name, now[k].path);
    }
    forall j | 0 <= j < |rows + block|
      ensures now[|was| + j].entry == Made((rows + block)[j].item, (rows + block)[j].parent, |was| + j)
    {
      if j < |rows| {
        assert now[|was| + j] == mid[|was| + j];
      } else {
        assert now[|mid| + (j - |rows|)].entry == Made(block[j - |rows|].item, block[j - |rows|].parent, |mid| + (j - |rows|));
      }
    }
  }

  /** Walking one subdirectory adds nothing that belongs to another. */
  lemma OthersUndone(was: seq<Found>, mid: seq<Found>, now: seq<Found>, top: Bytes, d: Folder, k: nat, block: seq<Row>)
    requires Proper(d) && SoundTop(top) && k < |d.dirs| && Undone(was, mid, top, d, k + 1)
    requires WalkListed(mid, now, Join(top, d.Nth(k).name), block)
    ensures Undone(was, now, top, d, k + 1)
  {
    hide Join, Made, Below, SoundTop, ProperName;
    forall j | k + 1 <= j < |d.dirs|
      ensures SubUndone(was, now, Join(top, d.Nth(j).name), j)
    {
      var path := Join(top, d.Nth(j).name);
      assert SubUndone(was, mid, path, j);
      forall i | 0 <= i < |now|
        ensures !Below(path, now[i].path)
      {
        if i < |mid| {
          assert now[i] == mid[i];
        } else {
          Siblings(top, d.Nth(k).name, d.Nth(j).name, now[i].path);
        }
      }
    }
  }

  lemma InnerNext(d: Folder, k: nat, first: nat, heads: seq<Row>, block: seq<Row>, next: nat)
    requires k < |d.dirs| && |heads| == d.Count()
    requires !Skipped(d.dirs[k].item.name) ==> next == first + |heads + Inner(d, k, first)| && block == Walked(d.dirs[k].inside, first + k, next)
    requires Skipped(d.dirs[k].item.name) ==> block == []
    ensures heads + Inner(d, k + 1, first) == heads + Inner(d, k, first) + block
    ensures Skipped(d.dirs[k].item.name) ==> heads + Inner(d, k + 1, first) == heads + Inner(d, k, first)
  {
  }

  // ----- the program

  lemma RootIn(found: seq<Found>)
    ensures Join(TOP, [SLASH]) == [SLASH] && Dirname([SLASH]) == [SLASH] && !Below(TOP, [SLASH]) && !Below(TOP, [])
  {
    assert FrontLength([SLASH], 1) == 1 && [SLASH][..1] == [SLASH] && Stripped([]) == [] && [SLASH][..0] == [];
  }

  lemma AllListed(front: seq<Found>, found: seq<Found>, root: Stat, d: Folder)
    requires |front| == 2 && front[0].entry == Entry(0, 0, 0, [], 0x4000, 0, []) && front[1].entry == Made(Item([SLASH], root), 1, 1)
    requires WalkListed(front, found, TOP, Walked(d, 1, 2))
    ensures |found| == |Rows(root, d)|
    ensures seq(|found|, k requires 0 <= k < |found| => found[k].entry) == EntriesOf(Rows(root, d))
  {
    hide ReadOnly, Below, Walked;
    assert ReadOnly(0x4000) == 0x4000 by {
      NullMode();
    }
    forall k | 0 <= k < |found|
      ensures found[k].entry == EntriesOf(Rows(root, d))[k]
    {
      if k < 2 {
        assert found[k] == front[k];
      } else {
        assert found[2 + (k - 2)].entry == Made(Walked(d, 1, 2)[k - 2].item, Walked(d, 1, 2)[k - 2].parent, 2 + (k - 2));
      }
    }
  }

  lemma NullMode()
    ensures ReadOnly(0x4000) == 0x4000
  {
  }

  /** The list for a tree: it is made exactly when all times are in range, entry k has the number k, and parents are those of
      the tree. */
  method Collect(root: Stat, d: Folder) returns (r: Option<seq<Entry>>)
    requires Proper(d)
    ensures r.Some? <==> InTime(Item([SLASH], root)) && Datable(d)
    ensures r.Some? ==> r.value == EntriesOf(Rows(root, d))
    ensures r.Some? ==> forall k | 0 <= k < |r.value| :: r.value[k].inode == k
  {
    hide Join, Dirname, Below;
    var list := new Listing();
    RootIn(list.found);
    var parent := list.AddEntry(TOP, Item([SLASH], root));
    if parent.None? {
      return None;
    }
    ghost var front := list.found;
    var ok := list.Walk(TOP, d, 1);
    if !ok {
      return None;
    }
    var found := list.found;
    r := Some(seq(|found|, k requires 0 <= k < |found| => found[k].entry));
    AllListed(front, found, root, d);
  }

  /** From the tree to the image. */
  method BuildImage(root: Stat, d: Folder) returns (r: Option<Bytes>)
    requires Proper(d)
    ensures r.Some? <==> InTime(Item([SLASH], root)) && Datable(d) && Writable(EntriesOf(Rows(root, d)))
    ensures r.Some? ==> r.value == Image(EntriesOf(Rows(root, d)))
  {
    hide Writable, Image, LaidOut, Rows;
    var es := Collect(root, d);
    if es.None? {
      return None;
    }
    var files: seq<File> := [];
    for k := 0 to |es.value|
      invariant |files| == k && fresh(files)
      invariant forall i | 0 <= i < k :: files[i].entry == es.value[i] && files[i].length == files[i].entry.size
      invariant forall i, j | 0 <= i < j < k :: files[i] != files[j]
    {
      var file := new File(es.value[k]);
      files := files + [file];
    }
    assert Entries(files) == es.value;
    r := CreateImage(files);
  }
}
