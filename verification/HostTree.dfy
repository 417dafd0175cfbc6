/** The directory of the host that misc/create_initrd.py puts in the image, and the list of entries it stands for: os.walk goes
    through it from the top, every entry gets the next number, and names its directory by that one's number. */
module HostTree {
  import opened Words
  import opened InitrdImage

  const SLASH: bv8 := 47
  /** "initrd", the directory that is walked. */
  const TOP: Bytes := [105, 110, 105, 116, 114, 100]
  const EXT2: Bytes := [101, 120, 116, 50]
  const FAT: Bytes := [102, 97, 116]

  /** A mode_t of the host. */
  type Mode = m: nat | m < 0x1_0000_0000

  /** What os.stat says of a file, and the bytes that reading it gives. */
  datatype Stat = Stat(mode: Mode, size: nat, mtime: int, data: Bytes) {
    predicate IsDir() {
      mode / 0x1000 % 16 == 4
    }
  }

  datatype Item = Item(name: Bytes, stat: Stat)

  /** A directory of the host as os.walk gives it: its subdirectories, then its other entries. */
  datatype Folder = Folder(dirs: seq<Sub>, files: seq<Item>) {
    function Count(): nat {
      |dirs| + |files|
    }

    function Nth(i: nat): Item
      requires i < Count()
    {
      if i < |dirs| then dirs[i].item else files[i - |dirs|]
    }
  }

  datatype Sub = Sub(item: Item, inside: Folder)

  const NOTHING := Folder([], [])

  /** Directories of these names are listed, but not walked. */
  predicate Skipped(name: Bytes) {
    name == EXT2 || name == FAT
  }

  predicate ProperName(name: Bytes) {
    name != [] && SLASH !in name && 0 !in name
  }

  /** What a file system promises: proper names, each once in a directory, and subdirectories are what has that type. */
  ghost predicate Proper(d: Folder) {
    && (forall i | 0 <= i < d.Count() :: ProperName(d.Nth(i).name) && (d.Nth(i).stat.IsDir() <==> i < |d.dirs|))
    && (forall i, j | 0 <= i < j < d.Count() :: d.Nth(i).name != d.Nth(j).name)
    && (forall i | 0 <= i < |d.dirs| :: Proper(d.dirs[i].inside))
  }

  // ----- the list that the tree stands for

  /** An entry to be: its parent's number, the file it is for, and what is walked beneath it. */
  datatype Row = Row(parent: nat, item: Item, inside: Folder)

  function Beneath(d: Folder, i: nat): Folder
    requires i < d.Count()
  {
    if i < |d.dirs| && !Skipped(d.dirs[i].item.name) then d.dirs[i].inside else NOTHING
  }

  function Child(d: Folder, me: nat, i: nat): Row
    requires i < d.Count()
  {
    Row(me, d.Nth(i), Beneath(d, i))
  }

  function Heads(d: Folder, me: nat): (rows: seq<Row>)
    ensures |rows| == d.Count()
  {
    seq(d.Count(), i requires 0 <= i < d.Count() => Child(d, me, i))
  }

  /** The rows of a directory with this number when the next one is given: its entries, then what is in its subdirectories. */
  function Walked(d: Folder, me: nat, next: nat): seq<Row>
    decreases d, |d.dirs| + 1
  {
    Heads(d, me) + Inner(d, |d.dirs|, next)
  }

  /** The rows of the first k subdirectories, whose own numbers begin at next. */
  function Inner(d: Folder, k: nat, next: nat): seq<Row>
    requires k <= |d.dirs|
    decreases d, k
  {
    if k == 0 then []
    else
      var before := Inner(d, k - 1, next);
      if Skipped(d.dirs[k - 1].item.name) then before
      else before + Walked(d.dirs[k - 1].inside, next + k - 1, next + d.Count() + |before|)
  }

  /** The null entry, the root, which is its own parent, and the tree beneath it. */
  function Rows(root: Stat, d: Folder): (rows: seq<Row>)
    ensures |rows| >= 2
  {
    [Row(0, Item([], Stat(0x4000, 0, 0, [])), NOTHING), Row(1, Item([SLASH], root), d)] + Walked(d, 1, 2)
  }

  /** mode & ~0222: nobody may write. */
  function ReadOnly(mode: nat): int {
    var m1 := mode / 2;
    var m4 := m1 / 8;
    var m7 := m4 / 8;
    U32(mode - m1 % 2 * 2 - m4 % 2 * 16 - m7 % 2 * 128)
  }

  predicate DirBit(mode: nat) {
    mode / 0x1000 % 16 / 4 % 2 == 1
  }

  function Made(item: Item, parent: int, inode: int): Entry {
    Entry(parent, inode, item.stat.mtime, item.name, ReadOnly(item.stat.mode),
          if DirBit(item.stat.mode) then 0 else item.stat.size, item.stat.data)
  }

  // ----- every row has its children, and only they have it as parent

  /** Number k's children are the rows from s on, one for each entry of the folder, in order; no other row has that parent. */
  ghost predicate ChildrenFrom(rows: seq<Row>, base: nat, k: nat, d: Folder, s: nat) {
    && base <= s && s + d.Count() <= base + |rows| && (d.Count() > 0 ==> k < s)
    && (forall j | 0 <= j < d.Count() :: rows[s - base + j] == Child(d, k, j))
    && (forall j | 0 <= j < |rows| && !(s <= base + j < s + d.Count()) :: rows[j].parent != k)
  }

  ghost predicate HasChildren(rows: seq<Row>, base: nat, k: nat, d: Folder) {
    exists s: nat :: ChildrenFrom(rows, base, k, d, s)
  }

  /** Parents of these rows: me, or numbers from low on below high. */
  ghost predicate ParentsIn(rows: seq<Row>, me: nat, low: nat, high: nat) {
    forall j | 0 <= j < |rows| :: rows[j].parent == me || low <= rows[j].parent < high
  }

  lemma NoParent(rows: seq<Row>, base: nat, k: nat)
    requires forall j | 0 <= j < |rows| :: rows[j].parent != k
    ensures HasChildren(rows, base, k, NOTHING)
  {
    assert ChildrenFrom(rows, base, k, NOTHING, base);
  }

  lemma ChildrenInFront(rows: seq<Row>, more: seq<Row>, base: nat, k: nat, d: Folder)
    requires HasChildren(rows, base, k, d) && forall j | 0 <= j < |more| :: more[j].parent != k
    ensures HasChildren(rows + more, base, k, d)
  {
    hide Child;
    var s: nat :| ChildrenFrom(rows, base, k, d, s);
    assert ChildrenFrom(rows + more, base, k, d, s);
  }

  lemma ChildrenBehind(rows: seq<Row>, more: seq<Row>, base: nat, k: nat, d: Folder)
    requires HasChildren(more, base + |rows|, k, d) && forall j | 0 <= j < |rows| :: rows[j].parent != k
    ensures HasChildren(rows + more, base, k, d)
  {
    hide Child;
    var s: nat :| ChildrenFrom(more, base + |rows|, k, d, s);
    forall j | 0 <= j < d.Count()
      ensures (rows + more)[s - base + j] == Child(d, k, j)
    {
      assert more[s - (base + |rows|) + j] == Child(d, k, j);
    }
    forall j | 0 <= j < |rows + more| && !(s <= base + j < s + d.Count())
      ensures (rows + more)[j].parent != k
    {
      if j >= |rows| {
        assert more[j - |rows|].parent != k;
      }
    }
    assert ChildrenFrom(rows + more, base, k, d, s);
  }

  /** The rows of a walk: which parents they have, and that each row, and the directory itself, has its children. */
  ghost predicate WalkRight(rows: seq<Row>, d: Folder, me: nat, next: nat) {
    && ParentsIn(rows, me, next, next + |rows|) && HasChildren(rows, next, me, d)
    && forall i | 0 <= i < |rows| :: HasChildren(rows, next, next + i, rows[i].inside)
  }

  /** The same for the rows of the first k subdirectories; first is the number of the first one. */
  ghost predicate InnerRight(rows: seq<Row>, d: Folder, k: nat, first: nat)
    requires k <= |d.dirs|
  {
    var base := first + d.Count();
    && (forall j | 0 <= j < |rows| :: first <= rows[j].parent < first + k || base <= rows[j].parent < base + |rows|)
    && (forall i | 0 <= i < k :: HasChildren(rows, base, first + i, Beneath(d, i)))
    && (forall i | 0 <= i < |rows| :: HasChildren(rows, base, base + i, rows[i].inside))
  }

  lemma InnerRightNext(rows: seq<Row>, block: seq<Row>, d: Folder, k: nat, first: nat)
    requires 0 < k <= |d.dirs| && InnerRight(rows, d, k - 1, first)
    requires var me, next := first + k - 1, first + d.Count() + |rows|;
             if Skipped(d.dirs[k - 1].item.name) then block == [] else WalkRight(block, d.dirs[k - 1].inside, me, next)
    ensures InnerRight(rows + block, d, k, first)
  {
    hide HasChildren;
    var me, base := first + k - 1, first + d.Count();
    var all := rows + block;
    forall i | 0 <= i < k
      ensures HasChildren(all, base, first + i, Beneath(d, i))
    {
      if i < k - 1 {
        ChildrenInFront(rows, block, base, first + i, Beneath(d, i));
      } else if block == [] && Skipped(d.dirs[k - 1].item.name) {
        NoParent(all, base, me);
      } else {
        ChildrenBehind(rows, block, base, me, Beneath(d, i));
      }
    }
    forall i | 0 <= i < |all|
      ensures HasChildren(all, base, base + i, all[i].inside)
    {
      if i < |rows| {
        ChildrenInFront(rows, block, base, base + i, rows[i].inside);
      } else {
        assert HasChildren(block, base + |rows|, base + |rows| + (i - |rows|), block[i - |rows|].inside);
        ChildrenBehind(rows, block, base, base + i, block[i - |rows|].inside);
      }
    }
  }

  lemma {:induction false} InnerKept(d: Folder, k: nat, first: nat)
    requires k <= |d.dirs|
    ensures InnerRight(Inner(d, k, first), d, k, first)
    decreases d, k
  {
    hide HasChildren, WalkRight;
    if k > 0 {
      var before := Inner(d, k - 1, first);
      InnerKept(d, k - 1, first);
      if Skipped(d.dirs[k - 1].item.name) {
        InnerRightNext(before, [], d, k, first);
        assert before + [] == before;
      } else {
        WalkKept(d.dirs[k - 1].inside, first + k - 1, first + d.Count() + |before|);
        InnerRightNext(before, Walked(d.dirs[k - 1].inside, first + k - 1, first + d.Count() + |before|), d, k, first);
      }
    }
  }

  /** In the list of a directory each entry stands once, as child of the one it is in, and nothing else does. */
  lemma {:induction false} WalkKept(d: Folder, me: nat, next: nat)
    requires me < next
    ensures WalkRight(Walked(d, me, next), d, me, next)
    decreases d, |d.dirs| + 1
  {
    hide HasChildren;
    var inner, heads := Inner(d, |d.dirs|, next), Heads(d, me);
    InnerKept(d, |d.dirs|, next);
    var rows := heads + inner;
    HeadsHave(d, me, next);
    ChildrenInFront(heads, inner, next, me, d);
    forall i | 0 <= i < |rows|
      ensures HasChildren(rows, next, next + i, rows[i].inside)
    {
      if i < |d.dirs| {
        ChildrenBehind(heads, inner, next, next + i, Beneath(d, i));
      } else if i < |heads| {
        NoParent(rows, next, next + i);
      } else {
        assert HasChildren(inner, next + |heads|, next + |heads| + (i - |heads|), inner[i - |heads|].inside);
        ChildrenBehind(heads, inner, next, next + i, inner[i - |heads|].inside);
      }
    }
  }

  lemma HeadsHave(d: Folder, me: nat, next: nat)
    requires me < next
    ensures HasChildren(Heads(d, me), next, me, d)
  {
    assert ChildrenFrom(Heads(d, me), next, me, d, next);
  }

  // ----- the whole list

  function EntriesOf(rows: seq<Row>): (es: seq<Entry>)
    ensures |es| == |rows|
  {
    seq(|rows|, k requires 0 <= k < |rows| => Made(rows[k].item, rows[k].parent, k))
  }

  /** Rows have names, and what has entries beneath it is a directory, of which that can be said again. */
  ghost predicate RowsSound(rows: seq<Row>) {
    forall j | 0 <= j < |rows| :: ProperName(rows[j].item.name) && Proper(rows[j].inside) && (rows[j].inside.Count() > 0 ==> rows[j].item.stat.IsDir())
  }

  lemma HeadsSound(d: Folder, me: nat)
    requires Proper(d)
    ensures RowsSound(Heads(d, me))
  {
    assert Proper(NOTHING);
  }

  lemma {:induction false} WalkedSound(d: Folder, me: nat, next: nat)
    requires Proper(d)
    ensures RowsSound(Walked(d, me, next))
    decreases d, |d.dirs| + 1
  {
    hide Proper;
    HeadsSound(d, me);
    InnerSound(d, |d.dirs|, next);
  }

  lemma {:induction false} InnerSound(d: Folder, k: nat, next: nat)
    requires k <= |d.dirs| && Proper(d)
    ensures RowsSound(Inner(d, k, next))
    decreases d, k
  {
    if k > 0 {
      var before := Inner(d, k - 1, next);
      InnerSound(d, k - 1, next);
      if !Skipped(d.dirs[k - 1].item.name) {
        WalkedSound(d.dirs[k - 1].inside, next + k - 1, next + d.Count() + |before|);
      }
    }
  }

  /** The two entries in front are their own parents; every other one's parent is a directory that stands before it. */
  lemma ParentsEarlier(root: Stat, d: Folder, k: nat)
    requires Proper(d) && root.IsDir() && k < |Rows(root, d)|
    ensures var rows := Rows(root, d);
            if k <= 1 then rows[k].parent == k
            else 1 <= rows[k].parent < k && rows[rows[k].parent].item.stat.IsDir()
  {
    if k > 1 {
      WalkKept(d, 1, 2);
      WalkedSound(d, 1, 2);
      EarlierIn(Walked(d, 1, 2), d, k - 2);
    }
  }

  lemma EarlierIn(walked: seq<Row>, d: Folder, j: nat)
    requires WalkRight(walked, d, 1, 2) && RowsSound(walked) && j < |walked|
    ensures var p := walked[j].parent; p == 1 || (2 <= p < 2 + j && walked[p - 2].item.stat.IsDir())
  {
    hide Child, Proper;
    var p := walked[j].parent;
    if p != 1 {
      var inside := walked[p - 2].inside;
      assert HasChildren(walked, 2, 2 + (p - 2), inside);
      var s: nat :| ChildrenFrom(walked, 2, p, inside, s);
      assert s <= 2 + j < s + inside.Count();
    }
  }

  /** The entries with number k as parent are those of the directory that it is for, in order. */
  lemma RowsHaveChildren(root: Stat, d: Folder, k: nat)
    requires 1 <= k < |Rows(root, d)|
    ensures HasChildren(Rows(root, d)[2..], 2, k, Rows(root, d)[k].inside)
  {
    hide HasChildren;
    var walked := Walked(d, 1, 2);
    WalkKept(d, 1, 2);
    assert Rows(root, d)[2..] == walked;
    assert k > 1 ==> HasChildren(walked, 2, 2 + (k - 2), walked[k - 2].inside);
  }

  lemma {:induction false} CountFrom(rows: seq<Row>, k: nat, d: Folder, s: nat, n: nat)
    requires 2 <= n <= |rows| && rows[0].parent == 0 && rows[1].parent == 1 && k >= 1
    requires ChildrenFrom(rows[2..], 2, k, d, s)
    ensures Children(EntriesOf(rows)[..n], k)
         == (if k == 1 then 1 else 0) + (if n <= s then 0 else if n <= s + d.Count() then n - s else d.Count())
  {
    var es := EntriesOf(rows)[..n];
    assert es[..n - 1] == EntriesOf(rows)[..n - 1];
    if n > 2 {
      CountFrom(rows, k, d, s, n - 1);
      var j := n - 3;
      assert rows[2..][j] == rows[n - 1];
      if s <= 2 + j < s + d.Count() {
        assert rows[2..][s - 2 + (2 + j - s)] == Child(d, k, 2 + j - s);
      }
    } else {
      assert es[..1][..0] == [] && es == [es[0], es[1]];
      assert Children(es[..1], k) == 0;
    }
  }

  /** What the tool counts for a directory is the number of its entries; the root, being its own parent, has itself on top. */
  lemma ChildrenCounted(root: Stat, d: Folder, k: nat)
    requires 1 <= k < |Rows(root, d)|
    ensures Children(EntriesOf(Rows(root, d)), k) == Rows(root, d)[k].inside.Count() + if k == 1 then 1 else 0
  {
    var rows := Rows(root, d);
    RowsHaveChildren(root, d, k);
    var s: nat :| ChildrenFrom(rows[2..], 2, k, rows[k].inside, s);
    CountFrom(rows, k, rows[k].inside, s, |rows|);
    assert EntriesOf(rows)[..|rows|] == EntriesOf(rows);
  }

  // ----- paths

  /** os.path.join. */
  function Join(root: Bytes, name: Bytes): Bytes {
    if name != [] && name[0] == SLASH then name
    else if root == [] || root[|root| - 1] == SLASH then root + name
    else root + [SLASH] + name
  }

  /** How long the front of a path is that ends with the last slash of its first n bytes. */
  function FrontLength(p: Bytes, n: nat): (r: nat)
    requires n <= |p|
    ensures r <= n && (r > 0 ==> p[r - 1] == SLASH) && forall k | r <= k < n :: p[k] != SLASH
  {
    if n == 0 || p[n - 1] == SLASH then n else FrontLength(p, n - 1)
  }

  function Stripped(p: Bytes): Bytes {
    if p != [] && p[|p| - 1] == SLASH then Stripped(p[..|p| - 1]) else p
  }

  /** os.path.dirname. */
  function Dirname(p: Bytes): Bytes {
    var head := p[..FrontLength(p, |p|)];
    if Stripped(head) == [] then head else Stripped(head)
  }

  predicate Below(top: Bytes, p: Bytes) {
    |top| < |p| && p[..|top|] == top && p[|top|] == SLASH
  }

  /** A path that names can be joined to. */
  predicate SoundTop(top: Bytes) {
    |top| > 1 && top[|top| - 1] != SLASH
  }

  lemma JoinedName(top: Bytes, name: Bytes)
    requires SoundTop(top) && ProperName(name)
    ensures Join(top, name) == top + [SLASH] + name && SoundTop(Join(top, name)) && Dirname(Join(top, name)) == top
    ensures Below(top, Join(top, name)) && Join(top, name) != TOP && |Join(top, name)| > |top|
  {
    var p := top + [SLASH] + name;
    assert p == Join(top, name) && SoundTop(p);
    DirnameJoined(top, name);
    assert p[..|top|] == top && p[|top|] == SLASH;
    assert forall k | 0 <= k < 6 :: TOP[k] != SLASH;
  }

  lemma DirnameJoined(top: Bytes, name: Bytes)
    requires SoundTop(top) && ProperName(name)
    ensures Dirname(top + [SLASH] + name) == top
  {
    var p, n := top + [SLASH] + name, |top| + 1;
    var length := FrontLength(p, |p|);
    assert p[n - 1] == SLASH;
    assert forall k | n <= k < |p| :: p[k] == name[k - n];
    assert length == n;
    var head := p[..n];
    assert head == top + [SLASH] && head[..n - 1] == top;
    assert Stripped(head) == Stripped(top) == top;
  }

  lemma BelowName(top: Bytes, name: Bytes, p: Bytes)
    requires SoundTop(top) && ProperName(name) && Below(Join(top, name), p)
    ensures Below(top, p) && |p| > |top| + 1 + |name| && p[|top| + 1..|top| + 1 + |name|] == name && p[|top| + 1 + |name|] == SLASH
  {
    JoinedName(top, name);
    assert p[..|top| + 1 + |name|] == top + [SLASH] + name;
    assert p[..|top| + 1 + |name|][..|top|] == top;
    assert p[..|top| + 1 + |name|][|top|] == SLASH;
  }

  /** No slash where a name stands. */
  lemma NoSlash(p: Bytes, at: nat, name: Bytes)
    requires at + |name| <= |p| && p[at..at + |name|] == name && ProperName(name)
    ensures forall k | at <= k < at + |name| :: p[k] != SLASH
  {
    forall k | at <= k < at + |name|
      ensures p[k] != SLASH
    {
      assert p[at..at + |name|][k - at] == p[k];
    }
  }

  /** What is below one entry of a directory is neither another entry nor below it. */
  lemma Siblings(top: Bytes, name: Bytes, other: Bytes, p: Bytes)
    requires SoundTop(top) && ProperName(name) && ProperName(other) && Below(Join(top, name), p)
    ensures p != Join(top, other) && (Below(Join(top, other), p) ==> name == other)
  {
    JoinedName(top, other);
    BelowName(top, name, p);
    NoSlash(p, |top| + 1, name);
    if p == Join(top, other) || Below(Join(top, other), p) {
      if p != Join(top, other) {
        BelowName(top, other, p);
      }
      assert p[|top| + 1..|top| + 1 + |other|] == other;
      NoSlash(p, |top| + 1, other);
    }
  }
}
