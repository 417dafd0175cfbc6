/** How the kernel finds a file of the ramdisk by its path (initrd_opendir, initrd_open), and that it finds in the image the
    file that stands there in the host's tree. */
module InitrdLookup {
  import opened Options
  import opened Words
  import opened InitrdImage
  import opened HostTree
  import opened Initrd

  const NAME_FIELD := 12
  const ROOT_INODE := 1

  /** The fields of a header that are looked at. */
  datatype Heading = Heading(parent: nat, inode: nat, name: Bytes, mode: nat)

  /** A string as strcmp sees it. */
  function CName(b: Bytes): (r: Bytes)
    ensures |r| <= |b| && r == b[..|r|] && 0 !in r
    ensures |r| < |b| ==> b[|r|] == 0
  {
    if b == [] || b[0] == 0 then [] else [b[0]] + CName(b[1..])
  }

  /** The fields in front of the offset. */
  function HeadingOf(front: Bytes): Heading
    requires |front| == OFFSET_FIELD
  {
    Heading(FromLe32(front[..4]), FromLe32(front[4..8]), CName(front[NAME_FIELD..MODE_FIELD]), FromLe32(front[MODE_FIELD..]))
  }

  function HeadingAt(mem: Bytes, location: nat, i: nat): Heading
    requires HeaderAddress(location, i + 1) <= |mem|
  {
    HeadingOf(mem[HeaderAddress(location, i)..HeaderAddress(location, i) + OFFSET_FIELD])
  }

  function HeadingsAt(mem: Bytes, location: nat, n: nat): (hs: seq<Heading>)
    requires HeaderAddress(location, n) <= |mem|
    ensures |hs| == n
  {
    seq(n, i requires 0 <= i < n => HeadingAt(mem, location, i))
  }

  // ----- the search

  predicate Matches(h: Heading, dir: nat, token: Bytes) {
    h.parent == dir && h.name == token
  }

  /** The first header from i on with this parent and name. */
  function FirstMatch(hs: seq<Heading>, i: nat, dir: nat, token: Bytes): (r: Option<nat>)
    requires i <= |hs|
    ensures r.Some? ==> i <= r.value < |hs| && Matches(hs[r.value], dir, token) && forall j | i <= j < r.value :: !Matches(hs[j], dir, token)
    ensures r.None? ==> forall j | i <= j < |hs| :: !Matches(hs[j], dir, token)
    decreases |hs| - i
  {
    if i == |hs| then None
    else if Matches(hs[i], dir, token) then Some(i)
    else FirstMatch(hs, i + 1, dir, token)
  }

  /** The directory that a path from this one leads to. */
  function FindFrom(hs: seq<Heading>, dir: nat, tokens: seq<Bytes>): Option<nat>
    requires |hs| >= 1
    decreases |tokens|
  {
    if tokens == [] then Some(dir)
    else match FirstMatch(hs, 1, dir, tokens[0])
      case None => None
      case Some(i) => if IsDirectory(hs[i].mode) then FindFrom(hs, hs[i].inode, tokens[1..]) else None
  }

  /** The loop over the headers. */
  method FindEntry(mem: array<bv8>, location: nat, n: nat, dir: nat, token: Bytes) returns (r: Option<nat>)
    requires HeaderAddress(location, n) <= mem.Length && n >= 1
    ensures r == FirstMatch(HeadingsAt(mem[..], location, n), ROOT_INODE, dir, token)
  {
    hide HeadingAt;
    ghost var hs := HeadingsAt(mem[..], location, n);
    var i := ROOT_INODE;
    while i < n
      invariant 1 <= i <= n && FirstMatch(hs, ROOT_INODE, dir, token) == FirstMatch(hs, i, dir, token)
    {
      var h := HeadingAt(mem[..], location, i);
      if h.parent == dir && h.name == token {
        return Some(i);
      }
      i := i + 1;
    }
    r := None;
  }

  /** initrd_opendir's loop over the path: the inode of the directory. */
  method FindDirectory(mem: array<bv8>, location: nat, n: nat, tokens: seq<Bytes>) returns (r: Option<nat>)
    requires HeaderAddress(location, n) <= mem.Length && n >= 1
    ensures r == FindFrom(HeadingsAt(mem[..], location, n), ROOT_INODE, tokens)
  {
    hide HeadingAt, FirstMatch;
    ghost var hs := HeadingsAt(mem[..], location, n);
    var dir: nat := ROOT_INODE;
    assert tokens[0..] == tokens;
    for k := 0 to |tokens|
      invariant FindFrom(hs, ROOT_INODE, tokens) == FindFrom(hs, dir, tokens[k..])
    {
      assert tokens[k..][1..] == tokens[k + 1..];
      var i := FindEntry(mem, location, n, dir, tokens[k]);
      if i.None? || !IsDirectory(HeadingAt(mem[..], location, i.value).mode) {
        return None;
      }
      dir := HeadingAt(mem[..], location, i.value).inode;
    }
    r := Some(dir);
  }

  /** initrd_open: the file of this name in the directory. */
  method FindFile(mem: array<bv8>, location: nat, n: nat, tokens: seq<Bytes>, name: Bytes) returns (r: Option<nat>)
    requires HeaderAddress(location, n) <= mem.Length && n >= 1
    ensures r == Opened(HeadingsAt(mem[..], location, n), tokens, name)
  {
    hide HeadingAt, FirstMatch, FindFrom;
    var dir := FindDirectory(mem, location, n, tokens);
    if dir.None? {
      return None;
    }
    r := FindEntry(mem, location, n, dir.value, name);
  }

  function Opened(hs: seq<Heading>, tokens: seq<Bytes>, name: Bytes): Option<nat>
    requires |hs| >= 1
  {
    match FindFrom(hs, ROOT_INODE, tokens)
    case None => None
    case Some(dir) => FirstMatch(hs, 1, dir, name)
  }

  // ----- what a path means in the tree

  /** Names are cut to the length that a header has room for. */
  function Cut(name: Bytes): Bytes {
    if |name| <= NAME_MAX then name else name[..NAME_MAX]
  }

  /** The first entry of a directory, from j on, whose name is cut to this. */
  function Named(d: Folder, j: nat, token: Bytes): (r: Option<nat>)
    requires j <= d.Count()
    ensures r.Some? ==> j <= r.value < d.Count() && Cut(d.Nth(r.value).name) == token
                        && forall i | j <= i < r.value :: Cut(d.Nth(i).name) != token
    ensures r.None? ==> forall i | j <= i < d.Count() :: Cut(d.Nth(i).name) != token
    decreases d.Count() - j
  {
    if j == d.Count() then None
    else if Cut(d.Nth(j).name) == token then Some(j)
    else Named(d, j + 1, token)
  }

  /** With short names that is the entry of this name. */
  lemma NamedShort(d: Folder, j: nat)
    requires Proper(d) && j < d.Count() && forall i | 0 <= i < d.Count() :: |d.Nth(i).name| <= NAME_MAX
    ensures Named(d, 0, d.Nth(j).name) == Some(j)
  {
    hide Named;
    var i := Named(d, 0, d.Nth(j).name);
    assert Cut(d.Nth(j).name) == d.Nth(j).name;
  }

  /** The directory of the host that a path from this one leads to; one that was not walked is empty. */
  function Resolve(d: Folder, tokens: seq<Bytes>): Option<Folder>
    decreases |tokens|
  {
    if tokens == [] then Some(d)
    else match Named(d, 0, tokens[0])
      case None => None
      case Some(j) => if d.Nth(j).stat.IsDir() then Resolve(Beneath(d, j), tokens[1..]) else None
  }

  predicate PathNames(tokens: seq<Bytes>) {
    forall k | 0 <= k < |tokens| :: SLASH !in tokens[k]
  }

  /** These headers say what the rows do. */
  ghost predicate Describe(hs: seq<Heading>, rows: seq<Row>) {
    && |hs| == |rows|
    && forall k | 0 <= k < |rows| :: hs[k].parent == rows[k].parent && hs[k].inode == k && hs[k].name == Cut(rows[k].item.name)
                                     && (IsDirectory(hs[k].mode) <==> rows[k].item.stat.IsDir())
                                     && (DirBit(hs[k].mode) <==> DirBit(rows[k].item.stat.mode))
  }

  /** Searching the headers for a name in a directory is looking for it among the directory's entries. */
  lemma MatchIsNamed(hs: seq<Heading>, root: Stat, d: Folder, dir: nat, token: Bytes)
    requires var rows := Rows(root, d); Describe(hs, rows) && 1 <= dir < |rows| && SLASH !in token
    ensures var rows, r := Rows(root, d), FirstMatch(hs, 1, dir, token);
            match Named(rows[dir].inside, 0, token)
            case None => r == None
            case Some(j) => r.Some? && rows[r.value] == Child(rows[dir].inside, dir, j)
  {
    hide FirstMatch, Named, Rows;
    var rows := Rows(root, d);
    var f := rows[dir].inside;
    RowsHaveChildren(root, d, dir);
    RootName(root, d);
    var s: nat :| ChildrenFrom(rows[2..], 2, dir, f, s);
    forall k | 1 <= k < |rows|
      ensures Matches(hs[k], dir, token) <==> s <= k < s + f.Count() && Cut(f.Nth(k - s).name) == token
    {
      if k > 1 {
        assert rows[2..][k - 2] == rows[k];
        if s <= k < s + f.Count() {
          assert rows[2..][s - 2 + (k - s)] == Child(f, dir, k - s);
        }
      }
    }
    FirstAmong(hs, dir, token, f, s);
    var r := FirstMatch(hs, 1, dir, token);
    if r.Some? {
      assert rows[2..][s - 2 + (r.value - s)] == Child(f, dir, r.value - s);
    }
  }

  lemma RootName(root: Stat, d: Folder)
    ensures Rows(root, d)[1].item.name == [SLASH] && Cut([SLASH]) == [SLASH] && forall k | 2 <= k < |Rows(root, d)| :: Rows(root, d)[2..][k - 2] == Rows(root, d)[k]
  {
  }

  lemma FirstAmong(hs: seq<Heading>, dir: nat, token: Bytes, f: Folder, s: nat)
    requires 2 <= s && s + f.Count() <= |hs|
    requires forall k | 1 <= k < |hs| :: Matches(hs[k], dir, token) <==> s <= k < s + f.Count() && Cut(f.Nth(k - s).name) == token
    ensures match Named(f, 0, token)
            case None => FirstMatch(hs, 1, dir, token) == None
            case Some(j) => FirstMatch(hs, 1, dir, token) == Some(s + j)
  {
    hide Named, FirstMatch, Matches;
    var r, n := FirstMatch(hs, 1, dir, token), Named(f, 0, token);
    assert r.Some? ==> Cut(f.Nth(r.value - s).name) == token;
    assert n.Some? ==> Matches(hs[s + n.value], dir, token);
  }

  /** The kernel's search of the headers leads where the path leads in the tree. */
  lemma {:induction false} FoundIsMeant(hs: seq<Heading>, root: Stat, d: Folder, dir: nat, tokens: seq<Bytes>)
    requires var rows := Rows(root, d); Describe(hs, rows) && 1 <= dir < |rows| && PathNames(tokens)
    ensures var rows, r := Rows(root, d), FindFrom(hs, dir, tokens);
            match Resolve(rows[dir].inside, tokens)
            case None => r == None
            case Some(f) => r.Some? && 1 <= r.value < |rows| && rows[r.value].inside == f
    decreases |tokens|
  {
    hide FirstMatch, Named, Rows;
    if tokens != [] {
      var rows, i := Rows(root, d), FirstMatch(hs, 1, dir, tokens[0]);
      MatchIsNamed(hs, root, d, dir, tokens[0]);
      if i.Some? && IsDirectory(hs[i.value].mode) {
        FoundIsMeant(hs, root, d, i.value, tokens[1..]);
      }
    }
  }

  /** Opening a path: the header that is found is that of the entry which the path names in the tree, or none when it names none. */
  lemma OpenedIsMeant(hs: seq<Heading>, root: Stat, d: Folder, tokens: seq<Bytes>, name: Bytes)
    requires Describe(hs, Rows(root, d)) && PathNames(tokens) && SLASH !in name
    ensures var r, rows := Opened(hs, tokens, name), Rows(root, d);
            match Meant(d, tokens, name)
            case None => r == None
            case Some(item) => r.Some? && 2 <= r.value < |rows| && rows[r.value].item == item
  {
    hide FirstMatch, Named, Resolve, FindFrom;
    var rows, dir := Rows(root, d), FindFrom(hs, ROOT_INODE, tokens);
    FoundIsMeant(hs, root, d, ROOT_INODE, tokens);
    if dir.Some? {
      MatchIsNamed(hs, root, d, dir.value, name);
    }
  }

  function Meant(d: Folder, tokens: seq<Bytes>, name: Bytes): Option<Item> {
    match Resolve(d, tokens)
    case None => None
    case Some(f) =>
      match Named(f, 0, name)
      case None => None
      case Some(j) => Some(f.Nth(j))
  }

  // ----- headers as they stand in memory

  lemma {:induction false} CNameOf(s: Bytes, n: nat)
    requires 0 !in s
    ensures CName(s + Zeros(n)) == s
  {
    if s != [] {
      assert (s + Zeros(n))[1..] == s[1..] + Zeros(n);
      CNameOf(s[1..], n);
    }
  }

  lemma NameBack(name: Bytes)
    requires 0 !in name
    ensures CName(NameField(name)) == Cut(name)
  {
    CNameOf(Cut(name), 64 - |Cut(name)|);
  }

  /** What the kernel sees of a header is what was packed. */
  lemma HeadingBack(e: Entry, offset: int, length: int)
    requires CanPack(e, offset, length) && e.parent >= 0 && e.inode >= 0 && 0 !in e.name
    ensures HeadingOf(Header(e, offset, length)[..OFFSET_FIELD]) == Heading(e.parent, e.inode, Cut(e.name), e.mode)
  {
    hide FromLe32, Le32, NameField, CName, Cut;
    var h := Header(e, offset, length);
    var front := h[..OFFSET_FIELD];
    assert front == Le32(U32(e.parent)) + Le32(U32(e.inode)) + Le32(U32(e.mtime)) + NameField(e.name) + Le32(U32(e.mode));
    assert front[..4] == Le32(U32(e.parent)) && front[4..8] == Le32(U32(e.inode));
    assert front[NAME_FIELD..MODE_FIELD] == NameField(e.name) && front[MODE_FIELD..] == Le32(U32(e.mode));
    WordBack(U32(e.parent));
    WordBack(U32(e.inode));
    WordBack(U32(e.mode));
    NameBack(e.name);
  }

  /** Taking write permission away does not change what kind of file it is. */
  lemma ReadOnlyKind(mode: nat)
    requires mode < 0x1_0000_0000
    ensures 0 <= ReadOnly(mode) < 0x1_0000_0000 && ReadOnly(mode) / 0x1000 == mode / 0x1000
  {
    var m1 := mode / 2;
    var m4 := m1 / 8;
    var m7 := m4 / 8;
    LowBit(m1);
    LowBit(m4);
    LowBit(m7);
    var less := mode - m1 % 2 * 2 - m4 % 2 * 16 - m7 % 2 * 128;
    BitsAway(mode, less, m7 / 32, m7 % 32, m4 % 8, m1 % 8, mode % 2, m7 % 2, m4 % 2, m1 % 2);
    assert ReadOnly(mode) == U32(less) == less;
  }

  lemma LowBit(x: nat)
    ensures x == 8 * (x / 8) + x % 8 && x % 2 <= x % 8
    ensures x == 32 * (x / 32) + x % 32 && x % 2 <= x % 32
  {
    Even(x, 4 * (x / 8), x % 8);
    Even(x, 16 * (x / 32), x % 32);
  }

  lemma Even(x: nat, k: nat, r: nat)
    requires x == 2 * k + r
    ensures x % 2 == r % 2 <= r
  {
  }

  lemma BitsAway(m: nat, less: int, q: nat, r7: nat, r4: nat, r1: nat, r0: nat, b7: nat, b4: nat, b1: nat)
    requires r7 < 32 && r4 < 8 && r1 < 8 && r0 < 2 && b7 <= r7 && b4 <= r4 && b1 <= r1
    requires m == 2 * (8 * (8 * (32 * q + r7) + r4) + r1) + r0 && less == m - 2 * b1 - 16 * b4 - 128 * b7
    ensures 0 <= less <= m && less / 0x1000 == m / 0x1000
  {
  }
}
