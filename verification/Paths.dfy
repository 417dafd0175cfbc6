/** Path normalisation (src/lib/path.c): paths are strings in buffers of PATH_MAX + 1 characters, edited in place. */
module Paths {
  import opened Options
  import opened CStrings

  const PATH_MAX := 1023
  const NAME_MAX := 255
  const SLASH := "/"

  // ----- what a path means

  /** One component of a walk from the directory the names lead to. */
  function Push(names: seq<string>, c: string): seq<string> {
    if c == "." then names
    else if c == ".." then (if names == [] then [] else names[..|names| - 1])
    else names + [c]
  }

  /** Where a walk ends that never gets above the root. */
  function Resolve(names: seq<string>, components: seq<string>): (r: seq<string>)
    decreases |components|
  {
    if components == [] then names else Resolve(Push(names, components[0]), components[1..])
  }

  /** A name as a directory entry has it. */
  predicate IsName(c: string) {
    c != [] && '/' !in c && NUL !in c && c != "." && c != ".."
  }

  predicate AreNames(names: seq<string>) {
    forall i | 0 <= i < |names| :: IsName(names[i])
  }

  /** The normal form: the names, each behind a slash. */
  function Render(names: seq<string>): (s: string)
    ensures s != [] && s[0] == '/'
  {
    if names == [] then "/"
    else if |names| == 1 then "/" + names[0]
    else Render(names[..|names| - 1]) + "/" + names[|names| - 1]
  }

  /** Components too long to be a name are passed over. */
  function Kept(components: seq<string>): (r: seq<string>)
  {
    if components == [] then []
    else (if |components[0]| <= NAME_MAX then [components[0]] else []) + Kept(components[1..])
  }

  /** The characters the names take up in a path. */
  function Weight(names: seq<string>): nat {
    if names == [] then 0 else Weight(names[..|names| - 1]) + |names[|names| - 1]| + 1
  }

  lemma {:induction false} RenderLength(names: seq<string>)
    ensures |Render(names)| == if names == [] then 1 else Weight(names)
  {
    if names != [] {
      RenderLength(names[..|names| - 1]);
      if |names| == 1 {
        assert names[..0] == [];
      }
    }
  }

  lemma {:induction false} WeightAhead(c: string, names: seq<string>)
    ensures Weight([c] + names) == |c| + 1 + Weight(names)
  {
    if names == [] {
      assert ([c] + names)[..0] == [];
    } else {
      WeightAhead(c, names[..|names| - 1]);
      assert ([c] + names)[..|names|] == [c] + names[..|names| - 1];
    }
  }

  /** The tokens of a path with a slash in front are not longer than the path. */
  lemma {:induction false} TokensWeight(s: string)
    ensures Weight(Tokens(s, SLASH)) <= |s| + (if s != [] && s[0] == '/' then 0 else 1)
    decreases |s|
  {
    var skip := Span(s, SLASH, true);
    if skip < |s| {
      var s1 := s[skip..];
      var n := Span(s1, SLASH, false);
      TokensWeight(s1[n..]);
      WeightAhead(s1[..n], Tokens(s1[n..], SLASH));
    }
  }

  lemma PushNames(names: seq<string>, c: string)
    requires AreNames(names) && c != [] && '/' !in c && NUL !in c
    ensures AreNames(Push(names, c)) && Weight(Push(names, c)) <= Weight(names) + |c| + 1
  {
    if c != "." && c != ".." {
      assert (names + [c])[..|names|] == names;
    }
  }

  /** The result of a walk has only names in it, and is not longer than the walk. */
  lemma {:induction false} ResolveNames(names: seq<string>, components: seq<string>)
    requires AreNames(names) && forall c | c in components :: c != [] && '/' !in c && NUL !in c
    ensures AreNames(Resolve(names, components))
    ensures Weight(Resolve(names, components)) <= Weight(names) + Weight(components)
    decreases |components|
  {
    if components != [] {
      assert components[0] in components;
      PushNames(names, components[0]);
      WeightAhead(components[0], components[1..]);
      assert components == [components[0]] + components[1..];
      assert forall c | c in components[1..] :: c in components;
      ResolveNames(Push(names, components[0]), components[1..]);
    }
  }

  lemma {:induction false} ResolveOfNames(names: seq<string>, more: seq<string>)
    requires AreNames(more)
    ensures Resolve(names, more) == names + more
    decreases |more|
  {
    if more != [] {
      assert IsName(more[0]);
      ResolveOfNames(Push(names, more[0]), more[1..]);
      assert names + [more[0]] + more[1..] == names + more;
    } else {
      assert names + more == names;
    }
  }

  // ----- reading a normal form back

  lemma TokensStep(s: string)
    ensures Span(s, SLASH, true) == |s| ==> Tokens(s, SLASH) == []
    ensures Span(s, SLASH, true) < |s| ==>
              var s1 := s[Span(s, SLASH, true)..];
              var n := Span(s1, SLASH, false);
              n > 0 && Tokens(s, SLASH) == [s1[..n]] + Tokens(s1[n..], SLASH)
  {
  }

  /** A slash between two paths only ends the last token of the first. */
  lemma {:induction false} TokensJoined(s: string, c: string)
    requires c != [] && '/' !in c
    ensures Tokens(s + "/" + c, SLASH) == Tokens(s, SLASH) + [c]
    decreases |s|
  {
    hide Tokens, Span;
    var t := s + "/" + c;
    var skip := Span(s, SLASH, true);
    TokensStep(s);
    if skip == |s| {
      LoneToken(c);
      SlashesAhead(s, "/" + c);
      DelimiterAhead('/', c, SLASH);
      assert s + ("/" + c) == t;
    } else {
      var s1 := s[skip..];
      var n := Span(s1, SLASH, false);
      SpanJoined(s, c, true);
      SpanJoined(s1, c, false);
      TokensStep(t);
      assert t[skip..] == s1 + "/" + c;
      assert (s1 + "/" + c)[..n] == s1[..n];
      assert (s1 + "/" + c)[n..] == s1[n..] + "/" + c;
      TokensJoined(s1[n..], c);
    }
  }

  lemma {:induction false} SpanJoined(s: string, c: string, among: bool)
    requires c != [] && '/' !in c
    ensures !among || Span(s, SLASH, true) < |s| ==> Span(s + "/" + c, SLASH, among) == Span(s, SLASH, among)
  {
    if s != [] && (s[0] in SLASH) == among {
      SpanJoined(s[1..], c, among);
      assert (s + "/" + c)[1..] == s[1..] + "/" + c;
    }
  }

  lemma {:induction false} SlashesAhead(s: string, t: string)
    requires Span(s, SLASH, true) == |s|
    ensures Tokens(s + t, SLASH) == Tokens(t, SLASH)
  {
    hide Tokens;
    if s == [] {
      assert s + t == t;
    } else {
      SlashesAhead(s[1..], t);
      assert s + t == [s[0]] + (s[1..] + t);
      DelimiterAhead(s[0], s[1..] + t, SLASH);
    }
  }

  lemma LoneToken(c: string)
    requires c != [] && '/' !in c
    ensures Tokens(c, SLASH) == [c]
  {
    assert forall i | 0 <= i < |c| :: c[i] in c && c[i] != '/';
    assert c[0..] == c;
    assert Span(c, SLASH, false) == |c|;
    assert c[..|c|] == c && c[|c|..] == [];
  }

  lemma TokensOfOne(c: string)
    requires c != [] && '/' !in c
    ensures Tokens("/" + c, SLASH) == [c]
  {
    hide Tokens;
    LoneToken(c);
    DelimiterAhead('/', c, SLASH);
  }

  lemma RenderStep(names: seq<string>)
    requires names != []
    ensures var less, last := names[..|names| - 1], names[|names| - 1];
            names == less + [last] && Render(names) == (if less == [] then "" else Render(less)) + "/" + last
  {
  }

  lemma TokensOfRoot()
    ensures Tokens(Render([]), SLASH) == []
  {
  }

  /** A normal form's tokens are its names. */
  lemma {:induction false} TokensOfRender(names: seq<string>)
    requires AreNames(names)
    ensures Tokens(Render(names), SLASH) == names
    decreases |names|
  {
    hide Tokens, Span, Render;
    TokensOfRoot();
    if names != [] {
      var less, last := names[..|names| - 1], names[|names| - 1];
      RenderStep(names);
      assert IsName(last);
      if less == [] {
        assert "" + "/" + last == "/" + last;
        TokensOfOne(last);
      } else {
        assert forall i | 0 <= i < |less| :: less[i] == names[i] && IsName(names[i]);
        TokensOfRender(less);
        TokensJoined(Render(less), last);
      }
    }
  }

  /** The path that collapsing its dots leaves. */
  function Collapsed(s: string): string {
    Render(Resolve([], Kept(Tokens(s, SLASH))))
  }

  lemma {:induction false} KeptWeight(components: seq<string>)
    ensures Weight(Kept(components)) <= Weight(components)
  {
    hide Weight;
    if components != [] {
      KeptWeight(components[1..]);
      assert components == [components[0]] + components[1..];
      WeightAhead(components[0], components[1..]);
      WeightAhead(components[0], Kept(components[1..]));
      assert [] + Kept(components[1..]) == Kept(components[1..]);
    }
  }

  lemma {:induction false} KeptIn(components: seq<string>, c: string)
    requires c in Kept(components)
    ensures c in components && |c| <= NAME_MAX
  {
    if |components[0]| > NAME_MAX || c != components[0] {
      KeptIn(components[1..], c);
    }
  }

  lemma {:induction false} KeptAll(components: seq<string>)
    requires forall c | c in components :: |c| <= NAME_MAX
    ensures Kept(components) == components
  {
    if components != [] {
      assert components[0] in components;
      KeptAll(components[1..]);
    }
  }

  // ----- the directory and the last name

  /** The last place of a slash. */
  function LastSlash(s: string): (p: Option<nat>)
    ensures IsLastSlash(s, p)
  {
    if s == [] then None
    else if s[|s| - 1] == '/' then Some(|s| - 1)
    else LastSlash(s[..|s| - 1])
  }

  ghost predicate IsLastSlash(s: string, p: Option<nat>) {
    && (p.None? ==> forall j | 0 <= j < |s| :: s[j] != '/')
    && (p.Some? ==> p.value < |s| && s[p.value] == '/' && forall j | p.value < j < |s| :: s[j] != '/')
  }

  /** Only one place is the last. */
  lemma LastIs(s: string, p: Option<nat>)
    requires IsLastSlash(s, p)
    ensures LastSlash(s) == p
  {
    assert IsLastSlash(s, LastSlash(s));
  }

  function Stripped(s: string): string
    requires s != []
  {
    if s[|s| - 1] == '/' then s[..|s| - 1] else s
  }

  function Dirname(s: string): string
    requires s != []
  {
    var s1 := Stripped(s);
    var p := LastSlash(s1);
    var s2 := if p.Some? then s1[..p.value] else s1;
    if s2 == [] then "/" else s2
  }

  function Basename(s: string): string
    requires s != []
  {
    if s == "/" then s
    else
      var s1 := Stripped(s);
      var p := LastSlash(s1);
      var s2 := if p.Some? then s1[p.value + 1..] else s1;
      if |s2| <= NAME_MAX then s2 else s2[..NAME_MAX]
  }

  /** A zero over a character of a string cuts it off there. */
  method CutOff(a: array<char>, n: nat, ghost s: string)
    requires Holds(a, 0, s) && n < |s|
    modifies a
    ensures Holds(a, 0, s[..n])
  {
    CutAt(a, 0, n, s);
  }

  /** path_dirname. */
  method PathDirname(path: array<char>, ghost s: string)
    requires Holds(path, 0, s) && s != [] && path.Length >= 2
    modifies path
    ensures Holds(path, 0, Dirname(s))
  {
    var n := StrLen(path, 0, s);
    CharAt(path, 0, s, n - 1);
    if path[n - 1] == '/' {
      CutOff(path, n - 1, s);
    }
    ghost var s1 := Stripped(s);
    var p := StrRChr(path, '/', s1);
    LastIs(s1, p);
    if p.Some? {
      CutOff(path, p.value, s1);
    }
    ghost var s2 := if p.Some? then s1[..p.value] else s1;
    CharAt(path, 0, s2, 0);
    if path[0] == NUL {
      StrLCpy(path, "/", 2);
    }
  }

  /** path_basename. A path without a slash but at its end has no last slash to start behind: the copy is then made from
      an address that is not the path's, which is the result false. */
  method PathBasename(path: array<char>, ghost s: string) returns (ok: bool)
    requires Holds(path, 0, s) && s != [] && path.Length > NAME_MAX
    modifies path
    ensures ok <==> s == "/" || '/' in Stripped(s)
    ensures ok ==> Holds(path, 0, Basename(s))
  {
    hide Basename;
    var n := StrLen(path, 0, s);
    CharAt(path, 0, s, n - 1);
    if path[n - 1] == '/' && n != 1 {
      CutOff(path, n - 1, s);
    } else if path[n - 1] == '/' && n == 1 {
      assert s == "/";
      BasenameOfRoot();
      return true;
    }
    ghost var s1 := Stripped(s);
    var p := StrRChr(path, '/', s1);
    LastIs(s1, p);
    if p.None? {
      return false;
    }
    MoveTail(path, p.value + 1, s1);
    BasenameIs(s, p.value);
    ok := true;
  }

  /** What starts behind the last slash moves to the front. */
  method MoveTail(path: array<char>, from: nat, ghost s: string)
    requires Holds(path, 0, s) && from <= |s| && path.Length > NAME_MAX
    modifies path
    ensures Holds(path, 0, if |s[from..]| <= NAME_MAX then s[from..] else s[from..][..NAME_MAX])
  {
    var m := StrLen(path, 0, s);
    assert path[0..|s|][from..] == path[from..m];
    StrLCpy(path, path[from..m], NAME_MAX + 1);
  }

  lemma BasenameOfRoot()
    ensures Basename("/") == "/"
  {
  }

  lemma BasenameIs(s: string, p: nat)
    requires s != [] && LastSlash(Stripped(s)) == Some(p)
    ensures p < |Stripped(s)| && s != "/"
    ensures Basename(s) == var s2 := Stripped(s)[p + 1..]; if |s2| <= NAME_MAX then s2 else s2[..NAME_MAX]
  {
    assert IsLastSlash(Stripped(s), Some(p));
  }

  // ----- joining

  /** A slash is put between the two unless one of them has it. */
  function Slashed(s: string, right: string): string
    requires s != []
  {
    if s[|s| - 1] != '/' && (right == [] || right[0] != '/') then s + "/" else s
  }

  /** __path_join: one component more. The last character the buffer has room for is never used, and its loss not reported. */
  function JoinedOne(s: string, right: string): (string, bool)
    requires s != []
  {
    if |right| > NAME_MAX || '/' in right then (s, false)
    else if right == "." then (s, true)
    else if right == ".." then (Dirname(s), true)
    else
      var s1 := Slashed(s, right);
      (if |s1| + |right| < PATH_MAX then s1 + right
       else if |s1| + 1 < PATH_MAX then s1 + right[..PATH_MAX - 1 - |s1|] else s1,
       |s1| + |right| <= PATH_MAX)
  }

  /** There is room for the slash. */
  predicate Roomy(s: string) {
    s != [] && (|s| < PATH_MAX || (|s| == PATH_MAX && s[|s| - 1] == '/'))
  }

  /** The component is put behind the path, where "." and ".." are not, nor what is refused. */
  predicate Joins(right: string) {
    |right| <= NAME_MAX && '/' !in right && right != "." && right != ".."
  }

  /** The slash does not fit into the buffer with its final zero. */
  predicate Overruns(s: string, right: string) {
    !Roomy(s) && Joins(right)
  }

  /** __path_join. None when it would write behind the buffer. */
  method PathJoinOne(path: array<char>, right: string, ghost s: string) returns (r: Option<bool>)
    requires Holds(path, 0, s) && s != [] && |s| <= PATH_MAX && NUL !in right && path.Length >= PATH_MAX + 1
    modifies path
    ensures r == None <==> Overruns(s, right)
    ensures r.Some? ==> Holds(path, 0, JoinedOne(s, right).0) && r.value == JoinedOne(s, right).1
  {
    if |right| > NAME_MAX {
      return Some(false);
    }
    if '/' in right {
      return Some(false);
    }
    if right == "." {
      return Some(true);
    }
    if right == ".." {
      PathDirname(path, s);
      return Some(true);
    }
    var n := StrLen(path, 0, s);
    CharAt(path, 0, s, n - 1);
    if path[n - 1] != '/' && (right == [] || right[0] != '/') {
      assert right != [] ==> right[0] in right;
      if n == PATH_MAX {
        return None;
      }
      path[n] := '/';
      path[n + 1] := NUL;
      assert path[0..n + 1] == s + "/";
      n := n + 1;
    }
    ghost var s1 := Slashed(s, right);
    var trunc := n + |right| > PATH_MAX;
    StrLCat(path, right, PATH_MAX, s1);
    r := Some(!trunc);
  }

  /** What is joined is the whole of both exactly when it is shorter than PATH_MAX; at PATH_MAX it is cut, and success reported. */
  lemma CutUnreported(s: string, right: string)
    requires Roomy(s) && IsName(right) && |right| <= NAME_MAX
    ensures JoinedOne(s, right).0 == Slashed(s, right) + right <==> |Slashed(s, right)| + |right| < PATH_MAX
    ensures JoinedOne(s, right).1 && JoinedOne(s, right).0 != Slashed(s, right) + right <==> |Slashed(s, right)| + |right| == PATH_MAX
  {
    assert '/' !in right;
  }

  /** Of a path that takes up the whole buffer the last character is lost. */
  function Fitted(s: string): string {
    if |s| < PATH_MAX then s else s[..PATH_MAX - 1]
  }

  lemma RenderEnd(names: seq<string>)
    requires AreNames(names)
    ensures Render(names)[|Render(names)| - 1] == '/' <==> names == []
  {
    if names != [] {
      var last := names[|names| - 1];
      assert IsName(last) && last[|last| - 1] in last;
    }
  }

  /** The last slash of a normal form is the one in front of the last name. */
  lemma LastSlashOfRender(names: seq<string>)
    requires AreNames(names) && names != []
    ensures var s, last := Render(names), names[|names| - 1];
            |s| > |last| && LastSlash(s) == Some(|s| - |last| - 1) && s[|s| - |last|..] == last
  {
    var s, last := Render(names), names[|names| - 1];
    assert IsName(last) && forall i | 0 <= i < |last| :: last[i] in last && last[i] != '/';
    var k := |s| - |last| - 1;
    assert s[k + 1..] == last;
    assert forall j | k < j < |s| :: s[j] == s[k + 1..][j - k - 1];
    LastIs(s, Some(k));
  }

  /** The directory of a normal form is the normal form without the last name. */
  lemma DirnameOfRender(names: seq<string>)
    requires AreNames(names)
    ensures Dirname(Render(names)) == Render(if names == [] then [] else names[..|names| - 1])
  {
    RenderEnd(names);
    if names != [] {
      LastSlashOfRender(names);
      hide LastSlash;
      var s := Render(names);
      assert |names| > 1 ==> s[..|s| - |names[|names| - 1]| - 1] == Render(names[..|names| - 1]);
    }
  }

  lemma BasenameOfRender(names: seq<string>)
    requires AreNames(names) && names != [] && |names[|names| - 1]| <= NAME_MAX
    ensures Basename(Render(names)) == names[|names| - 1]
  {
    RenderEnd(names);
    LastSlashOfRender(names);
    hide LastSlash, Render;
  }

  /** Joining one component to a normal form is one step of the walk. */
  lemma JoinRendered(names: seq<string>, c: string)
    requires AreNames(names) && c != [] && '/' !in c && |c| <= NAME_MAX && Weight(names) + |c| + 1 <= PATH_MAX
    ensures JoinedOne(Render(names), c) == (Fitted(Render(Push(names, c))), true)
    ensures Weight(names) + |c| + 1 < PATH_MAX ==> Fitted(Render(Push(names, c))) == Render(Push(names, c))
  {
    RenderEnd(names);
    RenderLength(names);
    if c == ".." {
      DirnameOfRender(names);
    } else if c != "." {
      assert c[0] in c;
      assert (names + [c])[..|names|] == names;
      FittedJoin(Slashed(Render(names), c), c);
    }
  }

  lemma FittedJoin(s: string, right: string)
    requires right != [] && |s| + |right| <= PATH_MAX
    ensures Fitted(s + right) == if |s| + |right| < PATH_MAX then s + right
                                 else if |s| + 1 < PATH_MAX then s + right[..PATH_MAX - 1 - |s|] else s
  {
    assert |s| + |right| == PATH_MAX ==> (s + right)[..PATH_MAX - 1] == s + right[..PATH_MAX - 1 - |s|];
  }

  /** A normal path other than the root is its directory joined with its last name. */
  lemma DirectoryAndName(names: seq<string>)
    requires AreNames(names) && names != [] && |names[|names| - 1]| <= NAME_MAX && |Render(names)| < PATH_MAX
    ensures JoinedOne(Dirname(Render(names)), Basename(Render(names))) == (Render(names), true)
  {
    var less, last := names[..|names| - 1], names[|names| - 1];
    assert IsName(last);
    assert forall i | 0 <= i < |less| :: less[i] == names[i] && IsName(names[i]);
    RenderLength(names);
    assert Weight(names) == Weight(less) + |last| + 1;
    assert Push(less, last) == less + [last] == names;
    hide Dirname, Basename, JoinedOne, Render, Weight, Push;
    DirnameOfRender(names);
    BasenameOfRender(names);
    assert last[0] in last;
    JoinRendered(less, last);
  }

  /** path_join: component by component, until one does not fit. */
  function JoinedAll(s: string, components: seq<string>): (string, bool)
    requires s != []
    decreases |components|
  {
    if components == [] then (s, true)
    else
      var (s1, ok) := JoinedOne(s, components[0]);
      if ok && s1 != [] then JoinedAll(s1, components[1..]) else (s1, false)
  }

  lemma JoinedNonempty(s: string, right: string)
    requires s != [] && |s| <= PATH_MAX && !Overruns(s, right)
    ensures JoinedOne(s, right).0 != [] && |JoinedOne(s, right).0| <= PATH_MAX
    ensures Roomy(s) && JoinedOne(s, right).1 ==> Roomy(JoinedOne(s, right).0)
  {
    assert right != [] ==> right[0] in right;
  }

  /** Some component on the way does not find room. */
  predicate OverrunsAll(s: string, components: seq<string>)
    requires s != []
    decreases |components|
  {
    components != [] &&
    (Overruns(s, components[0]) ||
     var (s1, ok) := JoinedOne(s, components[0]); ok && s1 != [] && OverrunsAll(s1, components[1..]))
  }

  /** Before the first component that is joined there are only some that leave the path as it is: "." and, in a path without a
      slash, "..". */
  predicate JoinsAtOnce(components: seq<string>, flat: bool) {
    components != [] &&
    (Joins(components[0]) || ((components[0] == "." || (components[0] == ".." && flat)) && JoinsAtOnce(components[1..], flat)))
  }

  lemma {:induction false} RoomyStays(s: string, components: seq<string>)
    requires Roomy(s)
    ensures !OverrunsAll(s, components)
    decreases |components|
  {
    if components != [] && JoinedOne(s, components[0]).1 {
      JoinedNonempty(s, components[0]);
      RoomyStays(JoinedOne(s, components[0]).0, components[1..]);
    }
  }

  /** A buffer is overrun exactly when it is full, does not end in a slash, and a component comes to be joined before any is
      taken off. */
  lemma {:induction false} OverrunExactly(s: string, components: seq<string>)
    requires s != [] && |s| <= PATH_MAX
    ensures OverrunsAll(s, components) <==> !Roomy(s) && JoinsAtOnce(components, '/' !in s)
    decreases |components|
  {
    if Roomy(s) {
      RoomyStays(s, components);
    } else if components != [] {
      if components[0] == "." {
        OverrunExactly(s, components[1..]);
      } else if components[0] == ".." {
        DirnameRoomy(s);
        if '/' in s {
          RoomyStays(Dirname(s), components[1..]);
        } else {
          OverrunExactly(s, components[1..]);
        }
      }
    }
  }

  lemma DirnameRoomy(s: string)
    requires s != [] && |s| <= PATH_MAX && !Roomy(s)
    ensures if '/' in s then Roomy(Dirname(s)) else Dirname(s) == s
  {
    assert IsLastSlash(s, LastSlash(s));
    if '/' in s {
      var k :| 0 <= k < |s| && s[k] == '/';
    }
  }

  /** One round of the loop. */
  lemma JoinStep(s: string, left: seq<string>)
    requires s != [] && |s| <= PATH_MAX && left != []
    ensures Overruns(s, left[0]) ==> OverrunsAll(s, left)
    ensures !Overruns(s, left[0]) ==> var (s1, ok) := JoinedOne(s, left[0]);
              && s1 != [] && |s1| <= PATH_MAX
              && OverrunsAll(s, left) == (ok && OverrunsAll(s1, left[1..]))
              && JoinedAll(s, left) == if ok then JoinedAll(s1, left[1..]) else (s1, false)
  {
    if !Overruns(s, left[0]) {
      JoinedNonempty(s, left[0]);
    }
    hide Overruns, JoinedOne;
  }

  /** path_join. None when it would write behind the buffer. */
  method PathJoin(path: array<char>, right: string, ghost s: string) returns (r: Option<bool>)
    requires Holds(path, 0, s) && s != [] && |s| <= PATH_MAX && NUL !in right && |right| <= PATH_MAX && path.Length >= PATH_MAX + 1
    modifies path
    ensures r == None <==> OverrunsAll(s, Tokens(right, SLASH))
    ensures r.Some? ==> Holds(path, 0, JoinedAll(s, Tokens(right, SLASH)).0) && r.value == JoinedAll(s, Tokens(right, SLASH)).1
  {
    hide Tokens, JoinedOne, JoinedAll, OverrunsAll, Overruns, Holds, AtToken, Roomy;
    var buf := new char[PATH_MAX + 1](i => NUL);
    StrLCpy(buf, right, PATH_MAX + 1);
    ghost var all := Tokens(right, SLASH);
    ghost var now, left, rest := s, all, right;
    var token, lasts;
    token, lasts, rest := StrTokR(buf, 0, SLASH, right);
    assert token.Some? <==> left != [] by {
      AtTokenSome(buf, token, lasts, left, rest);
    }
    while token != None
      invariant fresh(buf) && Holds(path, 0, now) && now != [] && |now| <= PATH_MAX
      invariant JoinedAll(s, all) == JoinedAll(now, left) && OverrunsAll(s, all) == OverrunsAll(now, left)
      invariant AtToken(buf, token, lasts, left, rest, SLASH) && (token.Some? <==> left != [])
      decreases |left|
    {
      FromToken(buf, token, lasts, left, rest, SLASH);
      var c := Text(buf, token.value, left[0]);
      JoinStep(now, left);
      r := PathJoinOne(path, c, now);
      if r.None? {
        return;
      }
      now := JoinedOne(now, c).0;
      if r == Some(false) {
        return;
      }
      left := left[1..];
      token, lasts, rest := StrTokR(buf, lasts, SLASH, rest);
      AtTokenSome(buf, token, lasts, left, rest);
    }
    NothingLeft(now);
    r := Some(true);
  }

  lemma NothingLeft(s: string)
    requires s != []
    ensures JoinedAll(s, []) == (s, true) && !OverrunsAll(s, [])
  {
  }

  lemma AtTokenSome(a: array<char>, token: Option<nat>, lasts: nat, left: seq<string>, rest: string)
    requires AtToken(a, token, lasts, left, rest, SLASH)
    ensures token.Some? <==> left != []
  {
  }

  // ----- collapsing

  /** The buffer holds a normal form that the rest of the tokens fit behind. */
  ghost predicate Midway(names: seq<string>, left: seq<string>) {
    AreNames(names) && Weight(names) + Weight(left) <= PATH_MAX
    && forall c | c in left :: c != [] && '/' !in c && NUL !in c
  }

  lemma JoinToken(s: string, c: string)
    requires s != [] && c != [] && '/' !in c
    ensures JoinedAll(s, Tokens(c, SLASH)).0 == JoinedOne(s, c).0
  {
    LoneToken(c);
    hide Tokens, JoinedOne;
    var tokens := Tokens(c, SLASH);
    assert tokens[0] == c && tokens[1..] == [];
  }

  lemma ResolveKept(names: seq<string>, left: seq<string>)
    requires left != []
    ensures Resolve(names, Kept(left)) == Resolve(if |left[0]| <= NAME_MAX then Push(names, left[0]) else names, Kept(left[1..]))
  {
    var rest := Kept(left[1..]);
    if |left[0]| <= NAME_MAX {
      assert Kept(left) == [left[0]] + rest && ([left[0]] + rest)[1..] == rest;
    } else {
      assert [] + rest == rest;
    }
  }

  /** One token of the loop: one step of the walk, or none for a token that is too long. */
  lemma CollapseStep(names: seq<string>, left: seq<string>)
    requires Midway(names, left) && left != []
    ensures var c := left[0];
            var next := if |c| <= NAME_MAX then Push(names, c) else names;
            && JoinedAll(Render(names), Tokens(c, SLASH)).0 == Fitted(Render(next))
            && Midway(next, left[1..]) && Resolve(names, Kept(left)) == Resolve(next, Kept(left[1..]))
  {
    hide Tokens, Render, Weight, Resolve, Kept, JoinedAll, Push, IsName;
    var c := left[0];
    assert c in left;
    assert left == [c] + left[1..];
    assert forall d | d in left[1..] :: d in left;
    WeightAhead(c, left[1..]);
    JoinToken(Render(names), c);
    ResolveKept(names, left);
    TokenFits(names, left);
    if |c| <= NAME_MAX {
      PushNames(names, c);
      JoinRendered(names, c);
    }
  }

  /** The loop of path_collapse_dots: token by token from one buffer into another. */
  method Walk(path: array<char>, buf: array<char>, ghost s: string)
    requires Holds(path, 0, s) && s != [] && s[0] == '/' && |s| <= PATH_MAX && path != buf
    requires Holds(buf, 0, "/") && buf.Length >= PATH_MAX + 1
    modifies path, buf
    ensures Holds(buf, 0, Fitted(Collapsed(s)))
  {
    StartsMidway(s);
    hide Tokens, Resolve, Kept, Weight, Render, JoinedAll, OverrunsAll, Roomy, Midway, Push, Holds, AtToken;
    ghost var names: seq<string>, left := [], Tokens(s, SLASH);
    ghost var rest;
    var token, lasts;
    token, lasts, rest := StrTokR(path, 0, SLASH, s);
    AtTokenSome(path, token, lasts, left, rest);
    while token != None
      invariant Midway(names, left) && Holds(buf, 0, Fitted(Render(names)))
      invariant Resolve([], Kept(Tokens(s, SLASH))) == Resolve(names, Kept(left))
      invariant AtToken(path, token, lasts, left, rest, SLASH) && (token.Some? <==> left != [])
      decreases |left|
    {
      FromToken(path, token, lasts, left, rest, SLASH);
      CollapseStep(names, left);
      TokenFits(names, left);
      var c := Text(path, token.value, left[0]);
      RoomyStays(Render(names), Tokens(c, SLASH));
      var joined := PathJoin(buf, c, Render(names));
      names := if |c| <= NAME_MAX then Push(names, c) else names;
      left := left[1..];
      token, lasts, rest := StrTokR(path, lasts, SLASH, rest);
      AtTokenSome(path, token, lasts, left, rest);
    }
    EndOfWalk(names);
  }

  /**
    * path_collapse_dots: refuses a path that is not absolute. The path in the buffer is replaced by the normal form
    * of its components, components that are too long left out; from a path of PATH_MAX characters that is its own normal
    form the last character is lost.
    */
  method PathCollapseDots(path: array<char>, ghost s: string) returns (ok: bool)
    requires Holds(path, 0, s) && |s| <= PATH_MAX && path.Length >= PATH_MAX + 1
    modifies path
    ensures ok <==> s != [] && s[0] == '/'
    ensures ok ==> Holds(path, 0, Fitted(Collapsed(s)))
    ensures !ok ==> Holds(path, 0, s)
  {
    CharAt(path, 0, s, 0);
    if path[0] != '/' {
      return false;
    }
    CollapsedShorter(s);
    var buf := new char[PATH_MAX + 1](i => NUL);
    StrLCpy(buf, "/", PATH_MAX + 1);
    Walk(path, buf, s);
    var normal := Text(buf, 0, Fitted(Collapsed(s)));
    StrLCpy(path, normal, |normal| + 1);
    ok := true;
  }

  lemma StartsMidway(s: string)
    requires s != [] && s[0] == '/' && |s| <= PATH_MAX && NUL !in s
    ensures Midway([], Tokens(s, SLASH)) && Render([]) == "/"
  {
    TokensWeight(s);
    forall c | c in Tokens(s, SLASH)
      ensures c != [] && '/' !in c && NUL !in c
    {
      TokensProper(s, SLASH, c);
    }
  }

  lemma TokenFits(names: seq<string>, left: seq<string>)
    requires Midway(names, left) && left != []
    ensures |left[0]| <= PATH_MAX && NUL !in left[0] && Render(names) != [] && Roomy(Render(names))
    ensures |Render(names)| < PATH_MAX && Fitted(Render(names)) == Render(names)
  {
    assert left[0] in left;
    assert left == [left[0]] + left[1..];
    WeightAhead(left[0], left[1..]);
    RenderLength(names);
  }

  lemma EndOfWalk(names: seq<string>)
    ensures Resolve(names, Kept([])) == names
  {
  }

  // ----- what collapsing is for

  /** The components of a path. */
  function Components(s: string): seq<string> {
    Tokens(s, SLASH)
  }

  lemma CollapsedNames(s: string)
    requires s != [] && s[0] == '/' && NUL !in s
    ensures AreNames(Resolve([], Kept(Components(s)))) && forall c | c in Resolve([], Kept(Components(s))) :: IsName(c)
  {
    forall c | c in Kept(Components(s))
      ensures c != [] && '/' !in c && NUL !in c
    {
      KeptIn(Components(s), c);
      TokensProper(s, SLASH, c);
    }
    ResolveNames([], Kept(Components(s)));
  }

  /** A path never gets longer. */
  lemma CollapsedShorter(s: string)
    requires s != [] && s[0] == '/' && NUL !in s
    ensures |Collapsed(s)| <= |s|
  {
    CollapsedNames(s);
    forall c | c in Kept(Components(s))
      ensures c != [] && '/' !in c && NUL !in c
    {
      KeptIn(Components(s), c);
      TokensProper(s, SLASH, c);
    }
    ResolveNames([], Kept(Components(s)));
    KeptWeight(Components(s));
    TokensWeight(s);
    RenderLength(Resolve([], Kept(Components(s))));
  }

  /** With components that can be names, the result is the walk's. */
  lemma CollapsedIsNormal(s: string)
    requires forall c | c in Components(s) :: |c| <= NAME_MAX
    ensures Collapsed(s) == Render(Resolve([], Components(s)))
  {
    KeptAll(Components(s));
  }

  /** The result has no empty component and no dots, and collapsing it again changes nothing. */
  lemma CollapsedAgain(s: string)
    requires s != [] && s[0] == '/' && NUL !in s
    ensures AreNames(Components(Collapsed(s))) && Collapsed(Collapsed(s)) == Collapsed(s)
  {
    var names := Resolve([], Kept(Components(s)));
    CollapsedNames(s);
    TokensOfRender(names);
    forall c | c in Kept(Components(s))
      ensures |c| <= NAME_MAX
    {
      KeptIn(Components(s), c);
    }
    ResolvedShort([], Kept(Components(s)));
    KeptAll(names);
    ResolveOfNames([], names);
    assert [] + names == names;
  }

  lemma {:induction false} ResolvedShort(names: seq<string>, components: seq<string>)
    requires (forall c | c in names :: |c| <= NAME_MAX) && (forall c | c in components :: |c| <= NAME_MAX)
    ensures forall c | c in Resolve(names, components) :: |c| <= NAME_MAX
    decreases |components|
  {
    if components != [] {
      assert components[0] in components;
      ResolvedShort(Push(names, components[0]), components[1..]);
    }
  }

  // ----- when overlong components do harm

  /** What a walk leaves, read from its end: ups of its ".." are still to take a name away. */
  function Remaining(components: seq<string>, ups: nat): seq<string> {
    if components == [] then []
    else
      var front, c := components[..|components| - 1], components[|components| - 1];
      if c == "." then Remaining(front, ups)
      else if c == ".." then Remaining(front, ups + 1)
      else if ups > 0 then Remaining(front, ups - 1)
      else Remaining(front, 0) + [c]
  }

  lemma {:induction false} ResolveLast(names: seq<string>, components: seq<string>)
    requires components != []
    ensures Resolve(names, components) == Push(Resolve(names, components[..|components| - 1]), components[|components| - 1])
    decreases |components|
  {
    if |components| > 1 {
      ResolveLast(Push(names, components[0]), components[1..]);
      assert components[1..][..|components| - 2] == components[..|components| - 1][1..];
    }
  }

  function Without(names: seq<string>, ups: nat): seq<string> {
    if ups >= |names| then [] else names[..|names| - ups]
  }

  lemma {:induction false} RemainingIs(components: seq<string>, ups: nat)
    ensures Remaining(components, ups) == Without(Resolve([], components), ups)
  {
    if components != [] {
      var front, c := components[..|components| - 1], components[|components| - 1];
      ResolveLast([], components);
      RemainingIs(front, if c == "." then ups else if c == ".." then ups + 1 else if ups > 0 then ups - 1 else 0);
      var names := Resolve([], front);
      assert (names + [c])[..|names|] == names;
      assert ups > 0 && ups <= |names| ==> (names + [c])[..|names| + 1 - ups] == names[..|names| - (ups - 1)];
    }
  }

  lemma {:induction false} KeptLast(components: seq<string>)
    requires components != []
    ensures var front, c := components[..|components| - 1], components[|components| - 1];
            Kept(components) == Kept(front) + if |c| <= NAME_MAX then [c] else []
  {
    if |components| > 1 {
      KeptLast(components[1..]);
      assert components[1..][..|components| - 2] == components[..|components| - 1][1..];
    }
  }

  /** Passing over the overlong components changes nothing, as one finds reading the path from its end: up counts the ".."
      that still have to take a name away, upShort those that do when only short names can be taken. Each name that no ".."
      takes away must be short, and no ".." left over from an overlong name may stand behind it. */
  predicate Harmless(components: seq<string>, up: nat, upShort: nat) {
    if components == [] then true
    else
      var front, c := components[..|components| - 1], components[|components| - 1];
      if c == "." then Harmless(front, up, upShort)
      else if c == ".." then Harmless(front, up + 1, upShort + 1)
      else if up > 0 then Harmless(front, up - 1, if |c| <= NAME_MAX && upShort > 0 then upShort - 1 else upShort)
      else |c| <= NAME_MAX && upShort == 0 && Harmless(front, 0, 0)
  }

  lemma {:induction false} HarmlessExactly(components: seq<string>, up: nat, upShort: nat)
    requires up <= upShort
    ensures |Remaining(Kept(components), upShort)| <= |Remaining(components, up)|
    ensures Harmless(components, up, upShort) <==> Remaining(Kept(components), upShort) == Remaining(components, up)
  {
    if components != [] {
      var front, c := components[..|components| - 1], components[|components| - 1];
      var kept := Kept(front);
      KeptLast(components);
      assert kept + [] == kept && (kept + [c])[..|kept|] == kept;
      var less := if |c| <= NAME_MAX && upShort > 0 then upShort - 1 else upShort;
      if c == "." {
        HarmlessExactly(front, up, upShort);
      } else if c == ".." {
        HarmlessExactly(front, up + 1, upShort + 1);
      } else if up > 0 {
        HarmlessExactly(front, up - 1, less);
      } else if |c| <= NAME_MAX && upShort == 0 {
        HarmlessExactly(front, 0, 0);
        SameFront(Remaining(kept, 0), Remaining(front, 0), c);
      } else {
        HarmlessExactly(front, 0, less);
      }
    }
  }

  lemma SameFront(a: seq<string>, b: seq<string>, c: string)
    ensures a + [c] == b + [c] <==> a == b
  {
    if a + [c] == b + [c] {
      assert a == (a + [c])[..|a|] == (b + [c])[..|b|];
    }
  }

  /** A path has the walk's result exactly when passing over its overlong components changes nothing. */
  lemma CollapsedExactly(s: string)
    requires s != [] && s[0] == '/' && NUL !in s
    ensures Collapsed(s) == Render(Resolve([], Components(s))) <==> Harmless(Components(s), 0, 0)
  {
    var components := Components(s);
    HarmlessExactly(components, 0, 0);
    RemainingIs(components, 0);
    RemainingIs(Kept(components), 0);
    var all, kept := Resolve([], components), Resolve([], Kept(components));
    assert Without(all, 0) == all && Without(kept, 0) == kept;
    if Render(kept) == Render(all) {
      forall c | c in components
        ensures c != [] && '/' !in c && NUL !in c
      {
        TokensProper(s, SLASH, c);
      }
      hide Tokens;
      ResolveNames([], components);
      CollapsedNames(s);
      TokensOfRender(all);
      TokensOfRender(kept);
    }
  }

  /** Where no component goes up, each must be short. */
  lemma {:induction false} HarmlessAhead(components: seq<string>)
    requires ".." !in components
    ensures Harmless(components, 0, 0) <==> forall c | c in components :: |c| <= NAME_MAX
  {
    if components != [] {
      var front, c := components[..|components| - 1], components[|components| - 1];
      assert components == front + [c];
      HarmlessAhead(front);
    }
  }

  /** A ".." behind an overlong component takes the name in front of it away. */
  lemma OverlongHarms(name: string, long: string)
    requires IsName(name) && IsName(long) && |name| <= NAME_MAX < |long|
    ensures var components := [name, long, ".."];
            !Harmless(components, 0, 0) && Resolve([], components) == [name] && Resolve([], Kept(components)) == []
  {
    var components := [name, long, ".."];
    assert components[..2] == [name, long] && [name, long][..1] == [name];
    assert Harmless(components, 0, 0) == Harmless([name, long], 1, 1) == Harmless([name], 0, 1);
    assert components[1..] == [long, ".."] && [long, ".."][1..] == [".."] && [".."][1..] == [];
    assert [name, long][..|[name, long]| - 1] == [name] && Push([name, long], "..") == [name] && Push([name], "..") == [];
    assert Push([], name) == [name] && Push([name], long) == [name, long];
    assert Resolve([], components) == Resolve([name], [long, ".."]) == Resolve([name, long], [".."]) == Resolve([name], []);
    assert Kept([".."]) == [".."] && Kept([long, ".."]) == [".."] && Kept(components) == [name, ".."] && [name, ".."][1..] == [".."];
    assert Resolve([], [name, ".."]) == Resolve([name], [".."]) == Resolve([], []);
  }

  /** So a path that names its first component collapses to the root. */
  lemma OverlongPath(name: string, long: string)
    requires IsName(name) && IsName(long) && |name| <= NAME_MAX < |long|
    ensures var s := "/" + name + "/" + long + "/" + "..";
            Collapsed(s) == "/" && Render(Resolve([], Components(s))) == "/" + name
  {
    hide Tokens, Resolve, Kept;
    TokensOfOne(name);
    TokensJoined("/" + name, long);
    TokensJoined("/" + name + "/" + long, "..");
    assert [name] + [long] + [".."] == [name, long, ".."];
    OverlongHarms(name, long);
  }
}
