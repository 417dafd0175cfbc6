/** Strings that end with a zero, in arrays that are edited in place (src/lib/string.c). */
module CStrings {
  import opened Options

  const NUL: char := '\0'

  /** The array holds this string from a place on. */
  ghost predicate Holds(a: array<char>, from: nat, s: string)
    reads a
  {
    from + |s| < a.Length && a[from..from + |s|] == s && a[from + |s|] == NUL && NUL !in s
  }

  lemma CharAt(a: array<char>, from: nat, s: string, n: nat)
    requires Holds(a, from, s) && n <= |s|
    ensures a[from + n] == if n < |s| then s[n] else NUL
    ensures n < |s| ==> s[n] != NUL
  {
    if n < |s| {
      assert a[from..from + |s|][n] == s[n];
    }
  }

  /** The end of a string is a string. */
  lemma HoldsFrom(a: array<char>, from: nat, s: string, n: nat)
    requires Holds(a, from, s) && n <= |s|
    ensures Holds(a, from + n, s[n..])
  {
    assert a[from..from + |s|][n..] == a[from + n..from + |s|];
  }

  /** strlen. */
  method StrLen(a: array<char>, from: nat, ghost s: string) returns (n: nat)
    requires Holds(a, from, s)
    ensures n == |s|
  {
    n := 0;
    CharAt(a, from, s, n);
    while a[from + n] != NUL
      invariant n <= |s| && a[from + n] == (if n < |s| then s[n] else NUL) && (n < |s| ==> s[n] != NUL)
      decreases |s| - n
    {
      n := n + 1;
      CharAt(a, from, s, n);
    }
  }

  /** How long a prefix of a string has only characters that are, or are not, among the delimiters. */
  function Span(s: string, delimiters: string, among: bool): (n: nat)
    ensures n <= |s| && (forall i | 0 <= i < n :: (s[i] in delimiters) == among)
    ensures n < |s| ==> (s[n] in delimiters) != among
  {
    if s == [] || (s[0] in delimiters) != among then 0 else 1 + Span(s[1..], delimiters, among)
  }

  /** strspn and strcspn. */
  method StrSpn(a: array<char>, from: nat, delimiters: string, among: bool, ghost s: string) returns (n: nat)
    requires Holds(a, from, s)
    ensures n == Span(s, delimiters, among)
  {
    n := 0;
    CharAt(a, from, s, n);
    while a[from + n] != NUL && (a[from + n] in delimiters) == among
      invariant n <= |s| && Span(s, delimiters, among) == n + Span(s[n..], delimiters, among)
      invariant a[from + n] == (if n < |s| then s[n] else NUL) && (n < |s| ==> s[n] != NUL)
      decreases |s| - n
    {
      assert s[n..][1..] == s[n + 1..];
      n := n + 1;
      CharAt(a, from, s, n);
    }
  }

  /** strrchr: the last place of a character. */
  method StrRChr(a: array<char>, c: char, ghost s: string) returns (p: Option<nat>)
    requires Holds(a, 0, s) && c != NUL
    ensures p.None? ==> forall j | 0 <= j < |s| :: s[j] != c
    ensures p.Some? ==> p.value < |s| && s[p.value] == c && forall j | p.value < j < |s| :: s[j] != c
  {
    var n := StrLen(a, 0, s);
    if n == 0 {
      return None;
    }
    var i := n - 1;
    CharAt(a, 0, s, i);
    while i > 0 && a[i] != c
      invariant 0 <= i < |s| && (forall j | i < j < |s| :: s[j] != c) && a[i] == s[i]
    {
      i := i - 1;
      CharAt(a, 0, s, i);
    }
    if a[i] == c {
      return Some(i);
    }
    p := None;
  }

  /** strlcpy into the start of an array: as much of the string as fits. */
  method StrLCpy(dst: array<char>, src: string, size: nat)
    requires 0 < size <= dst.Length && NUL !in src
    modifies dst
    ensures Holds(dst, 0, if |src| < size then src else src[..size - 1])
  {
    var n := if size >= |src| + 1 then |src| else size - 1;
    var i := 0;
    while i < n
      invariant 0 <= i <= n && dst[..i] == src[..i]
    {
      dst[i] := src[i];
      i := i + 1;
    }
    dst[n] := NUL;
    assert dst[0..n] == src[..n];
  }

  /** strlcat: as much of the string as fits behind the one that is there. */
  method StrLCat(dst: array<char>, src: string, size: nat, ghost s: string)
    requires Holds(dst, 0, s) && NUL !in src && size <= dst.Length
    modifies dst
    ensures Holds(dst, 0, if |s| + |src| < size then s + src else if |s| + 1 < size then s + src[..size - 1 - |s|] else s)
  {
    var used := StrLen(dst, 0, s);
    if size > 0 && used < size - 1 {
      var copy := if |src| >= size - used then size - used - 1 else |src|;
      var i := 0;
      while i < copy
        invariant 0 <= i <= copy && dst[..used + i] == s + src[..i]
      {
        dst[used + i] := src[i];
        i := i + 1;
      }
      dst[used + copy] := NUL;
      assert dst[0..used + copy] == s + src[..copy];
    }
  }

  // ----- tokens

  /** The runs of characters between delimiters. */
  function Tokens(s: string, delimiters: string): (r: seq<string>)
    decreases |s|
  {
    var skip := Span(s, delimiters, true);
    if skip == |s| then []
    else
      var n := Span(s[skip..], delimiters, false);
      [s[skip..][..n]] + Tokens(s[skip..][n..], delimiters)
  }

  /** Tokens are not empty and have no delimiters in them. */
  lemma {:induction false} TokensProper(s: string, delimiters: string, t: string)
    requires t in Tokens(s, delimiters)
    ensures t != [] && forall c | c in t :: c !in delimiters && c in s
    decreases |s|
  {
    var s1 := s[Span(s, delimiters, true)..];
    var n := Span(s1, delimiters, false);
    if t != s1[..n] {
      TokensProper(s1[n..], delimiters, t);
    }
  }

  /** A delimiter in front does not matter. */
  lemma DelimiterAhead(c: char, s: string, delimiters: string)
    requires c in delimiters
    ensures Tokens([c] + s, delimiters) == Tokens(s, delimiters)
  {
    var long := [c] + s;
    assert long[1..] == s;
    var skip := Span(s, delimiters, true);
    assert Span(long, delimiters, true) == skip + 1;
    if skip < |s| {
      assert long[skip + 1..] == s[skip..];
    }
  }

  /** The first token, and what the rest of them come from. */
  lemma FirstToken(s: string, delimiters: string)
    requires Span(s, delimiters, true) < |s|
    ensures var s1 := s[Span(s, delimiters, true)..];
            var n := Span(s1, delimiters, false);
            n > 0 && Tokens(s, delimiters) == [s1[..n]] + Tokens(if n < |s1| then s1[n + 1..] else [], delimiters)
  {
    var s1 := s[Span(s, delimiters, true)..];
    var n := Span(s1, delimiters, false);
    if n < |s1| {
      assert s1[n..] == [s1[n]] + s1[n + 1..];
      DelimiterAhead(s1[n], s1[n + 1..], delimiters);
    } else {
      assert s1[n..] == [];
    }
  }

  /** A zero over a character makes two strings of one. */
  method CutAt(a: array<char>, from: nat, n: nat, ghost s: string)
    requires Holds(a, from, s) && n < |s|
    modifies a
    ensures Holds(a, from, s[..n]) && Holds(a, from + n + 1, s[n + 1..])
  {
    HoldsFrom(a, from, s, n + 1);
    assert a[from..from + |s|][..n] == a[from..from + n];
    a[from + n] := NUL;
  }

  /** Cuts off the token that begins here. */
  method TakeToken(a: array<char>, begin: nat, delimiters: string, ghost s: string) returns (lasts: nat)
    requires Holds(a, begin, s)
    modifies a
    ensures var n := Span(s, delimiters, false);
            Holds(a, begin, s[..n]) && Holds(a, lasts, if n < |s| then s[n + 1..] else [])
  {
    var n := StrSpn(a, begin, delimiters, false, s);
    CharAt(a, begin, s, n);
    lasts := begin + n;
    if a[lasts] != NUL {
      CutAt(a, begin, n, s);
      lasts := lasts + 1;
    } else {
      assert s[..n] == s;
      HoldsFrom(a, begin, s, n);
    }
  }

  /** The next token stands at its place, and the rest of the tokens come from a string behind it. */
  ghost predicate AtToken(a: array<char>, token: Option<nat>, lasts: nat, left: seq<string>, rest: string, delimiters: string)
    reads a
  {
    && (token.None? <==> left == [])
    && (token.Some? ==> left == [left[0]] + Tokens(rest, delimiters) && Holds(a, token.value, left[0]) && Holds(a, lasts, rest))
  }

  lemma FromToken(a: array<char>, token: Option<nat>, lasts: nat, left: seq<string>, rest: string, delimiters: string)
    requires AtToken(a, token, lasts, left, rest, delimiters) && token.Some?
    ensures left != [] && Holds(a, token.value, left[0]) && Holds(a, lasts, rest) && left[1..] == Tokens(rest, delimiters)
  {
  }

  lemma ToToken(a: array<char>, begin: nat, lasts: nat, left: seq<string>, rest: string, delimiters: string)
    requires left != [] && left == [left[0]] + Tokens(rest, delimiters) && Holds(a, begin, left[0]) && Holds(a, lasts, rest)
    ensures AtToken(a, Some(begin), lasts, left, rest, delimiters)
  {
  }

  /** strtok_r: where the next token is and where the rest begins; the token is cut off in place. */
  method StrTokR(a: array<char>, from: nat, delimiters: string, ghost s: string) returns (token: Option<nat>, lasts: nat, ghost rest: string)
    requires Holds(a, from, s) && NUL !in delimiters
    modifies a
    ensures AtToken(a, token, lasts, Tokens(s, delimiters), rest, delimiters)
  {
    rest := [];
    var skip := StrSpn(a, from, delimiters, true, s);
    var begin := from + skip;
    CharAt(a, from, s, skip);
    HoldsFrom(a, from, s, skip);
    if a[begin] == NUL {
      return None, begin, rest;
    }
    FirstToken(s, delimiters);
    hide Tokens, Span, Holds;
    ghost var s1 := s[skip..];
    ghost var n := Span(s1, delimiters, false);
    rest := if n < |s1| then s1[n + 1..] else [];
    lasts := TakeToken(a, begin, delimiters, s1);
    hide AtToken;
    ToToken(a, begin, lasts, Tokens(s, delimiters), rest, delimiters);
    token := Some(begin);
  }

  /** The string at a place. */
  method Text(a: array<char>, from: nat, ghost s: string) returns (r: string)
    requires Holds(a, from, s)
    ensures r == s && NUL !in r
  {
    var n := StrLen(a, from, s);
    r := a[from..from + n];
  }
}
