/** The path routines that scan and build names character by character. */
module PathSub {
  import opened CText
  import opened Paths

  const NAME_MAX: nat := 256
  const PATH_MAX: nat := 1024

  // ----- components

  function NonSlash(s: string): (r: string)
    ensures |r| <= |s| && s[..|r|] == r && '/' !in r
    ensures |r| < |s| ==> s[|r|] == '/'
    ensures s != "" && s[0] != '/' ==> r != ""
  {
    if s == "" || s[0] == '/' then "" else [s[0]] + NonSlash(s[1..])
  }

  function SkipSlashes(s: string): (r: string)
    ensures |r| <= |s| && s[|s| - |r|..] == r
    ensures r == "" || r[0] != '/'
    ensures s != "" && s[0] == '/' ==> |r| < |s|
  {
    if s != "" && s[0] == '/' then SkipSlashes(s[1..]) else s
  }

  /** What one call of `getcomponent` stores: a leading slash by itself, or the characters up to the
      next slash. */
  function Component(s: string): (r: string)
    requires s != ""
    ensures r != "" && |r| <= |s|
  {
    if s[0] == '/' then "/" else NonSlash(s)
  }

  /** What is left of the path after the call. */
  function Rest(s: string): (r: string)
    requires s != ""
    ensures |r| < |s|
  {
    if s[0] == '/' then SkipSlashes(s) else SkipSlashes(s[|NonSlash(s)|..])
  }

  function Components(s: string): seq<string>
    decreases |s|
  {
    if s == "" then [] else [Component(s)] + Components(Rest(s))
  }

  /** `getcomponent`: null at the end of the path, else the position after the component and the
      slashes behind it. */
  method GetComponent(path: string, pos: nat, name: array<char>) returns (found: bool, next: nat)
    requires NulFree(path) && pos <= |path|
    requires pos < |path| ==> |Component(path[pos..])| < name.Length
    modifies name
    ensures found <==> pos < |path|
    ensures found ==> next <= |path| && path[next..] == Rest(path[pos..])
    ensures found ==> '\0' in name[..] && Text(name[..]) == Component(path[pos..])
    ensures found ==> Taken(path, pos, Text(name[..]), next)
  {
    next := pos;
    found := pos < |path|;
    if !found { return; }
    var n := 1;
    if path[next] == '/' {
      name[0] := '/';
    } else {
      n := CopyComponent(path, pos, name);
      next := pos + n;
    }
    name[n] := '\0';
    assert name[..][..n] == Component(path[pos..]);
    ComponentNulFree(path, pos);
    TextUpTo(name[..], n);
    RestAfter(path, pos, next);
    next := PassSlashes(path, next);
    TakenBy(path, pos, next);
  }

  /** w is the slash at pos, or else all up to the next slash or the end; `next` is behind the slashes
      that follow. */
  predicate Taken(path: string, pos: nat, w: string, next: nat)
    requires pos < |path|
  {
    var e := if path[pos] == '/' then pos else pos + |w|;
    && (if path[pos] == '/' then w == ['/'] else e <= |path| && w == path[pos..e] && '/' !in w)
    && (path[pos] != '/' && e < |path| ==> path[e] == '/')
    && e <= next <= |path|
    && (forall i :: e <= i < next ==> path[i] == '/')
    && (next < |path| ==> path[next] != '/')
  }

  lemma TakenBy(path: string, pos: nat, next: nat)
    requires pos < |path| && next <= |path| && path[next..] == Rest(path[pos..])
    ensures Taken(path, pos, Component(path[pos..]), next)
  {
    var e := if path[pos] == '/' then pos else pos + |NonSlash(path[pos..])|;
    TakenUpTo(path, pos, e);
    SlashesTo(path, e, next);
    TakenIs(path, pos, Component(path[pos..]), e, next);
  }

  lemma TakenIs(path: string, pos: nat, w: string, e: nat, next: nat)
    requires pos < |path| && pos <= e <= next <= |path|
    requires if path[pos] == '/' then w == ['/'] && e == pos
             else w == path[pos..e] && '/' !in w && (e < |path| ==> path[e] == '/')
    requires (forall i :: e <= i < next ==> path[i] == '/') && (next < |path| ==> path[next] != '/')
    ensures Taken(path, pos, w, next)
  {
  }

  lemma TakenUpTo(path: string, pos: nat, e: nat)
    requires pos < |path| && e == if path[pos] == '/' then pos else pos + |NonSlash(path[pos..])|
    ensures e <= |path| && Rest(path[pos..]) == SkipSlashes(path[e..])
    ensures var w := Component(path[pos..]);
      if path[pos] == '/' then w == ['/'] else w == path[pos..e] && '/' !in w && (e < |path| ==> path[e] == '/')
  {
    var s := path[pos..];
    assert s[0] == path[pos];
    if path[pos] != '/' {
      var n := |NonSlash(s)|;
      assert s[..n] == path[pos..e] && s[n..] == path[e..];
      if e < |path| { assert s[n] == path[e]; }
    }
  }

  lemma SlashesTo(path: string, e: nat, next: nat)
    requires e <= |path| && next <= |path| && path[next..] == SkipSlashes(path[e..])
    ensures e <= next && (forall i :: e <= i < next ==> path[i] == '/') && (next < |path| ==> path[next] != '/')
  {
    SkipIs(path[e..]);
    assert |path[next..]| == |path| - next && |path[e..]| == |path| - e;
    forall i | e <= i < next ensures path[i] == '/' { assert path[i] == path[e..][i - e]; }
    if next < |path| { assert path[next..][0] == path[next]; }
  }

  lemma {:induction false} SkipIs(s: string)
    ensures forall i :: 0 <= i < |s| - |SkipSlashes(s)| ==> s[i] == '/'
  {
    if s != "" && s[0] == '/' {
      SkipIs(s[1..]);
      assert forall i :: 1 <= i < |s| ==> s[i] == s[1..][i - 1];
    }
  }

  lemma ComponentNulFree(path: string, pos: nat)
    requires NulFree(path) && pos < |path|
    ensures NulFree(Component(path[pos..]))
  {
  }

  lemma RestAfter(path: string, pos: nat, next: nat)
    requires pos < |path|
    requires next == if path[pos] == '/' then pos else pos + |NonSlash(path[pos..])|
    ensures next <= |path| && SkipSlashes(path[next..]) == Rest(path[pos..])
  {
    var s := path[pos..];
    assert s[0] == path[pos];
    assert path[next..] == s[next - pos..];
  }

  /** The do-while loop: the first character is copied before the first test. */
  method CopyComponent(path: string, pos: nat, name: array<char>) returns (n: nat)
    requires NulFree(path) && pos < |path| && path[pos] != '/'
    requires |NonSlash(path[pos..])| < name.Length
    modifies name
    ensures n == |NonSlash(path[pos..])|
    ensures name[..n] == NonSlash(path[pos..])
  {
    ghost var s := path[pos..];
    assert s[0] == path[pos] && |NonSlash(s)| >= 1;
    name[0] := path[pos];
    n := 1;
    while At(path, pos + n) != '/' && At(path, pos + n) != '\0'
      invariant 1 <= n <= |NonSlash(s)| && pos + n <= |path|
      invariant name[..n] == s[..n]
      decreases |path| - n
    {
      assert s[n] == path[pos + n];
      ComponentEnd(s, n);
      name[n] := path[pos + n];
      n := n + 1;
    }
    if n < |s| { assert s[n] == path[pos + n]; }
    ComponentEnd(s, n);
  }

  method PassSlashes(path: string, pos: nat) returns (next: nat)
    requires NulFree(path) && pos <= |path|
    ensures next <= |path| && path[next..] == SkipSlashes(path[pos..])
  {
    ghost var rest := SkipSlashes(path[pos..]);
    next := pos;
    while At(path, next) == '/'
      invariant next <= |path| && SkipSlashes(path[next..]) == rest
      decreases |path| - next
    {
      SkipOne(path, next);
      next := next + 1;
    }
    SkipOne(path, next);
  }

  lemma SkipOne(path: string, i: nat)
    requires i <= |path|
    ensures if i < |path| && path[i] == '/' then SkipSlashes(path[i..]) == SkipSlashes(path[i + 1..])
            else SkipSlashes(path[i..]) == path[i..]
  {
    if i < |path| { assert path[i..][0] == path[i] && path[i..][1..] == path[i + 1..]; }
  }

  /** The component reaches exactly to the first slash or the end. */
  lemma ComponentEnd(s: string, n: nat)
    requires n <= |NonSlash(s)|
    ensures n < |NonSlash(s)| <==> n < |s| && s[n] != '/'
  {
  }

  // ----- trailing slashes

  function Strip(s: string): (r: string)
    ensures |r| <= |s| && s[..|r|] == r
    ensures r == "" || r[|r| - 1] != '/'
  {
    if s != "" && s[|s| - 1] == '/' then Strip(s[..|s| - 1]) else s
  }

  lemma {:induction false} StripsSlashes(s: string)
    ensures forall i :: |Strip(s)| <= i < |s| ==> s[i] == '/'
  {
    if s != "" && s[|s| - 1] == '/' {
      StripsSlashes(s[..|s| - 1]);
      assert forall i :: 0 <= i < |s| - 1 ==> s[i] == s[..|s| - 1][i];
    }
  }

  /** The stripping loop of `xbasename`: slashes at the end are cut from the buffer one by one. */
  method CutTrailing(path: array<char>, off: nat) returns (cp: int)
    requires off <= path.Length && '\0' in path[off..]
    modifies path
    ensures '\0' in path[off..] && Text(path[off..]) == Strip(old(Text(path[off..])))
    ensures cp == LastIndex(Text(path[off..]), '/')
    ensures path[..off] == old(path[..off])
    ensures path[off + old(|Text(path[off..])|)..] == old(path[off + |Text(path[off..])|..])
  {
    ghost var s := Text(path[off..]);
    ghost var n := |s|;
    TextSplit(path[off..]);
    ghost var tail := path[off + n..];
    var ends: bool;
    cp, ends := LastSlash(path, off);
    while ends
      invariant '\0' in path[off..] && Strip(Text(path[off..])) == Strip(s) && |Text(path[off..])| <= n
      invariant cp == LastIndex(Text(path[off..]), '/')
      invariant ends <==> cp >= 0 && cp + 1 == |Text(path[off..])|
      invariant path[..off] == old(path[..off]) && path[off + n..] == tail
      decreases |Text(path[off..])|
    {
      CutLast(path, off, cp, off + n);
      cp, ends := LastSlash(path, off);
    }
  }

  /** Cut off one slash at the end of the text. */
  method CutLast(path: array<char>, off: nat, cp: nat, ghost m: nat)
    requires off <= path.Length && '\0' in path[off..] && off + cp < m <= path.Length
    requires |Text(path[off..])| == cp + 1 && Text(path[off..])[cp] == '/'
    modifies path
    ensures '\0' in path[off..] && |Text(path[off..])| == cp
    ensures Strip(Text(path[off..])) == Strip(old(Text(path[off..])))
    ensures path[..off] == old(path[..off]) && path[m..] == old(path[m..])
  {
    ghost var b := path[..];
    Cut(path, off, cp);
    assert path[..] == b[off + cp := '\0'] by {
      assert forall i :: off <= i < path.Length ==> path[i] == path[off..][i - off];
      assert forall i :: 0 <= i < off ==> path[i] == path[..off][i];
    }
  }

  /** Where the last slash is, and whether the text ends with it. */
  method LastSlash(path: array<char>, off: nat) returns (cp: int, ends: bool)
    requires off <= path.Length && '\0' in path[off..]
    ensures cp == LastIndex(Text(path[off..]), '/')
    ensures ends <==> cp >= 0 && cp + 1 == |Text(path[off..])|
  {
    cp := Strrchr(path, off, '/');
    ends := cp >= 0 && path[off + cp + 1] == '\0';
    TextSplit(path[off..]);
    if ends { TextNoNul(path[off..], cp + 1); }
  }

  /** `xbasename`: the last name of the path, without trailing slashes, begins at the index returned. */
  method XBasename(path: array<char>, off: nat) returns (base: nat)
    requires off <= path.Length && '\0' in path[off..]
    modifies path
    ensures '\0' in path[off..] && Text(path[off..]) == Strip(old(Text(path[off..])))
    ensures base == off + LastIndex(Text(path[off..]), '/') + 1
  {
    var cp := CutTrailing(path, off);
    base := off + cp + 1;
  }

  // ----- what the components mean

  function NonEmpty(names: seq<string>): seq<string>
  {
    if names == [] then []
    else (if names[0] == "" then [] else [names[0]]) + NonEmpty(names[1..])
  }

  /** Each component followed by a slash, as `relatepaths` writes them. */
  function Emit(names: seq<string>): string
  {
    if names == [] then "" else names[0] + "/" + Emit(names[1..])
  }

  lemma CutComponent(s: string)
    requires s != "" && s[0] != '/'
    ensures var w := s[|NonSlash(s)|..];
      && s == NonSlash(s) + w
      && (w == "" || (w[0] == '/' && s == NonSlash(s) + "/" + w[1..]))
  {
  }

  lemma {:induction false} SkipWalk(t: Tree, at: Node, s: string, z: string)
    requires z != ""
    ensures Walk(t, at, Split(s + z)) == Walk(t, at, Split(SkipSlashes(s) + z))
    decreases |s|
  {
    if s != "" && s[0] == '/' {
      assert (s + z)[1..] == s[1..] + z;
      WalkEmptyPiece(t, at, Split(s[1..] + z));
      SkipWalk(t, at, s[1..], z);
    }
  }

  lemma WalkHead(t: Tree, at: Node, name: string, names: seq<string>)
    ensures Walk(t, at, [name] + names)
         == match Step(t, at, name) case None => None case Some(n) => Walk(t, n, names)
  {
  }

  lemma SlashWalk(t: Tree, at: Node, x: string)
    ensures Walk(t, at, Split("/" + x)) == Walk(t, at, Split(x))
  {
  }

  /** Resolving a name and a slash before x. */
  lemma NameWalk(t: Tree, at: Node, c: string, x: string)
    requires '/' !in c
    ensures Walk(t, at, Split(c + "/" + x))
         == match Step(t, at, c) case None => None case Some(n) => Walk(t, n, Split(x))
  {
    SplitPlain(c);
    SplitAtSlash(c, x);
    WalkHead(t, at, c, Split(x));
  }

  /** A component, the slashes w behind it and a rejoined rest e. */
  lemma RejoinName(t: Tree, at: Node, c: string, w: string, e: string)
    requires '/' !in c && (w == "" || w[0] == '/')
    requires var n := Step(t, at, c);
      n.Some? ==> Walk(t, n.value, Split(e)) == Walk(t, n.value, Split(SkipSlashes(w) + "/"))
    ensures Walk(t, at, Split(c + "/" + e)) == Walk(t, at, Split(c + w + "/"))
  {
    var x := (w + "/")[1..];
    assert w + "/" == "/" + x;
    assert c + w + "/" == c + "/" + x;
    NameWalk(t, at, c, e);
    NameWalk(t, at, c, x);
    var n := Step(t, at, c);
    if n.Some? {
      SkipWalk(t, n.value, w, "/");
      SlashWalk(t, n.value, x);
    }
  }

  /** Rejoining the components of any text, with one slash after each, resolves from any directory
      as the text itself with a slash after it. */
  lemma {:induction false} RejoinResolves(t: Tree, at: Node, s: string)
    ensures Walk(t, at, Split(Emit(Components(s)))) == Walk(t, at, Split(s + "/"))
    decreases |s|
  {
    if s == "" {
      assert s + "/" == "/" + "";
      SlashWalk(t, at, "");
    } else {
      var n, r := if s[0] == '/' then Some(at) else Step(t, at, Component(s)), Rest(s);
      if n.Some? { RejoinResolves(t, n.value, r); }
      EmitHead(s);
      RejoinFirst(t, at, s, Emit(Components(r)));
    }
  }

  /** The first component of s and the rest e rejoined; a leading slash stays where it is. */
  lemma RejoinFirst(t: Tree, at: Node, s: string, e: string)
    requires s != ""
    requires var n := if s[0] == '/' then Some(at) else Step(t, at, Component(s));
      n.Some? ==> Walk(t, n.value, Split(e)) == Walk(t, n.value, Split(Rest(s) + "/"))
    ensures Walk(t, at, Split(Component(s) + "/" + e)) == Walk(t, at, Split(s + "/"))
  {
    if s[0] == '/' {
      RejoinSlash(t, at, s, e);
      assert "/" + "/" + e == "/" + ("/" + e);
    } else {
      var c := Component(s);
      CutComponent(s);
      RejoinName(t, at, c, s[|c|..], e);
      assert c + s[|c|..] == s;
    }
  }

  lemma RejoinSlash(t: Tree, at: Node, s: string, e: string)
    requires s != "" && s[0] == '/'
    requires Walk(t, at, Split(e)) == Walk(t, at, Split(SkipSlashes(s) + "/"))
    ensures Walk(t, at, Split("/" + ("/" + e))) == Walk(t, at, Split(s + "/"))
  {
    SlashWalk(t, at, "/" + e);
    SlashWalk(t, at, e);
    SkipWalk(t, at, s, "/");
  }

  lemma EmitHead(s: string)
    requires s != ""
    ensures Emit(Components(s)) == Component(s) + "/" + Emit(Components(Rest(s)))
  {
  }

  /** Iterating `getcomponent` yields exactly the non-empty slash-separated names, in order, however
      many slashes stand between them. */
  lemma {:induction false} ComponentsAreNames(s: string)
    requires s == "" || s[0] != '/'
    ensures Components(s) == NonEmpty(Split(s))
    decreases |s|
  {
    if s != "" {
      var c, r := Component(s), Rest(s);
      var w := s[|c|..];
      CutComponent(s);
      SplitPlain(c);
      if w == "" {
        assert s == c;
        assert NonEmpty([c]) == [c] + NonEmpty([]);
      } else {
        SplitAtSlash(c, w[1..]);
        SkipNames(w[1..]);
        ComponentsAreNames(r);
        NonEmptyHead(c, Split(w[1..]));
      }
    }
  }

  lemma NonEmptyHead(c: string, names: seq<string>)
    requires c != ""
    ensures NonEmpty([c] + names) == [c] + NonEmpty(names)
  {
  }

  lemma {:induction false} SkipNames(s: string)
    ensures NonEmpty(Split(s)) == NonEmpty(Split(SkipSlashes(s)))
  {
    if s != "" && s[0] == '/' {
      assert Split(s)[1..] == Split(s[1..]);
      SkipNames(s[1..]);
    }
  }

  lemma {:induction false} ProperNonEmpty(names: seq<string>)
    requires ProperNames(names)
    ensures NonEmpty(names) == names
  {
    if names != [] { ProperNonEmpty(names[1..]); }
  }

  /** Text written name by name splits into those names. */
  lemma {:induction false} SplitEmit(names: seq<string>, z: string)
    requires forall i :: 0 <= i < |names| ==> '/' !in names[i]
    ensures Split(Emit(names) + z) == names + Split(z)
  {
    if names == [] {
      assert Emit(names) + z == z;
    } else {
      SplitEmit(names[1..], z);
      RegroupSlash(names[0], Emit(names[1..]), z);
      SplitAtSlash(names[0], Emit(names[1..]) + z);
      SplitPlain(names[0]);
      FirstAndRest(names, Split(z));
    }
  }

  lemma FirstAndRest(names: seq<string>, more: seq<string>)
    requires names != []
    ensures [names[0]] + (names[1..] + more) == names + more
  {
  }

  lemma RegroupSlash(a: string, b: string, c: string)
    ensures (a + "/" + b) + c == a + "/" + (b + c)
  {
  }
}
