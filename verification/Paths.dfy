/** Path names as strings, and their resolution in a directory tree without symbolic links
    (IEEE Std 1003.1-2017, Base Definitions, section 4.13). */
module Paths {

  /** A node is the list of names on the way down from the root. */
  type Node = seq<string>

  datatype Option<T> = None | Some(value: T)

  datatype Tree = Tree(dirs: set<Node>, files: set<Node>)

  predicate ProperName(name: string)
  {
    name != "" && name != "." && name != ".." && '/' !in name && '\0' !in name
  }

  predicate ProperNames(names: seq<string>)
  {
    forall i :: 0 <= i < |names| ==> ProperName(names[i])
  }

  function Parent(at: Node): Node
  {
    if at == [] then [] else at[..|at| - 1]
  }

  predicate Hangs(t: Tree, n: Node)
  {
    ProperNames(n) && Parent(n) in t.dirs
  }

  /** The root is a directory, every node but the root lies in a directory, no node is both. */
  ghost predicate ValidTree(t: Tree)
  {
    && [] in t.dirs
    && t.dirs !! t.files
    && (forall n {:trigger Hangs(t, n)} :: n in t.dirs || n in t.files ==> Hangs(t, n))
  }

  /** The slash-separated pieces of a path, empty ones included. */
  function Split(p: string): (r: seq<string>)
    ensures |r| >= 1
  {
    if p == "" then [""]
    else if p[0] == '/' then [""] + Split(p[1..])
    else var r := Split(p[1..]); [[p[0]] + r[0]] + r[1..]
  }

  /** One step of resolution. An empty piece, like ".", stays put, but only in a directory: that is
      how doubled and trailing slashes resolve. The root is its own parent. */
  function Step(t: Tree, at: Node, name: string): Option<Node>
  {
    if at !in t.dirs then None
    else if name == "" || name == "." then Some(at)
    else if name == ".." then Some(Parent(at))
    else if at + [name] in t.dirs || at + [name] in t.files then Some(at + [name])
    else None
  }

  function Walk(t: Tree, at: Node, names: seq<string>): Option<Node>
    decreases |names|
  {
    if names == [] then Some(at)
    else match Step(t, at, names[0])
      case None => None
      case Some(n) => Walk(t, n, names[1..])
  }

  /** The object a path names from directory `at`. The empty path names nothing. */
  function Resolve(t: Tree, at: Node, p: string): Option<Node>
  {
    if p == "" then None
    else Walk(t, if p[0] == '/' then [] else at, Split(p))
  }

  function Restrict(t: Tree, n: Option<Node>): Option<Node>
  {
    if n.Some? && n.value in t.dirs then n else None
  }

  /** `/` or `/a/b/c`: what getcwd() reports. */
  predicate Canonical(p: string)
  {
    p == "/" || (p != "" && p[0] == '/' && ProperNames(Split(p[1..])))
  }

  function NodeOf(p: string): Node
    requires Canonical(p)
  {
    if p == "/" then [] else Split(p[1..])
  }

  // ----- splitting

  lemma {:induction false} SplitAtSlash(p: string, q: string)
    ensures Split(p + "/" + q) == Split(p) + Split(q)
  {
    if p == "" {
      assert p + "/" + q == "/" + q;
      assert ("/" + q)[1..] == q;
    } else {
      assert (p + "/" + q)[1..] == p[1..] + "/" + q;
      SplitAtSlash(p[1..], q);
    }
  }

  lemma {:induction false} SplitPlain(p: string)
    requires '/' !in p
    ensures Split(p) == [p]
  {
    if p != "" {
      assert p[0] in p;
      assert p == [p[0]] + p[1..];
      SplitPlain(p[1..]);
    }
  }

  /** A piece contains no slash, so a proper path has only proper pieces if none is empty or dots. */
  lemma {:induction false} PiecesPlain(p: string)
    ensures forall i :: 0 <= i < |Split(p)| ==> '/' !in Split(p)[i]
  {
    if p != "" {
      PiecesPlain(p[1..]);
    }
  }

  lemma TailPlain(s: string, k: nat)
    requires k <= |s| && forall j :: k <= j < |s| ==> s[j] != '/'
    ensures '/' !in s[k..]
  {
  }

  lemma CutAt(s: string, i: nat)
    requires i < |s| && s[i] == '/'
    ensures s == s[..i] + "/" + s[i + 1..]
  {
  }

  // ----- walking

  lemma {:induction false} WalkConcat(t: Tree, at: Node, xs: seq<string>, ys: seq<string>)
    ensures Walk(t, at, xs + ys)
         == match Walk(t, at, xs) case None => None case Some(n) => Walk(t, n, ys)
    decreases |xs|
  {
    if xs == [] {
      assert xs + ys == ys;
    } else {
      assert (xs + ys)[0] == xs[0] && (xs + ys)[1..] == xs[1..] + ys;
      var s := Step(t, at, xs[0]);
      if s.Some? { WalkConcat(t, s.value, xs[1..], ys); }
    }
  }

  lemma WalkOne(t: Tree, at: Node, name: string)
    ensures Walk(t, at, [name]) == Step(t, at, name)
  {
  }

  /** New directories do not disturb a walk that already succeeds. */
  lemma {:induction false} WalkGrows(t: Tree, t': Tree, at: Node, names: seq<string>)
    requires t.dirs <= t'.dirs && t.files == t'.files && Walk(t, at, names).Some?
    ensures Walk(t', at, names) == Walk(t, at, names)
    decreases |names|
  {
    if names != [] {
      assert Step(t', at, names[0]) == Step(t, at, names[0]);
      WalkGrows(t, t', Step(t, at, names[0]).value, names[1..]);
    }
  }

  /** An empty piece before others changes nothing. */
  lemma WalkEmptyPiece(t: Tree, at: Node, xs: seq<string>)
    requires xs != []
    ensures Walk(t, at, [""] + xs) == Walk(t, at, xs)
  {
  }

  /** A trailing empty piece demands a directory. */
  lemma WalkTrailing(t: Tree, at: Node, xs: seq<string>)
    ensures Walk(t, at, xs + [""]) == Restrict(t, Walk(t, at, xs))
  {
    WalkConcat(t, at, xs, [""]);
    var n := Walk(t, at, xs);
    if n.Some? { WalkOne(t, n.value, ""); }
  }

  /** A slash after a path demands a directory. */
  lemma ResolveSlash(t: Tree, at: Node, p: string)
    requires p != ""
    ensures Resolve(t, at, p + "/") == Restrict(t, Resolve(t, at, p))
  {
    assert p + "/" == p + "/" + "";
    SplitAtSlash(p, "");
    WalkTrailing(t, if p[0] == '/' then [] else at, Split(p));
  }

  /** Ancestors of a directory are directories. */
  lemma {:induction false} Ancestor(t: Tree, at: Node, k: nat)
    requires ValidTree(t) && at in t.dirs && k <= |at|
    ensures at[..k] in t.dirs
    decreases |at|
  {
    if k < |at| {
      assert Hangs(t, at);
      assert at[..|at| - 1][..k] == at[..k];
      Ancestor(t, Parent(at), k);
    } else {
      assert at[..k] == at;
    }
  }

  lemma StepDown(t: Tree, at: Node, names: seq<string>)
    requires ValidTree(t) && at + names in t.dirs && names != []
    ensures at + [names[0]] in t.dirs && ProperName(names[0])
  {
    assert Hangs(t, at + names);
    Ancestor(t, at + names, |at| + 1);
    assert (at + names)[..|at| + 1] == at + [names[0]];
    assert (at + names)[|at|] == names[0];
  }

  /** Going down by the names of an existing directory arrives there. */
  lemma {:induction false} WalkDown(t: Tree, at: Node, names: seq<string>)
    requires ValidTree(t) && at in t.dirs && at + names in t.dirs
    ensures Walk(t, at, names) == Some(at + names)
    decreases |names|
  {
    if names == [] {
      assert at + names == at;
    } else {
      var next := at + [names[0]];
      assert next + names[1..] == at + names;
      StepDown(t, at, names);
      assert Step(t, at, names[0]) == Some(next);
      WalkDown(t, next, names[1..]);
    }
  }

  /** Names lead to the file or directory they spell, and to nothing if there is none. */
  lemma {:induction false} WalkExact(t: Tree, at: Node, names: seq<string>)
    requires ValidTree(t) && at in t.dirs && ProperNames(names)
    ensures Walk(t, at, names)
         == if at + names in t.dirs || at + names in t.files then Some(at + names) else None
    decreases |names|
  {
    if names == [] {
      assert at + names == at;
    } else {
      var n := at + [names[0]];
      assert n + names[1..] == at + names;
      if n in t.dirs {
        WalkExact(t, n, names[1..]);
      } else {
        NothingBelow(t, n, names[1..]);
      }
    }
  }

  lemma NothingBelow(t: Tree, n: Node, rest: seq<string>)
    requires ValidTree(t) && n !in t.dirs
    ensures rest == [] ==> n + rest == n
    ensures rest != [] ==> n + rest !in t.dirs && n + rest !in t.files && Walk(t, n, rest) == None
  {
    if rest == [] {
      assert n + rest == n;
    } else {
      var m := n + rest;
      if m in t.dirs || m in t.files {
        assert Hangs(t, m) && Parent(m)[..|n|] == n;
        Ancestor(t, Parent(m), |n|);
      }
    }
  }

  function Repeat<T>(x: T, n: nat): (r: seq<T>)
    ensures |r| == n
  {
    if n == 0 then [] else [x] + Repeat(x, n - 1)
  }

  /** At the root ".." stays. */
  lemma {:induction false} WalkUp(t: Tree, at: Node, k: nat)
    requires ValidTree(t) && at in t.dirs
    ensures var n := if k <= |at| then |at| - k else 0;
      Walk(t, at, Repeat("..", k)) == Some(at[..n]) && at[..n] in t.dirs
    decreases k
  {
    if k == 0 {
      assert at[..|at|] == at;
    } else {
      assert Hangs(t, at);
      assert Repeat("..", k)[1..] == Repeat("..", k - 1);
      if k <= |at| { assert Parent(at)[..|Parent(at)| - (k - 1)] == at[..|at| - k]; }
      WalkUp(t, Parent(at), k - 1);
    }
  }
}
