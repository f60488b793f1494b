/** What `mkdirs` does, on every path. */
module MkDirsProof {
  import opened CText
  import opened Paths
  import opened PathSub
  import opened Disk
  import opened MkDirs

  // ----- the existing part of a path and what is missing

  function Base(at: Node, s: string): Node
  {
    if s != "" && s[0] == '/' then [] else at
  }

  /** How many pieces lead on from directory to directory, and to which. */
  datatype Led = Led(count: nat, node: Node)

  function Lead(t: Tree, at: Node, pieces: seq<string>): (r: Led)
    ensures r.count <= |pieces|
    decreases |pieces|
  {
    if pieces == [] then Led(0, at)
    else match Restrict(t, Step(t, at, pieces[0]))
      case None => Led(0, at)
      case Some(n) => var r := Lead(t, n, pieces[1..]); Led(r.count + 1, r.node)
  }

  /** The number of leading proper names: no empty piece (a doubled slash), no dots. */
  function Plain(pieces: seq<string>): (m: nat)
    ensures m <= |pieces| && ProperNames(pieces[..m])
    ensures m < |pieces| ==> !ProperName(pieces[m])
    decreases |pieces|
  {
    if pieces == [] || !ProperName(pieces[0]) then 0
    else
      var m := Plain(pieces[1..]);
      assert pieces[..m + 1] == [pieces[0]] + pieces[1..][..m];
      m + 1
  }

  lemma {:induction false} LeadWalk(t: Tree, at: Node, pieces: seq<string>)
    requires at in t.dirs
    ensures var r := Lead(t, at, pieces);
      && Walk(t, at, pieces[..r.count]) == Some(r.node) && r.node in t.dirs
      && (r.count < |pieces| ==> Restrict(t, Step(t, r.node, pieces[r.count])) == None)
      && (Restrict(t, Walk(t, at, pieces)).Some? <==> r.count == |pieces|)
    decreases |pieces|
  {
    var r := Lead(t, at, pieces);
    if pieces != [] {
      var s := Step(t, at, pieces[0]);
      if Restrict(t, s).Some? {
        LeadWalk(t, s.value, pieces[1..]);
        assert pieces[..r.count] == [pieces[0]] + pieces[1..][..r.count - 1];
      } else if s.Some? && pieces[1..] != [] {
        assert Step(t, s.value, pieces[1..][0]) == None;
      }
    }
  }

  /** What stops the walk is a name: an empty piece and dots lead on from a directory. */
  lemma StopsAtName(t: Tree, at: Node, piece: string)
    requires ValidTree(t) && at in t.dirs && Restrict(t, Step(t, at, piece)) == None
    requires '/' !in piece && NulFree(piece)
    ensures ProperName(piece) && at + [piece] !in t.dirs
  {
    assert Hangs(t, at);
  }

  lemma {:induction false} LeadPrefix(t: Tree, at: Node, xs: seq<string>, ys: seq<string>)
    requires Lead(t, at, xs).count < |xs|
    ensures Lead(t, at, xs + ys) == Lead(t, at, xs)
    decreases |xs|
  {
    assert (xs + ys)[0] == xs[0] && (xs + ys)[1..] == xs[1..] + ys;
    var n := Restrict(t, Step(t, at, xs[0]));
    if n.Some? { LeadPrefix(t, n.value, xs[1..], ys); }
  }

  lemma {:induction false} PlainPrefix(xs: seq<string>, ys: seq<string>)
    ensures Plain(xs + ys) == if Plain(xs) < |xs| then Plain(xs) else |xs| + Plain(ys)
    decreases |xs|
  {
    if xs == [] {
      assert xs + ys == ys;
    } else {
      assert (xs + ys)[0] == xs[0] && (xs + ys)[1..] == xs[1..] + ys;
      PlainPrefix(xs[1..], ys);
    }
  }

  // ----- the theorem

  /** The existing part of a path leads to directory n; of the pieces after it the first m are
      proper. */
  datatype Parts = Parts(pieces: seq<string>, count: nat, node: Node, m: nat)

  function PartsOf(t: Tree, at: Node, p: string): (r: Parts)
    ensures r.count + r.m <= |r.pieces|
  {
    var l := Lead(t, Base(at, p), Split(p));
    Parts(Split(p), l.count, l.node, Plain(Split(p)[l.count..]))
  }

  function MakeMissing(d: Disk, r: Parts): Result
    requires r.count + r.m <= |r.pieces|
  {
    MakeSteps(d, r.node, r.pieces[r.count..][..r.m])
  }

  /** The text left by a failure at the first improper piece: up to a doubled slash, or up to and
      including dots. */
  predicate CutAfter(r: Parts, text: string)
    requires r.count + r.m < |r.pieces|
  {
    var k := r.count + r.m;
    Split(text) == if r.pieces[k] == "" then r.pieces[..k] else r.pieces[..k + 1]
  }

  /** Result r for path p, when making the missing directories has outcome `made`. */
  predicate Fits(x: Parts, made: Result, p: string, r: Made)
    requires x.count + x.m <= |x.pieces|
  {
    && r.disk == made.disk
    && (r.ok <==> made.ok && x.count + x.m == |x.pieces|)
    && (r.ok ==> r.text == p)
    && (made.ok && x.count + x.m < |x.pieces| ==> CutAfter(x, r.text))
  }

  /** `mkdirs` makes the missing directories in turn, up to the first piece that is empty or dots. It
      succeeds if and only if there is no such piece and all could be made; then the path stands
      whole. If there is one, it fails there although all before it could be made. */
  ghost predicate Exact(d: Disk, at: Node, s: string)
  {
    var p, r := Target(s), MakeText(d, at, s);
    if p == "" || IsDir(d.tree, at, p) then r == Made(d, false, p)
    else var x := PartsOf(d.tree, at, p); Fits(x, MakeMissing(d, x), p, r)
  }

  lemma MakeTextExact(d: Disk, at: Node, s: string)
    requires ValidTree(d.tree) && at in d.tree.dirs && NulFree(s)
    ensures Exact(d, at, s)
  {
    var p := Target(s);
    TargetTwice(s);
    TargetNulFree(s);
    SameTarget(d, at, s);
    if p == "" {
    } else if IsDir(d.tree, at, p) {
      AlreadyThere(d, at, p);
    } else {
      StrippedExact(d, at, p);
    }
  }

  lemma SameTarget(d: Disk, at: Node, s: string)
    requires Target(Target(s)) == Target(s)
    ensures MakeText(d, at, s) == MakeText(d, at, Target(s))
    ensures Target(s) == "" ==> MakeText(d, at, s) == Made(d, false, "")
  {
  }

  lemma TargetTwice(s: string)
    ensures Target(Target(s)) == Target(s)
    ensures DropDoubled(Target(s)) == Target(s)
  {
  }

  /** The target names what the path names: the root stays the root, only the demand of a trailing
      slash that the object be a directory is gone. Nothing is left exactly of slashes alone. */
  lemma TargetNames(t: Tree, at: Node, s: string)
    requires s != ""
    ensures Target(s) == "" <==> forall i :: 0 <= i < |s| ==> s[i] == '/'
    ensures Target(s) != "" ==>
      && Base(at, Target(s)) == Base(at, s)
      && (var n := Resolve(t, at, Target(s));
          Resolve(t, at, s) == if s[|s| - 1] == '/' then Restrict(t, n) else n)
  {
    var u := DropDoubled(s);
    DropResolves(t, at, s);
    DropsSlashes(s);
    StripsSlashes(u);
    assert forall i :: |s| - |u| <= i < |s| ==> s[i] == u[i - (|s| - |u|)];
    if Strip(u) == "" {
      assert forall i :: 0 <= i < |s| ==> s[i] == '/';
    } else {
      var k := |Strip(u)| - 1;
      assert u[k] != '/' && s[|s| - |u| + k] == u[k];
      StripTarget(t, at, u);
    }
  }

  lemma {:induction false} DropResolves(t: Tree, at: Node, s: string)
    requires s != ""
    ensures var u := DropDoubled(s); u != "" && Base(at, u) == Base(at, s) && Resolve(t, at, u) == Resolve(t, at, s)
  {
    if |s| >= 2 && s[0] == '/' && s[1] == '/' {
      DropResolves(t, at, s[1..]);
      WalkEmptyPiece(t, [], Split(s[1..]));
    }
  }

  lemma {:induction false} StripTarget(t: Tree, at: Node, u: string)
    requires Strip(u) != ""
    ensures var n := Resolve(t, at, Strip(u)); Resolve(t, at, u) == if u[|u| - 1] == '/' then Restrict(t, n) else n
    ensures Base(at, Strip(u)) == Base(at, u)
  {
    if u[|u| - 1] == '/' {
      var p := u[..|u| - 1];
      assert u == p + "/";
      ResolveSlash(t, at, p);
      StripTarget(t, at, p);
    }
  }

  lemma {:induction false} TargetNulFree(s: string)
    requires NulFree(s)
    ensures NulFree(Target(s))
  {
    DropNulFree(s);
    var u := DropDoubled(s);
    assert Strip(u) == u[..|Strip(u)|];
    assert forall c :: c in u[..|Strip(u)|] ==> c in u;
  }

  lemma {:induction false} DropNulFree(s: string)
    requires NulFree(s)
    ensures NulFree(DropDoubled(s))
  {
    if |s| >= 2 && s[0] == '/' && s[1] == '/' {
      assert forall c :: c in s[1..] ==> c in s;
      DropNulFree(s[1..]);
    }
  }

  lemma AlreadyThere(d: Disk, at: Node, p: string)
    requires Target(p) == p && p != "" && IsDir(d.tree, at, p)
    ensures MakeText(d, at, p) == Made(d, false, p)
  {
    var c := LastIndex(p, '/');
    if c > 0 { PrefixIsDir(d.tree, at, p, c); }
  }

  lemma PrefixIsDir(t: Tree, at: Node, p: string, i: nat)
    requires 0 < i < |p| && p[i] == '/' && IsDir(t, at, p)
    ensures IsDir(t, at, p[..i])
  {
    CutAt(p, i);
    SplitAtSlash(p[..i], p[i + 1..]);
    WalkConcat(t, Base(at, p), Split(p[..i]), Split(p[i + 1..]));
    if Split(p[i + 1..]) != [] { assert Walk(t, Base(at, p), Split(p[..i])).Some?; }
  }

  /** By recursion on the parent, as the code goes. */
  lemma {:induction false} StrippedExact(d: Disk, at: Node, p: string)
    requires ValidTree(d.tree) && at in d.tree.dirs && NulFree(p)
    requires Target(p) == p && DropDoubled(p) == p && p != "" && !IsDir(d.tree, at, p)
    ensures Exact(d, at, p)
    decreases |p|
  {
    var c := LastIndex(p, '/');
    if c <= 0 || IsDir(d.tree, at, p[..c]) {
      LastOnly(d, at, p, c);
    } else {
      var q := Strip(p[..c]);
      ParentText(d, at, p, c, q);
      StrippedExact(d, at, q);
      Extend(d, at, p, c, q);
    }
  }

  // ----- cutting a path

  lemma LastPlain(p: string, c: nat)
    requires c < |p| && c == LastIndex(p, '/')
    ensures '/' !in p[c + 1..] && p == p[..c] + "/" + p[c + 1..]
  {
    TailPlain(p, c + 1);
    CutAt(p, c);
  }

  lemma LastOfPath(p: string, c: int) returns (init: seq<string>, last: string)
    requires p != "" && p[|p| - 1] != '/' && c == LastIndex(p, '/') && NulFree(p)
    ensures init == if c >= 0 then Split(p[..c]) else []
    ensures Split(p) == init + [last] && last == p[c + 1..] && last != "" && '/' !in last && NulFree(last)
  {
    init := if c >= 0 then Split(p[..c]) else [];
    last := p[c + 1..];
    assert forall x :: x in last ==> x in p;
    TailPlain(p, c + 1);
    SplitPlain(last);
    if c >= 0 {
      LastPlain(p, c);
      SplitAtSlash(p[..c], last);
    } else {
      assert p[0..] == p;
    }
  }

  /** Stripping drops empty pieces at the end. */
  lemma {:induction false} StripPieces(s: string)
    requires Strip(s) != ""
    ensures Split(s) == Split(Strip(s)) + Repeat("", |s| - |Strip(s)|)
  {
    if s[|s| - 1] == '/' {
      var p := s[..|s| - 1];
      assert s == p + "/" + "";
      SplitAtSlash(p, "");
      StripPieces(p);
      RepeatLast(|p| - |Strip(p)|);
      Associate(Split(Strip(p)), Repeat("", |p| - |Strip(p)|), [""]);
    }
  }

  lemma {:induction false} RepeatLast(n: nat)
    ensures Repeat("", n) + [""] == Repeat("", n + 1)
  {
    if n > 0 { RepeatLast(n - 1); }
  }

  lemma Associate(a: Node, b: Node, c: Node)
    ensures a + (b + c) == a + b + c
  {
  }

  lemma {:induction false} StripIsDir(t: Tree, at: Node, s: string)
    requires Strip(s) != ""
    ensures IsDir(t, at, s) <==> IsDir(t, at, Strip(s))
  {
    if s[|s| - 1] == '/' {
      var p := s[..|s| - 1];
      assert s == p + "/";
      ResolveSlash(t, at, p);
      StripIsDir(t, at, p);
    }
  }

  /** The recursive call works on the stripped parent. */
  lemma ParentText(d: Disk, at: Node, p: string, c: nat, q: string)
    requires Target(p) == p && DropDoubled(p) == p && NulFree(p)
    requires c < |p| && c == LastIndex(p, '/') && c > 0 && !IsDir(d.tree, at, p[..c]) && q == Strip(p[..c])
    ensures q != "" && Target(q) == q && DropDoubled(q) == q && Target(p[..c]) == q && NulFree(q) && |q| < |p|
    ensures !IsDir(d.tree, at, q) && Base(at, q) == Base(at, p)
    ensures MakeText(d, at, p[..c]) == MakeText(d, at, q)
  {
    ParentShape(p, c, q);
    SameTarget(d, at, p[..c]);
    StripIsDir(d.tree, at, p[..c]);
  }

  lemma ParentShape(p: string, c: nat, q: string)
    requires DropDoubled(p) == p && NulFree(p) && 0 < c < |p| && p[c] == '/' && q == Strip(p[..c])
    ensures q != "" && Target(q) == q && DropDoubled(q) == q && Target(p[..c]) == q && NulFree(q) && |q| < |p|
    ensures Base([], q) == Base([], p) && q[0] == p[0]
  {
    StripNonEmpty(p[..c]);
    assert q == p[..|q|];
    assert forall x :: x in p[..|q|] ==> x in p;
  }

  lemma {:induction false} StripNonEmpty(s: string)
    requires s != "" && DropDoubled(s) == s && s != "/"
    ensures Strip(s) != ""
  {
    if s[|s| - 1] == '/' { StripNonEmpty(s[..|s| - 1]); }
  }

  // ----- only the last directory is missing

  /** `mkdir` of a name whose parent resolves. */
  lemma NewName(d: Disk, at: Node, s: string, init: seq<string>, last: string, parent: Node)
    requires s != "" && Split(s) == init + [last] && ProperName(last)
    requires Walk(d.tree, Base(at, s), init) == Some(parent) && parent in d.tree.dirs
    ensures MkdirText(d, at, s) == MakeNode(d, parent + [last])
  {
    WalkConcat(d.tree, Base(at, s), init, [last]);
    WalkOne(d.tree, parent, last);
    assert (init + [last])[..|init + [last]| - 1] == init;
  }

  lemma {:induction false} LeadAll(t: Tree, at: Node, xs: seq<string>, ys: seq<string>)
    requires Lead(t, at, xs).count == |xs|
    ensures var r := Lead(t, Lead(t, at, xs).node, ys); Lead(t, at, xs + ys) == Led(|xs| + r.count, r.node)
    decreases |xs|
  {
    if xs == [] {
      assert xs + ys == ys;
    } else {
      assert (xs + ys)[0] == xs[0] && (xs + ys)[1..] == xs[1..] + ys;
      LeadAll(t, Step(t, at, xs[0]).value, xs[1..], ys);
    }
  }

  lemma LastOnly(d: Disk, at: Node, p: string, c: int)
    requires ValidTree(d.tree) && at in d.tree.dirs && NulFree(p)
    requires Target(p) == p && p != "" && !IsDir(d.tree, at, p)
    requires c == LastIndex(p, '/') && (c <= 0 || IsDir(d.tree, at, p[..c]))
    ensures Exact(d, at, p)
  {
    var t, b := d.tree, Base(at, p);
    var init, last := LastOfPath(p, c);
    ParentLeads(t, at, p, c, init);
    LeadWalk(t, b, init);
    var n := Lead(t, b, init).node;
    assert init[..|init|] == init;
    LeadAll(t, b, init, [last]);
    LeadWalk(t, b, Split(p));
    LastStep(d, at, p, init, last, n);
  }

  lemma ParentLeads(t: Tree, at: Node, p: string, c: int, init: seq<string>)
    requires ValidTree(t) && at in t.dirs && c < |p| && c == LastIndex(p, '/')
    requires init == (if c >= 0 then Split(p[..c]) else []) && (c <= 0 || IsDir(t, at, p[..c]))
    ensures Lead(t, Base(at, p), init).count == |init|
  {
    LeadWalk(t, Base(at, p), init);
    if c > 0 {
      assert Base(at, p[..c]) == Base(at, p);
    } else if c == 0 {
      assert p[..0] == "" && Walk(t, [], [""]) == Some([]);
    }
  }

  lemma LastStep(d: Disk, at: Node, p: string, init: seq<string>, last: string, n: Node)
    requires ValidTree(d.tree) && Target(p) == p && p != "" && !IsDir(d.tree, at, p)
    requires Split(p) == init + [last] && '/' !in last && NulFree(last)
    requires Walk(d.tree, Base(at, p), init) == Some(n) && n in d.tree.dirs
    requires Lead(d.tree, Base(at, p), Split(p)) == Led(|init|, n)
    requires Restrict(d.tree, Step(d.tree, n, last)) == None
    requires var c := LastIndex(p, '/'); c <= 0 || IsDir(d.tree, at, p[..c])
    ensures Exact(d, at, p)
  {
    StopsAtName(d.tree, n, last);
    NewName(d, at, p, init, last, n);
    var x := PartsOf(d.tree, at, p);
    assert x.pieces[x.count..] == [last];
    assert Plain([last]) == 1 && [last][..1] == [last];
    assert MakeSteps(d, n, [last]) == EnsureNode(d, n + [last]);
  }

  // ----- the parent is missing too

  lemma {:induction false} MissingShort(t: Tree, at: Node, names: seq<string>)
    ensures forall n :: n in Missing(t, at, names) ==> |n| <= |at| + |names|
    decreases |names|
  {
    if names != [] { MissingShort(t, at + [names[0]], names[1..]); }
  }

  /** After the missing names below n are made, the pieces lead to the last of them, and nothing is
      below that. */
  lemma AfterMaking(d: Disk, b: Node, xs: seq<string>, k: nat, n: Node, names: seq<string>, e: Disk)
    requires ValidTree(d.tree) && b in d.tree.dirs && Lead(d.tree, b, xs) == Led(k, n) && k < |xs|
    requires names == xs[k..] && ProperNames(names) && MakeSteps(d, n, names) == Result(e, true)
    ensures ValidTree(e.tree) && Walk(e.tree, b, xs) == Some(n + names) && n + names in e.tree.dirs
    ensures forall last :: n + names + [last] !in e.tree.dirs
  {
    LeadWalk(d.tree, b, xs);
    assert Hangs(d.tree, n);
    MakeStepsValid(d, n, names);
    MakeStepsExact(d, n, names);
    WalkGrows(d.tree, e.tree, b, xs[..k]);
    WalkDown(e.tree, n, names);
    assert xs == xs[..k] + names;
    WalkConcat(e.tree, b, xs[..k], names);
    forall last ensures n + names + [last] !in e.tree.dirs {
      MissingShort(d.tree, n, names);
      if n + names + [last] in d.tree.dirs { FirstThere(d.tree, n, names, last); }
    }
  }

  lemma FirstThere(t: Tree, n: Node, names: seq<string>, last: string)
    requires ValidTree(t) && names != [] && n + names + [last] in t.dirs && n in t.dirs
    ensures n + [names[0]] in t.dirs && Restrict(t, Step(t, n, names[0])).Some?
  {
    Associate(n, names, [last]);
    StepDown(t, n, names + [last]);
  }

  /** The recursion of the code, one level. */
  lemma Unfold(d: Disk, at: Node, p: string, c: nat, q: string)
    requires p == Target(p) && c == LastIndex(p, '/') && c > 0 && !IsDir(d.tree, at, p[..c])
    requires MakeText(d, at, p[..c]) == MakeText(d, at, q)
    ensures MakeText(d, at, p) == Resume(MakeText(d, at, q), at, p, c)
  {
  }

  function Resume(r: Made, at: Node, p: string, c: nat): Made
  {
    if !r.ok then r
    else
      var q := if |r.text| == c then p else r.text;
      var m := MkdirText(r.disk, at, q);
      Made(m.disk, m.ok, q)
  }

  /** Once the missing names of y are made, its pieces lead to the last of them and no further. */
  ghost predicate Standing(made: Result, b: Node, y: Parts)
    requires y.count <= |y.pieces|
  {
    var n, t := y.node + y.pieces[y.count..], made.disk.tree;
    made.ok ==> Walk(t, b, y.pieces) == Some(n) && n in t.dirs && forall last :: n + [last] !in t.dirs
  }

  lemma Stands(d: Disk, at: Node, q: string)
    requires ValidTree(d.tree) && at in d.tree.dirs
    requires var y := PartsOf(d.tree, at, q); y.count < |y.pieces| == y.count + y.m
    ensures var y := PartsOf(d.tree, at, q); Standing(MakeMissing(d, y), Base(at, q), y)
  {
    var y := PartsOf(d.tree, at, q);
    var names, made := y.pieces[y.count..], MakeMissing(d, y);
    assert names[..y.m] == names;
    if made.ok { AfterMaking(d, Base(at, q), y.pieces, y.count, y.node, names, made.disk); }
  }

  /** The pieces of p are those of q and more; q is what the recursive call was for. */
  lemma Extend(d: Disk, at: Node, p: string, c: nat, q: string)
    requires ValidTree(d.tree) && at in d.tree.dirs && NulFree(p)
    requires Target(p) == p && p != "" && !IsDir(d.tree, at, p) && c == LastIndex(p, '/') && c > 0
    requires !IsDir(d.tree, at, p[..c]) && q == Strip(p[..c]) && q != "" && Target(q) == q && NulFree(q)
    requires !IsDir(d.tree, at, q) && Base(at, q) == Base(at, p)
    requires MakeText(d, at, p[..c]) == MakeText(d, at, q) && Exact(d, at, q)
    ensures Exact(d, at, p)
  {
    var y := PartsOf(d.tree, at, q);
    var last := Pieces(p, c, q);
    LeadWalk(d.tree, Base(at, q), y.pieces);
    MoreParts(d.tree, at, p, q, Repeat("", c - |q|) + [last]);
    if y.count + y.m == |y.pieces| { Stands(d, at, q); }
    Continue(d, at, y, PartsOf(d.tree, at, p), last, p, q, c);
    Unfold(d, at, p, c, q);
  }

  lemma Pieces(p: string, c: nat, q: string) returns (last: string)
    requires NulFree(p) && p != "" && p[|p| - 1] != '/'
    requires c < |p| && c == LastIndex(p, '/') && q == Strip(p[..c]) && q != ""
    ensures last != "" && '/' !in last && NulFree(last)
    ensures Split(p) == Split(q) + (Repeat("", c - |q|) + [last])
  {
    var init, z := LastOfPath(p, c);
    last := z;
    StripPieces(p[..c]);
    Associate(Split(q), Repeat("", c - |q|), [last]);
  }

  /** Nothing changes in the existing part or the proper names before the pieces added. */
  function Longer(y: Parts, more: seq<string>): Parts
    requires y.count + y.m <= |y.pieces|
  {
    Parts(y.pieces + more, y.count, y.node, if y.count + y.m < |y.pieces| then y.m else y.m + Plain(more))
  }

  lemma MoreParts(t: Tree, at: Node, p: string, q: string, more: seq<string>)
    requires Split(p) == Split(q) + more && Base(at, p) == Base(at, q)
    requires Lead(t, Base(at, q), Split(q)).count < |Split(q)|
    ensures PartsOf(t, at, p) == Longer(PartsOf(t, at, q), more)
  {
    var y := PartsOf(t, at, q);
    LeadPrefix(t, Base(at, q), y.pieces, more);
    DropAppend(y.pieces, more, y.count);
    PlainPrefix(y.pieces[y.count..], more);
  }

  lemma DropAppend(xs: seq<string>, more: seq<string>, k: nat)
    requires k <= |xs|
    ensures (xs + more)[k..] == xs[k..] + more
  {
  }

  lemma Continue(d: Disk, at: Node, y: Parts, x: Parts, last: string, p: string, q: string, c: nat)
    requires last != "" && '/' !in last && NulFree(last) && p != "" && q != "" && |q| <= c
    requires y.count + y.m <= |y.pieces| && x == Longer(y, Repeat("", c - |q|) + [last])
    requires x.pieces == Split(p) && y.pieces == Split(q) && Base(at, q) == Base(at, p)
    requires y.count + y.m == |y.pieces| ==> Standing(MakeMissing(d, y), Base(at, q), y)
    requires Fits(y, MakeMissing(d, y), q, MakeText(d, at, q))
    ensures x.count + x.m <= |x.pieces| && Fits(x, MakeMissing(d, x), p, Resume(MakeText(d, at, q), at, p, c))
  {
    var more := Repeat("", c - |q|) + [last];
    if y.count + y.m < |y.pieces| {
      StoppedBefore(d, x, y, more, MakeMissing(d, y), p, q, MakeText(d, at, q));
    } else if |q| < c {
      assert more[0] == "";
      DoubledCase(d, at, x, y, more, p, q, c);
    } else {
      assert more == [last];
      SingleCase(d, at, x, y, last, p, q);
    }
  }

  lemma StoppedBefore(d: Disk, x: Parts, y: Parts, more: seq<string>, made: Result, p: string, q: string, r: Made)
    requires y.count + y.m < |y.pieces| && x == y.(pieces := y.pieces + more)
    requires made == MakeMissing(d, y) && Fits(y, made, q, r)
    ensures Fits(x, MakeMissing(d, x), p, r)
  {
    SameFront(y.pieces, more, y.count, y.m);
  }

  lemma SameFront(xs: seq<string>, more: seq<string>, k: nat, m: nat)
    requires k + m < |xs|
    ensures (xs + more)[k..][..m] == xs[k..][..m] && (xs + more)[k + m] == xs[k + m]
    ensures (xs + more)[..k + m] == xs[..k + m] && (xs + more)[..k + m + 1] == xs[..k + m + 1]
  {
  }

  /** The directory just made is made again. */
  lemma DoubledCase(d: Disk, at: Node, x: Parts, y: Parts, more: seq<string>, p: string, q: string, c: nat)
    requires more != [] && more[0] == "" && q != "" && Split(q) == y.pieces && |q| < c
    requires y.count + y.m == |y.pieces| && x == y.(pieces := y.pieces + more)
    requires Standing(MakeMissing(d, y), Base(at, q), y)
    requires Fits(y, MakeMissing(d, y), q, MakeText(d, at, q))
    ensures Fits(x, MakeMissing(d, x), p, Resume(MakeText(d, at, q), at, p, c))
  {
    assert x.pieces[x.count..][..x.m] == y.pieces[y.count..][..y.m];
    assert x.pieces[..x.count + x.m] == y.pieces && x.pieces[x.count + x.m] == more[0];
  }

  lemma NameCase(d: Disk, at: Node, x: Parts, y: Parts, last: string, p: string, q: string)
    requires p != "" && ProperName(last)
    requires y.count + y.m == |y.pieces| && x == y.(pieces := y.pieces + [last], m := y.m + 1)
    requires Split(p) == x.pieces && Base(at, q) == Base(at, p)
    requires Standing(MakeMissing(d, y), Base(at, q), y)
    requires Fits(y, MakeMissing(d, y), q, MakeText(d, at, q))
    ensures Fits(x, MakeMissing(d, x), p, Resume(MakeText(d, at, q), at, p, |q|))
  {
    var names, made := y.pieces[y.count..], MakeMissing(d, y);
    var n := y.node + names;
    AddPiece(y.pieces, y.count, y.m, last, x.pieces);
    MakeStepsAppend(d, y.node, names, last);
    if made.ok { NewName(made.disk, at, p, y.pieces, last, n); }
  }

  lemma AddPiece(xs: seq<string>, k: nat, m: nat, last: string, all: seq<string>)
    requires k + m == |xs| && all == xs + [last]
    ensures xs[k..][..m] == xs[k..] && all[k..][..m] == xs[k..] && all[k..][..m + 1] == xs[k..] + [last]
    ensures all[..k + m + 1] == all && all[k + m] == last
  {
  }

  lemma DotsCase(d: Disk, at: Node, x: Parts, y: Parts, last: string, p: string, q: string)
    requires p != "" && (last == "." || last == "..")
    requires y.count + y.m == |y.pieces| && x == y.(pieces := y.pieces + [last])
    requires Split(p) == x.pieces && Base(at, q) == Base(at, p)
    requires Standing(MakeMissing(d, y), Base(at, q), y)
    requires Fits(y, MakeMissing(d, y), q, MakeText(d, at, q))
    ensures Fits(x, MakeMissing(d, x), p, Resume(MakeText(d, at, q), at, p, |q|))
  {
    var names, made := y.pieces[y.count..], MakeMissing(d, y);
    AddPiece(y.pieces, y.count, y.m, last, x.pieces);
    assert MakeMissing(d, x) == made;
    if made.ok { DotsExist(made.disk, at, p, y.pieces, last, y.node + names); }
  }

  lemma SingleCase(d: Disk, at: Node, x: Parts, y: Parts, last: string, p: string, q: string)
    requires p != "" && last != "" && '/' !in last && NulFree(last)
    requires y.count + y.m == |y.pieces| && x == y.(pieces := y.pieces + [last], m := y.m + Plain([last]))
    requires Split(p) == x.pieces && Base(at, q) == Base(at, p)
    requires Standing(MakeMissing(d, y), Base(at, q), y)
    requires Fits(y, MakeMissing(d, y), q, MakeText(d, at, q))
    ensures Fits(x, MakeMissing(d, x), p, Resume(MakeText(d, at, q), at, p, |q|))
  {
    assert Plain([last]) == if ProperName(last) then 1 else 0;
    if ProperName(last) {
      NameCase(d, at, x, y, last, p, q);
    } else {
      DotsCase(d, at, x, y, last, p, q);
    }
  }

  lemma DotsExist(d: Disk, at: Node, p: string, init: seq<string>, last: string, parent: Node)
    requires p != "" && Split(p) == init + [last] && (last == "." || last == "..")
    requires Walk(d.tree, Base(at, p), init) == Some(parent) && parent in d.tree.dirs
    ensures MkdirText(d, at, p) == Result(d, false)
  {
    WalkConcat(d.tree, Base(at, p), init, [last]);
    WalkOne(d.tree, parent, last);
  }

  // ----- the text left when a directory is refused

  function NamesOf(r: Parts): seq<string>
    requires r.count + r.m <= |r.pieces|
  {
    r.pieces[r.count..][..r.m]
  }

  /** The text left is the path up to and including the first directory that could not be made. */
  ghost predicate CutAtRefused(d: Disk, x: Parts, text: string)
    requires x.count + x.m <= |x.pieces|
  {
    var j := Stopped(d, x.node, NamesOf(x));
    j < x.m ==> Split(text) == x.pieces[..x.count + j + 1]
  }

  lemma MakeTextRefused(d: Disk, at: Node, s: string)
    requires ValidTree(d.tree) && at in d.tree.dirs && NulFree(s) && Target(s) != "" && !IsDir(d.tree, at, Target(s))
    ensures CutAtRefused(d, PartsOf(d.tree, at, Target(s)), MakeText(d, at, s).text)
  {
    TargetTwice(s);
    TargetNulFree(s);
    SameTarget(d, at, s);
    RefusedText(d, at, Target(s));
  }

  lemma {:induction false} RefusedText(d: Disk, at: Node, p: string)
    requires ValidTree(d.tree) && at in d.tree.dirs && NulFree(p)
    requires Target(p) == p && DropDoubled(p) == p && p != "" && !IsDir(d.tree, at, p)
    ensures CutAtRefused(d, PartsOf(d.tree, at, p), MakeText(d, at, p).text)
    decreases |p|
  {
    var c := LastIndex(p, '/');
    if c <= 0 || IsDir(d.tree, at, p[..c]) {
      RefusedLast(d, at, p, c);
    } else {
      var q := Strip(p[..c]);
      ParentText(d, at, p, c, q);
      RefusedText(d, at, q);
      MakeTextExact(d, at, q);
      var last := Pieces(p, c, q);
      var y := PartsOf(d.tree, at, q);
      LeadWalk(d.tree, Base(at, q), y.pieces);
      MoreParts(d.tree, at, p, q, Repeat("", c - |q|) + [last]);
      Unfold(d, at, p, c, q);
      RefusedOn(d, at, y, PartsOf(d.tree, at, p), last, p, q, c);
    }
  }

  lemma RefusedLast(d: Disk, at: Node, p: string, c: int)
    requires ValidTree(d.tree) && at in d.tree.dirs && NulFree(p)
    requires Target(p) == p && p != "" && !IsDir(d.tree, at, p)
    requires c == LastIndex(p, '/') && (c <= 0 || IsDir(d.tree, at, p[..c]))
    ensures CutAtRefused(d, PartsOf(d.tree, at, p), MakeText(d, at, p).text)
  {
    var t, b, x := d.tree, Base(at, p), PartsOf(d.tree, at, p);
    var init, last := LastOfPath(p, c);
    ParentLeads(t, at, p, c, init);
    LeadWalk(t, b, init);
    assert init[..|init|] == init;
    LeadAll(t, b, init, [last]);
    LeadWalk(t, b, Split(p));
    WholeText(d, at, p, c);
    OnePieceLeft(x, init, last);
    CutWhole(d, x, p);
  }

  lemma CutWhole(d: Disk, x: Parts, p: string)
    requires x.m <= 1 && x.count + x.m <= |x.pieces| && (x.m == 1 ==> x.count + 1 == |x.pieces|)
    requires Split(p) == x.pieces
    ensures CutAtRefused(d, x, p)
  {
    assert x.pieces[..|x.pieces|] == x.pieces;
  }

  lemma WholeText(d: Disk, at: Node, p: string, c: int)
    requires Target(p) == p && c == LastIndex(p, '/') && (c <= 0 || IsDir(d.tree, at, p[..c]))
    ensures MakeText(d, at, p).text == p
  {
  }

  lemma OnePieceLeft(x: Parts, init: seq<string>, last: string)
    requires x.pieces == init + [last] && |init| <= x.count && x.count + x.m <= |x.pieces|
    ensures x.m <= 1 && (x.m == 1 ==> x.count + 1 == |x.pieces|)
  {
  }

  lemma RefusedOn(d: Disk, at: Node, y: Parts, x: Parts, last: string, p: string, q: string, c: nat)
    requires last != "" && '/' !in last && NulFree(last) && p != "" && q != "" && |q| <= c
    requires y.count + y.m <= |y.pieces| && x == Longer(y, Repeat("", c - |q|) + [last])
    requires x.count + x.m <= |x.pieces| && x.pieces == Split(p) && y.pieces == Split(q)
    requires Fits(y, MakeMissing(d, y), q, MakeText(d, at, q)) && CutAtRefused(d, y, MakeText(d, at, q).text)
    ensures CutAtRefused(d, x, Resume(MakeText(d, at, q), at, p, c).text)
  {
    var more, r := Repeat("", c - |q|) + [last], MakeText(d, at, q);
    var j, i := Stopped(d, y.node, NamesOf(y)), Stopped(d, x.node, NamesOf(x));
    StoppedIs(d, y.node, NamesOf(y));
    NamesOn(d, y, x, last, c - |q|);
    if j < y.m {
      assert !r.ok && i == j;
      Front(y.pieces, more, y.count + j + 1);
    } else if i < x.m {
      assert r.ok && r.text == q;
      assert x.pieces[..|x.pieces|] == x.pieces;
    }
  }

  /** The longer path stops where the shorter one does, or at its own last name. */
  lemma NamesOn(d: Disk, y: Parts, x: Parts, last: string, k: nat)
    requires last != "" && '/' !in last && NulFree(last)
    requires y.count + y.m <= |y.pieces| && x == Longer(y, Repeat("", k) + [last])
    ensures x.count + x.m <= |x.pieces|
    ensures var j, i := Stopped(d, y.node, NamesOf(y)), Stopped(d, x.node, NamesOf(x));
      && (j < y.m ==> i == j)
      && (i < x.m && j == y.m ==> x.count + i + 1 == |x.pieces| && y.count + y.m == |y.pieces| && k == 0)
  {
    var more := Repeat("", k) + [last];
    SameBefore(y.pieces, more, y.count, y.m);
    if y.count + y.m == |y.pieces| && k == 0 {
      NoEmpties(last);
      LastName(d, x, y, last);
    } else {
      assert y.count + y.m == |y.pieces| ==> more[0] == "" && Plain(more) == 0;
      assert x.m == y.m;
    }
  }

  lemma NoEmpties(last: string)
    ensures Repeat("", 0) + [last] == [last]
  {
  }

  lemma Front(xs: seq<string>, more: seq<string>, i: nat)
    requires i <= |xs|
    ensures (xs + more)[..i] == xs[..i]
  {
  }

  lemma SameBefore(xs: seq<string>, more: seq<string>, k: nat, m: nat)
    requires k + m <= |xs|
    ensures (xs + more)[k..][..m] == xs[k..][..m]
  {
  }

  lemma LastName(d: Disk, x: Parts, y: Parts, last: string)
    requires y.count + y.m == |y.pieces| && x == y.(pieces := y.pieces + [last], m := y.m + Plain([last]))
    ensures x.count + x.m <= |x.pieces|
    ensures var j, i := Stopped(d, y.node, NamesOf(y)), Stopped(d, x.node, NamesOf(x));
      (j < y.m ==> i == j) && (i < x.m && j == y.m ==> i + 1 == x.m && x.count + x.m == |x.pieces|)
  {
    assert Plain([last]) == if ProperName(last) then 1 else 0;
    AddPiece(y.pieces, y.count, y.m, last, x.pieces);
    if ProperName(last) {
      assert NamesOf(x) == NamesOf(y) + [last];
      StoppedAppend(d, y.node, NamesOf(y), last);
    } else {
      assert NamesOf(x) == NamesOf(y);
    }
  }

  // ----- in particular

  /** After a success the path as given names a directory, and no directory is lost. */
  lemma SuccessMakes(d: Disk, at: Node, s: string)
    requires ValidTree(d.tree) && at in d.tree.dirs && NulFree(s) && MakeText(d, at, s).ok
    ensures var t := MakeText(d, at, s).disk.tree;
      && Restrict(t, Resolve(t, at, s)).Some? && d.tree.dirs <= t.dirs && t.files == d.tree.files
  {
    MakeTextExact(d, at, s);
    var p := Target(s);
    var x := PartsOf(d.tree, at, p);
    LeadWalk(d.tree, Base(at, p), x.pieces);
    Stands(d, at, p);
    var made := MakeMissing(d, x);
    MakeStepsExact(d, x.node, x.pieces[x.count..][..x.m]);
    TargetNames(made.disk.tree, at, s);
  }

  /** Where the path has neither dots nor empty pieces, this is making every directory on it. */
  lemma {:induction false} LeadSteps(d: Disk, at: Node, pieces: seq<string>)
    requires ProperNames(pieces)
    ensures var r := Lead(d.tree, at, pieces);
      MakeSteps(d, at, pieces) == MakeSteps(d, r.node, pieces[r.count..])
    decreases |pieces|
  {
    if pieces != [] {
      var s := Restrict(d.tree, Step(d.tree, at, pieces[0]));
      if s.Some? {
        var r := Lead(d.tree, at, pieces);
        LeadSteps(d, s.value, pieces[1..]);
        assert pieces[1..][r.count - 1..] == pieces[r.count..];
      }
    }
  }

  lemma {:induction false} LeadNode(t: Tree, at: Node, pieces: seq<string>)
    requires ProperNames(pieces)
    ensures var r := Lead(t, at, pieces); r.node == at + pieces[..r.count]
    decreases |pieces|
  {
    if pieces != [] {
      var s := Restrict(t, Step(t, at, pieces[0]));
      var k := Lead(t, at, pieces).count;
      if s.Some? {
        LeadNode(t, s.value, pieces[1..]);
        assert pieces[..k] == [pieces[0]] + pieces[1..][..k - 1];
      }
    }
  }

  lemma {:induction false} AllPlain(pieces: seq<string>)
    requires ProperNames(pieces)
    ensures Plain(pieces) == |pieces|
  {
  }

  /** A doubled slash after a missing directory x: only x is made, and the path is left cut. */
  lemma DoubledFails(d: Disk, at: Node, x: string, y: string)
    requires ValidTree(d.tree) && at in d.tree.dirs && at + [x] !in d.tree.dirs
    requires ProperName(x) && ProperName(y)
    ensures var r, m := MakeText(d, at, x + "//" + y), MakeNode(d, at + [x]);
      r.disk == m.disk && !r.ok && (m.ok ==> r.text == x)
  {
    var p := x + "//" + y;
    DoubledParts(x, y);
    MakeTextExact(d, at, p);
    var pieces := [x] + ["", y];
    assert Split(p)[0] == x && Lead(d.tree, at, pieces) == Led(0, at);
    assert Plain(["", y]) == 0 && Plain([x]) == 1;
    PlainPrefix([x], ["", y]);
    LeadWalk(d.tree, at, pieces);
    assert pieces[0..] == pieces && pieces[..1] == [x];
    assert MakeSteps(d, at, [x]) == EnsureNode(d, at + [x]);
    var r := MakeText(d, at, p);
    if MakeNode(d, at + [x]).ok { SplitOne(r.text, x); }
  }

  lemma DoubledParts(x: string, y: string)
    requires ProperName(x) && ProperName(y)
    ensures var p := x + "//" + y;
      && Split(p) == [x] + ["", y] && Target(p) == p && p != "" && Base([], p) == [] && NulFree(p)
      && p[0] != '/'
  {
    var p := x + "//" + y;
    assert p == x + "/" + ("" + "/" + y);
    SplitAtSlash(x, "" + "/" + y);
    SplitAtSlash("", y);
    SplitPlain(x);
    SplitPlain(y);
    assert p[0] == x[0] && x[0] in x && p[|p| - 1] == y[|y| - 1] && y[|y| - 1] in y;
  }

  lemma DoubledExample(d: Disk, at: Node)
    requires ValidTree(d.tree) && at in d.tree.dirs
    requires !Exists(d.tree, at + ["a"]) && at + ["a"] !in d.denied
    ensures var r := MakeText(d, at, "a//b");
      r.disk.made == d.made + [at + ["a"]] && !r.ok && r.text == "a"
  {
    assert "a" + "//" + "b" == "a//b";
    assert Parent(at + ["a"]) == at;
    DoubledFails(d, at, "a", "b");
  }

  lemma {:induction false} SplitOne(p: string, x: string)
    requires Split(p) == [x]
    ensures p == x
  {
    if p != "" && p[0] != '/' {
      var r := Split(p[1..]);
      assert Split(p)[0] == [p[0]] + r[0] && |Split(p)| == |r|;
      SplitOne(p[1..], r[0]);
      assert p == [p[0]] + p[1..];
    }
  }
}
