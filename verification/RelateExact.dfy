/** Exactly when the path written by `relatepaths` leads to its target, for paths that may have
    doubled and trailing slashes. */
module RelateExact {
  import opened Paths
  import opened PathSub
  import opened Relate
  import opened RelateProof

  /** Names and empty pieces only. */
  predicate DotFree(p: string)
  {
    forall i :: 0 <= i < |Split(p)| ==> Split(p)[i] == "" || ProperName(Split(p)[i])
  }

  function Names(p: string): seq<string> { NonEmpty(Split(p)) }

  predicate Slashes(p: string)
  {
    forall i :: 0 <= i < |p| ==> p[i] == '/'
  }

  predicate StartsInSlash(p: string)
  {
    p != "" && p[0] == '/'
  }

  /** With d the common part, from = d + x and to = d + y: right when d is the first slash alone;
      otherwise x and y must not both be empty, and unless d names the root, the first piece behind d
      that is written or climbed from must not begin with a slash. */
  predicate Related(from: string, to: string)
    requires from != "" && to != "" && from[0] == '/' && to[0] == '/'
  {
    var k := CommonDir(from, to);
    var x, y := from[k..], to[k..];
    || k == 1
    || (&& (x != "" || y != "")
        && (Slashes(from[..k]) || !StartsInSlash(if x == "" then y else x)))
  }

  // ----- resolving paths without dots

  lemma {:induction false} NonEmptyConcat(xs: seq<string>, ys: seq<string>)
    ensures NonEmpty(xs + ys) == NonEmpty(xs) + NonEmpty(ys)
  {
    if xs == [] {
      assert xs + ys == ys;
    } else {
      assert (xs + ys)[1..] == xs[1..] + ys;
      NonEmptyConcat(xs[1..], ys);
    }
  }

  lemma {:induction false} NonEmptyProper(xs: seq<string>)
    requires forall i :: 0 <= i < |xs| ==> xs[i] == "" || ProperName(xs[i])
    ensures ProperNames(NonEmpty(xs))
  {
    if xs != [] { NonEmptyProper(xs[1..]); }
  }

  /** Empty pieces do not matter to a directory. */
  lemma {:induction false} WalkNonEmpty(t: Tree, at: Node, xs: seq<string>)
    ensures Restrict(t, Walk(t, at, xs)) == Restrict(t, Walk(t, at, NonEmpty(xs)))
    decreases |xs|
  {
    if xs != [] {
      if xs[0] == "" {
        assert NonEmpty(xs) == NonEmpty(xs[1..]);
        if at in t.dirs {
          WalkNonEmpty(t, at, xs[1..]);
        } else {
          assert !Walk(t, at, xs).Some?;
        }
      } else {
        var s := Step(t, at, xs[0]);
        assert NonEmpty(xs)[1..] == NonEmpty(xs[1..]);
        if s.Some? { WalkNonEmpty(t, s.value, xs[1..]); }
      }
    }
  }

  /** A path without dots and a slash after it. */
  lemma WalkSlash(t: Tree, at: Node, p: string)
    requires ValidTree(t) && at in t.dirs && DotFree(p)
    ensures Walk(t, at, Split(p + "/")) == if at + Names(p) in t.dirs then Some(at + Names(p)) else None
  {
    assert p + "/" == p + "/" + "";
    SplitAtSlash(p, "");
    WalkTrailing(t, at, Split(p));
    WalkNonEmpty(t, at, Split(p));
    NonEmptyProper(Split(p));
    WalkExact(t, at, Names(p));
  }

  // ----- the common part and the rest

  lemma {:induction false} SlashesNameRoot(p: string)
    ensures Names(p) == [] <==> Slashes(p)
  {
    if p != "" {
      SlashesNameRoot(p[1..]);
      assert p[0] == '/' && Slashes(p[1..]) ==> Slashes(p);
      if p[0] == '/' {
        assert ([""] + Split(p[1..]))[1..] == Split(p[1..]);
      } else {
        assert Split(p)[0] != "" && Names(p) != [];
      }
    }
  }

  /** Cutting behind a slash splits the names. */
  lemma CutNames(p: string, k: nat)
    requires 0 < k <= |p| && p[k - 1] == '/' && DotFree(p)
    ensures Names(p) == Names(p[..k]) + Names(p[k..]) && DotFree(p[k..])
  {
    var z, x := p[..k - 1], p[k..];
    CutAt(p, k - 1);
    SplitAtSlash(z, x);
    NonEmptyConcat(Split(z), Split(x));
    SecondHalf(Split(z), Split(x), Split(p));
    assert p[..k] == z + "/" + "";
    SlashNames(z);
  }

  lemma SecondHalf(a: seq<string>, b: seq<string>, all: seq<string>)
    requires all == a + b && forall i :: 0 <= i < |all| ==> all[i] == "" || ProperName(all[i])
    ensures forall i :: 0 <= i < |b| ==> b[i] == "" || ProperName(b[i])
  {
    assert forall i :: 0 <= i < |b| ==> b[i] == all[|a| + i];
  }

  lemma SlashNames(z: string)
    ensures Names(z + "/" + "") == Names(z)
  {
    SplitAtSlash(z, "");
    NonEmptyConcat(Split(z), [""]);
    assert NonEmpty([""]) == [];
  }

  /** A leading slash counts as one more component. */
  lemma CountComponents(x: string)
    ensures |Components(x)| == |Names(x)| + (if StartsInSlash(x) then 1 else 0)
  {
    if StartsInSlash(x) {
      SkipNames(x);
      ComponentsAreNames(SkipSlashes(x));
    } else {
      ComponentsAreNames(x);
    }
  }

  // ----- where the text leads

  /** A climb by n from u + v and the components of y: u if n is the number of names in v, and one
      further up for each more. */
  lemma ClimbAndOn(t: Tree, f: Node, n: nat, y: string)
    requires ValidTree(t) && f in t.dirs && n > 0 && DotFree(y)
    ensures var w := f[..if n <= |f| then |f| - n else 0];
      Resolve(t, f, Ups(n) + Emit(Components(y))) == if w + Names(y) in t.dirs then Some(w + Names(y)) else None
  {
    var w := f[..if n <= |f| then |f| - n else 0];
    var z := Emit(Components(y));
    UpsFirst(n, z);
    SplitUps(n, z);
    WalkUp(t, f, n);
    WalkConcat(t, f, Repeat("..", n), Split(z));
    RejoinResolves(t, w, y);
    WalkSlash(t, w, y);
  }

  lemma Climbs(t: Tree, u: Node, x: string, y: string)
    requires ValidTree(t) && DotFree(y) && u + Names(x) in t.dirs && u + Names(y) in t.dirs && x != ""
    ensures Components(x) != []
    ensures Resolve(t, u + Names(x), Ups(|Components(x)|) + Emit(Components(y))) == Some(u + Names(y))
         <==> u == [] || !StartsInSlash(x)
  {
    var f, n := u + Names(x), |Components(x)|;
    CountComponents(x);
    SlashesNameRoot(x);
    ClimbAndOn(t, f, n, y);
    var w := f[..if n <= |f| then |f| - n else 0];
    if StartsInSlash(x) {
      assert w == Parent(u);
      if u != [] { assert |w + Names(y)| < |u + Names(y)|; }
    } else {
      assert w == u;
    }
  }

  /** Nothing to climb: the text is the components of y alone. */
  lemma Stays(t: Tree, u: Node, y: string)
    requires ValidTree(t) && DotFree(y) && u in t.dirs && u + Names(y) in t.dirs
    ensures Resolve(t, u, Emit(Components(y))) == Some(u + Names(y))
         <==> y != "" && (u == [] || !StartsInSlash(y))
  {
    var z := Emit(Components(y));
    if y != "" {
      EmitHead(y);
      assert z[0] == y[0];
      var start := if y[0] == '/' then [] else u;
      RejoinResolves(t, start, y);
      WalkSlash(t, start, y);
      if y[0] == '/' && u != [] { assert |[] + Names(y)| < |u + Names(y)|; }
    }
  }

  lemma NoClimb(u: Node, y: string)
    ensures u + Names("") == u && Ups(|Components("")|) + Emit(Components(y)) == Emit(Components(y))
  {
    assert Names("") == [] && Ups(0) == "";
  }

  /** For absolute paths of two directories, without dots but with any number of slashes: the text
      leads from the one to the other if and only if they are related in the sense above. */
  lemma RelateExactly(t: Tree, from: string, to: string)
    requires ValidTree(t) && from != "" && to != "" && from[0] == '/' && to[0] == '/'
    requires DotFree(from) && DotFree(to) && Names(from) in t.dirs && Names(to) in t.dirs
    ensures Resolve(t, Names(from), RelateText(from, to)) == Some(Names(to)) <==> Related(from, to)
  {
    var k := CommonDir(from, to);
    var x, y := from[k..], to[k..];
    if k == 1 {
      WalkSlash(t, [], to);
      assert [] + Names(to) == Names(to);
    } else {
      var u := Names(from[..k]);
      CutNames(from, k);
      CutNames(to, k);
      SlashesNameRoot(from[..k]);
      if x == "" {
        NoClimb(u, y);
        Stays(t, u, y);
      } else {
        Climbs(t, u, x, y);
      }
    }
  }
}
