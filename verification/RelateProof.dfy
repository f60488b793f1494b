/** Where the path written by `relatepaths` leads. */
module RelateProof {
  import opened Paths
  import opened PathSub
  import opened Relate

  lemma {:induction false} SplitUps(n: nat, z: string)
    ensures Split(Ups(n) + z) == Repeat("..", n) + Split(z)
  {
    if n == 0 {
      assert Ups(0) + z == z;
    } else {
      var x := Ups(n - 1) + z;
      Regroup("../", Ups(n - 1), z);
      SplitUp(x);
      SplitUps(n - 1, z);
    }
  }

  lemma SplitUp(x: string)
    ensures Split("../" + x) == [".."] + Split(x)
  {
    assert "../" + x == ".." + "/" + x;
    SplitAtSlash("..", x);
    SplitPlain("..");
  }

  /** The components of the rest of a canonical path are its names. */
  lemma CanonicalRest(q: string, x: string)
    requires ProperNames(Split(q + "/" + x))
    ensures Split(q + "/" + x) == Split(q) + Split(x)
    ensures Components(x) == Split(x)
  {
    SplitAtSlash(q, x);
    var v := Split(x);
    assert v == (Split(q) + v)[|Split(q)|..];
    assert ProperNames(v);
    assert v[0] != "";
    ComponentsAreNames(x);
    ProperNonEmpty(v);
  }

  /** Up from u + v to u, then on by z. */
  lemma UpAndOn(t: Tree, u: Node, v: Node, z: string)
    requires ValidTree(t) && u + v in t.dirs
    ensures Walk(t, u + v, Split(Ups(|v|) + z)) == Walk(t, u, Split(z))
  {
    SplitUps(|v|, z);
    WalkUp(t, u + v, |v|);
    assert (u + v)[..|u|] == u;
    WalkConcat(t, u + v, Repeat("..", |v|), Split(z));
  }

  /** Down from the root by the names of an existing directory, then on by z. */
  lemma DownAndOn(t: Tree, u: Node, q: string, z: string)
    requires ValidTree(t) && u in t.dirs && u == Split(q)
    ensures Resolve(t, [], "/" + q + "/" + z) == Walk(t, u, Split(z))
  {
    var p := "/" + q + "/" + z;
    assert p[1..] == q + "/" + z;
    assert p[0] == '/';
    SplitAtSlash(q, z);
    WalkEmptyPiece(t, [], u + Split(z));
    assert [] + u == u;
    WalkDown(t, [], u);
    WalkConcat(t, [], u, Split(z));
  }

  /** Resolved from the directory `from`, the text leads where `to`, taken as a directory, leads;
      `to` may be any absolute path, with doubled slashes and dots. */
  lemma RelateResolves(t: Tree, from: string, to: string)
    requires ValidTree(t) && Canonical(from) && NodeOf(from) in t.dirs
    requires to != "" && to[0] == '/'
    ensures var text := RelateText(from, to);
      && |text| >= 2 && text[|text| - 1] == '/'
      && Resolve(t, NodeOf(from), text) == Resolve(t, [], to + "/")
  {
    var k := CommonDir(from, to);
    if k > 1 {
      var q, x, y := from[1..k - 1], from[k..], to[k..];
      SharedPrefix(from, to, k);
      assert from[1..] == q + "/" + x;
      assert to + "/" == "/" + q + "/" + (y + "/");
      BelowRoot(t, from, q, x, y);
    }
  }

  lemma BelowRoot(t: Tree, from: string, q: string, x: string, y: string)
    requires ValidTree(t) && Canonical(from) && NodeOf(from) in t.dirs
    requires |from| > 1 && from[1..] == q + "/" + x
    ensures var text := Ups(|Components(x)|) + Emit(Components(y));
      && |text| >= 2 && text[|text| - 1] == '/'
      && Resolve(t, NodeOf(from), text) == Resolve(t, [], "/" + q + "/" + (y + "/"))
  {
    AcrossCommon(t, q, x, y);
    RelativeShape(x, y);
  }

  lemma RelativeShape(x: string, y: string)
    requires Components(x) != []
    ensures var text := Ups(|Components(x)|) + Emit(Components(y));
      |text| >= 3 && text[0] == '.' && text[|text| - 1] == '/'
  {
    UpsFirst(|Components(x)|, Emit(Components(y)));
    EndsInSlash(|Components(x)|, Components(y));
  }

  lemma AcrossCommon(t: Tree, q: string, x: string, y: string)
    requires ValidTree(t)
    requires ProperNames(Split(q + "/" + x)) && Split(q + "/" + x) in t.dirs
    ensures Components(x) != []
    ensures Walk(t, Split(q + "/" + x), Split(Ups(|Components(x)|) + Emit(Components(y))))
         == Resolve(t, [], "/" + q + "/" + (y + "/"))
  {
    CanonicalRest(q, x);
    var u, v := Split(q), Split(x);
    Ancestor(t, u + v, |u|);
    assert (u + v)[..|u|] == u;
    UpAndOn(t, u, v, Emit(Components(y)));
    RejoinResolves(t, u, y);
    DownAndOn(t, u, q, y + "/");
  }

  lemma SharedPrefix(from: string, to: string, k: nat)
    requires 2 <= k <= |from| && k <= |to| && from[..k] == to[..k]
    requires to[0] == '/' && to[k - 1] == '/'
    ensures from == "/" + from[1..k - 1] + "/" + from[k..]
    ensures to == "/" + from[1..k - 1] + "/" + to[k..]
  {
  }

  lemma UpsFirst(n: nat, z: string)
    requires n > 0
    ensures |Ups(n) + z| >= 3 && (Ups(n) + z)[0] == '.'
  {
  }

  lemma {:induction false} EndsInSlash(n: nat, names: seq<string>)
    requires n > 0
    ensures var s := Ups(n) + Emit(names); |s| > 0 && s[|s| - 1] == '/'
  {
    EmitEnds(names);
    UpsEnds(n);
  }

  lemma {:induction false} EmitEnds(names: seq<string>)
    ensures names != [] ==> Emit(names) != "" && Emit(names)[|Emit(names)| - 1] == '/'
  {
    if names != [] { EmitEnds(names[1..]); }
  }

  lemma {:induction false} UpsEnds(n: nat)
    requires n > 0
    ensures Ups(n) != "" && Ups(n)[|Ups(n)| - 1] == '/'
  {
    if n > 1 { UpsEnds(n - 1); }
  }

  /** The shape of the text: absolute only when nothing but the first slash is common; otherwise one
      "../" for every component left of `from`, and then the components left of `to`. */
  lemma RelateShape(from: string, to: string)
    requires from != "" && to != "" && from[0] == '/' && to[0] == '/'
    ensures var k, text := CommonDir(from, to), RelateText(from, to);
      var n := |Components(from[k..])|;
      && (k == 1 ==> text == to + "/")
      && (k > 1 ==> && |text| >= 3 * n && text[3 * n..] == Emit(Components(to[k..]))
                    && forall i :: 0 <= i < n ==> StepUp(text, i))
  {
    var k := CommonDir(from, to);
    UpsShape(|Components(from[k..])|, Emit(Components(to[k..])));
  }

  predicate StepUp(text: string, i: nat)
  {
    3 * i + 2 < |text| && text[3 * i] == '.' && text[3 * i + 1] == '.' && text[3 * i + 2] == '/'
  }

  lemma {:induction false} UpsShape(n: nat, z: string)
    ensures var text := Ups(n) + z;
      |text| == 3 * n + |z| && text[3 * n..] == z && forall i :: 0 <= i < n ==> StepUp(text, i)
  {
    if n > 0 {
      UpsShape(n - 1, z);
      var rest := Ups(n - 1) + z;
      Regroup("../", Ups(n - 1), z);
      var text := Ups(n) + z;
      assert text == "../" + rest;
      assert forall i :: 3 <= i < |text| ==> text[i] == rest[i - 3];
      forall i | 0 <= i < n ensures StepUp(text, i) {
        if i > 0 { assert StepUp(rest, i - 1); }
      }
    }
  }

  /** Relating to the root writes two slashes. */
  lemma RelateToRoot(from: string)
    requires from != "" && from[0] == '/'
    ensures RelateText(from, "/") == "//"
  {
  }

  /** Between canonical directories the result is simply the target. */
  lemma RelateCanonical(t: Tree, from: string, to: string)
    requires ValidTree(t) && Canonical(from) && Canonical(to)
    requires NodeOf(from) in t.dirs && NodeOf(to) in t.dirs
    ensures Resolve(t, NodeOf(from), RelateText(from, to)) == Some(NodeOf(to))
  {
    RelateResolves(t, from, to);
    ResolveCanonical(t, to);
    ResolveSlash(t, [], to);
  }

  lemma ResolveCanonical(t: Tree, p: string)
    requires ValidTree(t) && Canonical(p) && NodeOf(p) in t.dirs
    ensures Resolve(t, [], p) == Some(NodeOf(p))
  {
    if p == "/" {
      WalkEmptyPiece(t, [], [""]);
      WalkOne(t, [], "");
      assert Split("/") == [""] + [""];
    } else {
      var u := NodeOf(p);
      WalkEmptyPiece(t, [], u);
      assert [] + u == u;
      WalkDown(t, [], u);
    }
  }
}
