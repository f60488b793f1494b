/** Where the path written by `reversepath` leads. */
module ReverseProof {
  import opened Paths
  import opened PathSub
  import opened Relate
  import opened RelateProof
  import opened Reverse

  /** One turn keeps the meaning: from the new directory the longer text leads where the old text
      led from the old one. It fails exactly when the name is no directory. */
  lemma StepBackResolves(t: Tree, rootEntry: string, at: Node, c: string, text: string)
    requires ValidTree(t) && at in t.dirs && (rootEntry == "." || rootEntry == "..")
    requires c != "" && '/' !in c
    ensures var r := StepBack(t, rootEntry, at, c, text);
      && r.ok == Restrict(t, Step(t, at, c)).Some?
      && (r.ok ==> r.at in t.dirs && Step(t, at, c) == Some(r.at)
                   && Walk(t, r.at, Split(r.text)) == Walk(t, at, Split(text)))
  {
    assert Hangs(t, at);
    if c == "." {
    } else if c == ".." {
      ClimbResolves(t, rootEntry, at, text);
    } else if at + [c] in t.dirs {
      SplitUp(text);
      WalkHead(t, at + [c], "..", Split(text));
      assert Parent(at + [c]) == at;
    }
  }

  lemma ClimbResolves(t: Tree, rootEntry: string, at: Node, text: string)
    requires ValidTree(t) && at in t.dirs && (rootEntry == "." || rootEntry == "..")
    ensures Walk(t, Parent(at), Split(NameIn(at, rootEntry) + "/" + text)) == Walk(t, at, Split(text))
  {
    var e := NameIn(at, rootEntry);
    assert Hangs(t, at);
    assert '/' !in e by { assert at != [] ==> ProperName(at[|at| - 1]); }
    NameWalk(t, Parent(at), e, text);
    if at != [] { assert Parent(at) + [e] == at; }
  }

  /** The whole walk: it succeeds exactly when the names lead to a directory, and then the text
      resolves from that directory as the original text did from the start. */
  lemma {:induction false} ReversedResolves(t: Tree, rootEntry: string, at: Node, names: seq<string>, text: string)
    requires ValidTree(t) && at in t.dirs && (rootEntry == "." || rootEntry == "..")
    requires forall i :: 0 <= i < |names| ==> names[i] != "" && '/' !in names[i]
    ensures var r := Reversed(t, rootEntry, at, names, text);
      && r.ok == Restrict(t, Walk(t, at, names)).Some?
      && (r.ok ==> Walk(t, at, names) == Some(r.at) && r.at in t.dirs
                   && Walk(t, r.at, Split(r.text)) == Walk(t, at, Split(text)))
    decreases |names|
  {
    if names != [] {
      StepBackResolves(t, rootEntry, at, names[0], text);
      var r := StepBack(t, rootEntry, at, names[0], text);
      if r.ok {
        ReversedResolves(t, rootEntry, r.at, names[1..], r.text);
      } else if Step(t, at, names[0]).Some? {
        FileEnds(t, at, names);
      }
    }
  }

  /** The shape of the text: down by names writes as many steps up, up writes the name left. */
  lemma {:induction false} ReversedDown(t: Tree, rootEntry: string, at: Node, names: seq<string>, text: string)
    requires ProperNames(names) && Reversed(t, rootEntry, at, names, text).ok
    ensures var r := Reversed(t, rootEntry, at, names, text); r.at == at + names && r.text == Ups(|names|) + text
    decreases |names|
  {
    if names == [] {
      assert at + names == at && Ups(0) + text == text;
    } else {
      assert ProperName(names[0]);
      var n := at + [names[0]];
      ReversedDown(t, rootEntry, n, names[1..], "../" + text);
      assert n + names[1..] == at + names;
      UpsLast(|names| - 1, text);
    }
  }

  lemma {:induction false} UpsLast(n: nat, text: string)
    ensures Ups(n) + ("../" + text) == Ups(n + 1) + text
  {
    if n > 0 {
      UpsLast(n - 1, text);
      assert Ups(n) + ("../" + text) == "../" + (Ups(n - 1) + ("../" + text));
      assert Ups(n + 1) + text == "../" + (Ups(n) + text);
    } else {
      assert Ups(0) + ("../" + text) == "../" + text && Ups(1) == "../";
    }
  }

  lemma ReversedUp(t: Tree, rootEntry: string, at: Node, text: string)
    ensures Reversed(t, rootEntry, at, [".."], text)
         == if at == [] then Walked(true, [], rootEntry + "/" + text)
            else Walked(true, at[..|at| - 1], at[|at| - 1] + "/" + text)
    ensures Reversed(t, rootEntry, at, ["."], text) == Walked(true, at, text)
  {
  }

  /** Past a file there is nothing. */
  lemma FileEnds(t: Tree, at: Node, names: seq<string>)
    requires names != [] && Step(t, at, names[0]).Some? && Step(t, at, names[0]).value !in t.dirs
    ensures !Restrict(t, Walk(t, at, names)).Some?
  {
  }

  lemma {:induction false} ComponentsPlain(s: string)
    requires s == "" || s[0] != '/'
    ensures forall i :: 0 <= i < |Components(s)| ==> Components(s)[i] != "" && '/' !in Components(s)[i]
    decreases |s|
  {
    if s != "" { ComponentsPlain(Rest(s)); }
  }

  /** `reversepath` along any relative path: it succeeds exactly when the path leads to a directory;
      the process is then there, and the text names from there what `name` named at the start. At
      the root, ".." stays put and the entry written for it is "." or "..", which is harmless. */
  lemma ReversePathResolves(t: Tree, rootEntry: string, at: Node, inpath: string, name: string)
    requires ValidTree(t) && at in t.dirs && (rootEntry == "." || rootEntry == "..")
    requires inpath != "" && inpath[0] != '/'
    requires name != "" && name[0] != '/'
    ensures var r := Reversed(t, rootEntry, at, Components(inpath), name);
      && r.ok == Restrict(t, Resolve(t, at, inpath)).Some?
      && (r.ok ==> Resolve(t, at, inpath) == Some(r.at)
                   && Resolve(t, r.at, r.text) == Resolve(t, at, name))
  {
    var names := Components(inpath);
    ComponentsPlain(inpath);
    ReversedResolves(t, rootEntry, at, names, name);
    SplitEmit(names, "");
    assert Emit(names) + "" == Emit(names);
    WalkTrailing(t, at, names);
    RejoinResolves(t, at, inpath);
    ResolveSlash(t, at, inpath);
    ReversedRelative(t, rootEntry, at, names, name);
  }

  lemma {:induction false} ReversedRelative(t: Tree, rootEntry: string, at: Node, names: seq<string>, text: string)
    requires ValidTree(t) && at in t.dirs && (rootEntry == "." || rootEntry == "..")
    requires text != "" && text[0] != '/'
    ensures var r := Reversed(t, rootEntry, at, names, text); r.text != "" && r.text[0] != '/'
    decreases |names|
  {
    if names != [] {
      var r := StepBack(t, rootEntry, at, names[0], text);
      assert Hangs(t, at);
      if names[0] == ".." && at != [] { assert ProperName(at[|at| - 1]) && at[|at| - 1][0] in at[|at| - 1]; }
      if r.ok {
        assert r.at in t.dirs;
        ReversedRelative(t, rootEntry, r.at, names[1..], r.text);
      }
    }
  }
}
