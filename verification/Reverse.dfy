/** `reversepath`: walk along a relative path, writing the way back from right to left. */
module Reverse {
  import opened CText
  import opened Paths
  import opened PathSub
  import opened Relate

  /** A process in a directory tree. `rootEntry` is the name under which a directory scan finds the
      root in itself: its entry "." or "..", whichever comes first. */
  class Process {
    const tree: Tree
    const rootEntry: string
    var cwd: Node

    constructor (tree: Tree, rootEntry: string)
      requires ValidTree(tree) && (rootEntry == "." || rootEntry == "..")
      ensures Valid() && cwd == [] && this.tree == tree && this.rootEntry == rootEntry
    {
      this.tree := tree;
      this.rootEntry := rootEntry;
      cwd := [];
    }

    ghost predicate Valid()
      reads this
    {
      ValidTree(tree) && cwd in tree.dirs && (rootEntry == "." || rootEntry == "..")
    }

    /** `chdir`: succeeds when the name resolves to a directory. */
    method Chdir(dir: string) returns (ok: bool)
      requires Valid()
      modifies this
      ensures Valid() && ok == Restrict(tree, old(Resolve(tree, cwd, dir))).Some?
      ensures cwd == if ok then old(Resolve(tree, cwd, dir)).value else old(cwd)
    {
      var n := Resolve(tree, cwd, dir);
      ok := n.Some? && n.value in tree.dirs;
      if ok { cwd := n.value; }
    }

    /** `ino2name` of the current directory: its name in its parent. */
    function EntryName(): (name: string)
      requires Valid()
      reads this
      ensures NulFree(name)
    {
      assert Hangs(tree, cwd);
      NameIn(cwd, rootEntry)
    }
  }

  function NameIn(at: Node, rootEntry: string): string
  {
    if at == [] then rootEntry else at[|at| - 1]
  }

  /** Whether every step could be taken, where the walk stopped, and the text written by then. */
  datatype Walked = Walked(ok: bool, at: Node, text: string)

  function StepBack(t: Tree, rootEntry: string, at: Node, name: string, text: string): (r: Walked)
    ensures |r.text| >= |text|
  {
    if name == "." then Walked(true, at, text)
    else if name == ".." then Walked(true, Parent(at), NameIn(at, rootEntry) + "/" + text)
    else if at + [name] in t.dirs then Walked(true, at + [name], "../" + text)
    else Walked(false, at, "../" + text)
  }

  function Reversed(t: Tree, rootEntry: string, at: Node, names: seq<string>, text: string): (r: Walked)
    ensures |r.text| >= |text|
    decreases |names|
  {
    if names == [] then Walked(true, at, text)
    else
      var r := StepBack(t, rootEntry, at, names[0], text);
      if r.ok then Reversed(t, rootEntry, r.at, names[1..], r.text) else r
  }

  // ----- the routine

  /** The text so far stands at cp, up to a NUL in the buffer's last part. */
  predicate Holds(b: seq<char>, cp: nat, text: string)
  {
    NulFree(text) && cp + |text| < |b| && b[cp..cp + |text|] == text && b[cp + |text|] == '\0'
  }

  method ReversePath(p: Process, inpath: string, name: string, len: nat, outpath: array<char>) returns (ok: bool)
    requires p.Valid() && NulFree(inpath) && NulFree(name) && ComponentsFit(inpath)
    requires inpath == "" || inpath[0] != '/'
    requires |name| <= len && outpath.Length == PATH_MAX
    requires |Reversed(p.tree, p.rootEntry, p.cwd, Components(inpath), name).text| - |name| + len + 1 <= PATH_MAX
    modifies p, outpath
    ensures p.Valid()
    ensures var r := old(Reversed(p.tree, p.rootEntry, p.cwd, Components(inpath), name));
      && ok == r.ok && p.cwd == r.at
      && (ok ==> '\0' in outpath[..] && Text(outpath[..]) == r.text)
  {
    ghost var r := Reversed(p.tree, p.rootEntry, p.cwd, Components(inpath), name);
    var cp: nat := PATH_MAX - (len + 1);
    ghost var b := outpath[..];
    Strcpy(outpath, cp, name);
    Placed(outpath[..], b[..cp], name, b[cp + |name| + 1..]);
    ghost var text, room := name, cp + |name|;
    assert room >= |r.text|;
    var buf := new char[NAME_MAX];
    var cp2 := 0;
    assert inpath[0..] == inpath;
    ok := true;
    var found := true;
    while found && ok
      invariant p.Valid() && cp2 <= |inpath| && ComponentsFit(inpath[cp2..])
      invariant cp + |text| == room && Holds(outpath[..], cp, text)
      invariant r == if ok then Reversed(p.tree, p.rootEntry, p.cwd, Components(inpath[cp2..]), text)
                     else Walked(false, p.cwd, text)
      invariant cp2 < |inpath| ==> inpath[cp2] != '/'
      invariant !found ==> cp2 == |inpath|
      decreases |inpath| - cp2, found
    {
      ghost var s := inpath[cp2..];
      if s != "" { FitStep(s); }
      var next: nat;
      found, next := GetComponent(inpath, cp2, buf);
      if found {
        ReversedHead(p.tree, p.rootEntry, p.cwd, s, text);
        RestStarts(inpath, cp2, next);
        ok, cp, text := TakeStep(p, Text(buf[..]), outpath, cp, text);
        cp2 := next;
      }
    }
    if ok {
      assert inpath[cp2..] == "";
      CopyDown(outpath, cp, text);
    }
  }

  lemma ReversedHead(t: Tree, rootEntry: string, at: Node, s: string, text: string)
    requires s != ""
    ensures Reversed(t, rootEntry, at, Components(s), text)
         == var r := StepBack(t, rootEntry, at, Component(s), text);
            if r.ok then Reversed(t, rootEntry, r.at, Components(Rest(s)), r.text) else r
  {
  }

  lemma Placed(b: seq<char>, before: seq<char>, text: string, after: seq<char>)
    requires NulFree(text) && b == before + text + ['\0'] + after
    ensures Holds(b, |before|, text)
  {
  }

  lemma RestStarts(s: string, i: nat, j: nat)
    requires i < |s| && j <= |s| && s[j..] == Rest(s[i..])
    ensures i < j && (j < |s| ==> s[j] != '/')
  {
  }

  /** One turn of the loop. */
  method TakeStep(p: Process, c: string, outpath: array<char>, cp: nat, ghost text: string)
    returns (ok: bool, cp': nat, ghost text': string)
    requires p.Valid() && c != "" && '/' !in c && NulFree(c) && Holds(outpath[..], cp, text)
    requires cp + |text| >= |StepBack(p.tree, p.rootEntry, p.cwd, c, text).text|
    modifies p, outpath
    ensures p.Valid()
    ensures Walked(ok, p.cwd, text') == old(StepBack(p.tree, p.rootEntry, p.cwd, c, text))
    ensures cp' + |text'| == cp + |text| && Holds(outpath[..], cp', text')
  {
    ok, cp', text' := true, cp, text;
    if c == "." {
    } else if c == ".." {
      cp', text' := Climb(p, outpath, cp, text);
    } else {
      ok, cp', text' := Descend(p, c, outpath, cp, text);
    }
  }

  method Climb(p: Process, outpath: array<char>, cp: nat, ghost text: string)
    returns (cp': nat, ghost text': string)
    requires p.Valid() && Holds(outpath[..], cp, text) && cp >= |NameIn(p.cwd, p.rootEntry)| + 1
    modifies p, outpath
    ensures p.Valid() && p.cwd == Parent(old(p.cwd))
    ensures text' == old(NameIn(p.cwd, p.rootEntry)) + "/" + text
    ensures cp' + |text'| == cp + |text| && Holds(outpath[..], cp', text')
  {
    var entry := p.EntryName();
    cp' := cp - (|entry| + 1);
    Prepend(outpath, cp', entry + "/", text);
    text' := entry + "/" + text;
    assert Hangs(p.tree, p.cwd);
    StepName(p.tree, p.cwd, "..");
    var _ := p.Chdir("..");
  }

  method Descend(p: Process, c: string, outpath: array<char>, cp: nat, ghost text: string)
    returns (ok: bool, cp': nat, ghost text': string)
    requires p.Valid() && ProperName(c) && Holds(outpath[..], cp, text) && cp >= 3
    modifies p, outpath
    ensures p.Valid()
    ensures ok == (old(p.cwd) + [c] in p.tree.dirs)
    ensures p.cwd == if ok then old(p.cwd) + [c] else old(p.cwd)
    ensures text' == "../" + text
    ensures cp' + |text'| == cp + |text| && Holds(outpath[..], cp', text')
  {
    cp' := cp - 3;
    Prepend(outpath, cp', "../", text);
    text' := "../" + text;
    StepName(p.tree, p.cwd, c);
    ok := p.Chdir(c);
  }

  /** A single name resolves by one step. */
  lemma StepName(t: Tree, at: Node, c: string)
    requires c != "" && '/' !in c
    ensures Resolve(t, at, c) == Step(t, at, c)
  {
    SplitPlain(c);
    WalkOne(t, at, c);
  }

  /** Write a piece just before the text. */
  method Prepend(outpath: array<char>, at: nat, piece: string, ghost text: string)
    requires NulFree(piece) && Holds(outpath[..], at + |piece|, text)
    modifies outpath
    ensures Holds(outpath[..], at, piece + text)
  {
    ghost var b := outpath[..];
    var i := 0;
    while i < |piece|
      invariant i <= |piece|
      invariant outpath[at..at + i] == piece[..i]
      invariant outpath[at + |piece|..] == b[at + |piece|..]
    {
      outpath[at + i] := piece[i];
      i := i + 1;
    }
  }

  /** `strcpy(outpath, cp)`: the source overlaps the target, but lies to its right. */
  method CopyDown(outpath: array<char>, cp: nat, ghost text: string)
    requires Holds(outpath[..], cp, text)
    modifies outpath
    ensures '\0' in outpath[..] && Text(outpath[..]) == text
  {
    ghost var b := outpath[..];
    var i := 0;
    while outpath[cp + i] != '\0'
      invariant i <= |text|
      invariant outpath[..i] == text[..i]
      invariant outpath[cp + i..] == b[cp + i..]
      decreases |text| - i
    {
      outpath[i] := outpath[cp + i];
      i := i + 1;
    }
    outpath[i] := '\0';
    TextUpTo(outpath[..], i);
  }
}
