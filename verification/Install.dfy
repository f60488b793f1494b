/** `nsinstall -R`: the text of a relative symbolic link, and what it names. */
module Install {
  import opened CText
  import opened Paths
  import opened PathSub
  import opened Relate
  import opened RelateProof
  import opened Disk
  import opened MkDirs
  import opened MkDirsProof

  /** The target directory is made if there is none; then the path as given names one. */
  method EnsureDirectory(fs: FileSystem, todir: array<char>) returns (ok: bool)
    requires Ended(todir[..], 0)
    modifies fs, todir
    ensures var s, t, t' := TextAt(old(todir[..]), 0), old(fs.disk).tree, fs.disk.tree;
      ok && ValidTree(t) && fs.cwd in t.dirs ==>
        Restrict(t', Resolve(t', fs.cwd, s)).Some? && t.dirs <= t'.dirs && t.files == t'.files
  {
    ok := true;
    if !IsDir(fs.disk.tree, fs.cwd, TextAt(todir[..], 0)) {
      ghost var d, s := fs.disk, TextAt(todir[..], 0);
      var start: nat;
      ok, start := MakeDirectories(fs, todir, 0);
      if ok && ValidTree(d.tree) && fs.cwd in d.tree.dirs { SuccessMakes(d, fs.cwd, s); }
    }
  }

  /** Build the text of the link from the absolute todir to a relative name; the name loses its
      trailing slashes in place. `base` is where its last component begins. In a tree t where todir
      and cwd are directories, the link put into todir names what the stripped name names from cwd. */
  method RelativeLink(todir: string, cwd: string, name: array<char>, ghost t: Tree)
    returns (linkname: array<char>, base: nat)
    requires todir != "" && todir[0] == '/' && cwd != "" && cwd[0] == '/'
    requires NulFree(todir) && NulFree(cwd) && '\0' in name[0..]
    requires ComponentsFit(todir[CommonDir(todir, cwd)..]) && ComponentsFit(cwd[CommonDir(todir, cwd)..])
    requires |RelateText(todir, cwd)| + |Text(name[0..])| < PATH_MAX
    modifies name
    ensures '\0' in name[0..] && Text(name[0..]) == Strip(old(Text(name[0..])))
    ensures base == LastIndex(Text(name[0..]), '/') + 1
    ensures fresh(linkname) && '\0' in linkname[..]
    ensures Text(linkname[..]) == RelateText(todir, cwd) + Text(name[0..])
    ensures Directories(t, todir, cwd) && Relative(old(Text(name[0..]))) ==>
      Resolve(t, NodeOf(todir), Text(linkname[..])) == Resolve(t, Resolve(t, [], cwd).value, Text(name[0..]))
  {
    ghost var given := Text(name[0..]);
    base := XBasename(name, 0);
    linkname := new char[PATH_MAX];
    var lplen := RelatePaths(todir, cwd, linkname);
    lplen := Append(linkname, lplen, Text(name[0..]));
    RelateNulFree(todir, cwd);
    assert linkname[..][..lplen] == linkname[..lplen];
    TextUpTo(linkname[..], lplen);
    if Directories(t, todir, cwd) && Relative(given) {
      LinkNamesSource(t, todir, cwd, Resolve(t, [], cwd).value, given);
    }
  }

  /** `todir` is as getcwd() reports it; both are directories. */
  ghost predicate Directories(t: Tree, todir: string, cwd: string)
  {
    && ValidTree(t) && Canonical(todir) && NodeOf(todir) in t.dirs
    && Resolve(t, [], cwd).Some? && Resolve(t, [], cwd).value in t.dirs
  }

  predicate Relative(name: string) { name != "" && name[0] != '/' }

  // ----- no stray terminators

  lemma {:induction false} EmitNulFree(s: string)
    requires NulFree(s)
    ensures NulFree(Emit(Components(s)))
    decreases |s|
  {
    if s != "" {
      assert s[0..] == s;
      ComponentNulFree(s, 0);
      EmitHead(s);
      assert NulFree(Rest(s)) by {
        var i := |s| - |Rest(s)|;
        RestIsSuffix(s);
        assert forall c :: c in s[i..] ==> c in s;
      }
      EmitNulFree(Rest(s));
    }
  }

  lemma RestIsSuffix(s: string)
    requires s != ""
    ensures Rest(s) == s[|s| - |Rest(s)|..]
  {
  }

  lemma {:induction false} UpsNulFree(n: nat)
    ensures NulFree(Ups(n))
  {
    if n > 0 { UpsNulFree(n - 1); }
  }

  lemma RelateNulFree(from: string, to: string)
    requires from != "" && to != "" && from[0] == '/' && to[0] == '/'
    requires NulFree(from) && NulFree(to)
    ensures NulFree(RelateText(from, to))
  {
    var k := CommonDir(from, to);
    assert forall c :: c in to[k..] ==> c in to;
    EmitNulFree(to[k..]);
    UpsNulFree(|Components(from[k..])|);
  }

  // ----- what the link names

  /** A text that ends in a slash and leads to a directory can be continued by a relative name. */
  lemma ContinueFrom(t: Tree, at: Node, dir: string, c: Node, name: string)
    requires dir != "" && dir[|dir| - 1] == '/' && name != "" && name[0] != '/'
    requires Resolve(t, at, dir) == Some(c)
    ensures Resolve(t, at, dir + name) == Resolve(t, c, name)
  {
    var z := dir[..|dir| - 1];
    var start := if dir[0] == '/' then [] else at;
    Behind(dir, name);
    SplitAtSlash(z, "");
    WalkTrailing(t, start, Split(z));
    SplitAtSlash(z, name);
    WalkConcat(t, start, Split(z), Split(name));
  }

  lemma Behind(dir: string, name: string)
    requires dir != "" && dir[|dir| - 1] == '/'
    ensures var z := dir[..|dir| - 1]; dir == z + "/" + "" && dir + name == z + "/" + name
    ensures dir + name != "" && (dir + name)[0] == dir[0]
  {
  }

  /** From the directory it is put in, the link leads where the stripped name leads from cwd. */
  lemma {:induction false} LinkNamesSource(t: Tree, todir: string, cwd: string, c: Node, name: string)
    requires ValidTree(t) && Canonical(todir) && NodeOf(todir) in t.dirs
    requires cwd != "" && cwd[0] == '/' && Resolve(t, [], cwd) == Some(c) && c in t.dirs
    requires name != "" && name[0] != '/'
    ensures var s := Strip(name);
      && s != ""
      && Resolve(t, NodeOf(todir), RelateText(todir, cwd) + s) == Resolve(t, c, s)
      && Resolve(t, c, name) == if s == name then Resolve(t, c, s) else Restrict(t, Resolve(t, c, s))
  {
    StripKeepsFirst(name);
    StripResolves(t, c, name);
    LeadsToCwd(t, todir, cwd, c);
    ContinueFrom(t, NodeOf(todir), RelateText(todir, cwd), c, Strip(name));
  }

  lemma LeadsToCwd(t: Tree, todir: string, cwd: string, c: Node)
    requires ValidTree(t) && Canonical(todir) && NodeOf(todir) in t.dirs
    requires cwd != "" && cwd[0] == '/' && Resolve(t, [], cwd) == Some(c) && c in t.dirs
    ensures var dir := RelateText(todir, cwd);
      dir != "" && dir[|dir| - 1] == '/' && Resolve(t, NodeOf(todir), dir) == Some(c)
  {
    RelateResolves(t, todir, cwd);
    ResolveSlash(t, [], cwd);
  }

  lemma {:induction false} StripKeepsFirst(s: string)
    requires s != "" && s[0] != '/'
    ensures Strip(s) != "" && Strip(s)[0] == s[0]
  {
    if s[|s| - 1] == '/' { StripKeepsFirst(s[..|s| - 1]); }
  }

  /** Stripping trailing slashes only drops the demand that the object be a directory. */
  lemma {:induction false} StripResolves(t: Tree, at: Node, s: string)
    requires s != "" && s[0] != '/'
    ensures var r := Strip(s);
      Resolve(t, at, s) == if r == s then Resolve(t, at, r) else Restrict(t, Resolve(t, at, r))
    decreases |s|
  {
    if s[|s| - 1] == '/' {
      var p := s[..|s| - 1];
      assert s == p + "/";
      ResolveSlash(t, at, p);
      StripResolves(t, at, p);
    }
  }

  /** `xbasename` points at the last component of the stripped path. */
  lemma BaseIsLastName(s: string)
    ensures var names, k := Split(s), LastIndex(s, '/') + 1; names[|names| - 1] == s[k..]
  {
    var k := LastIndex(s, '/') + 1;
    TailPlain(s, k);
    if k > 0 {
      LastPiece(s, k);
    } else {
      assert s[0..] == s;
      SplitPlain(s);
    }
  }

  lemma LastPiece(s: string, k: nat)
    requires 0 < k <= |s| && s[k - 1] == '/' && '/' !in s[k..]
    ensures var names := Split(s); names[|names| - 1] == s[k..]
  {
    CutAt(s, k - 1);
    SplitPlain(s[k..]);
    SplitAtSlash(s[..k - 1], s[k..]);
  }
}
