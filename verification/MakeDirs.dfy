/** `MakeDir` of makecopy: a loop over the separators, cutting and restoring the path at each. */
module MakeDirs {
  import opened CText
  import opened Paths
  import opened PathSub
  import opened Disk
  import opened MkDirs
  import opened MkDirsProof

  /** The Windows path as its system calls read it: a backslash separates like a slash. */
  function Flip(s: string): (r: string)
    ensures |r| == |s|
  {
    seq(|s|, i requires 0 <= i < |s| => if s[i] == '\\' then '/' else s[i])
  }

  /** The first separator at or after i, or the end. */
  function NextSep(u: string, i: nat): (c: nat)
    requires i <= |u|
    ensures i <= c <= |u|
    decreases |u| - i
  {
    if i == |u| || u[i] == '/' then i else NextSep(u, i + 1)
  }

  lemma {:induction false} NextSepIs(u: string, i: nat, c: nat)
    requires i <= c < |u| && u[c] == '/' && forall j :: i <= j < c ==> u[j] != '/'
    ensures NextSep(u, i) == c
    decreases c - i
  {
    if i < c { NextSepIs(u, i + 1, c); }
  }

  function EnsureText(d: Disk, at: Node, u: string): Result
  {
    if IsDir(d.tree, at, u) then Result(d, true) else MkdirText(d, at, u)
  }

  /** From position i on; the text left is cut where a directory could not be made. */
  function MakeDirText(d: Disk, at: Node, u: string, i: nat): (r: Made)
    requires i <= |u|
    ensures |r.text| <= |u| && r.text == u[..|r.text|]
    decreases |u| - i
  {
    var c := NextSep(u, i);
    if c == |u| then Made(d, true, u)
    else
      var r := EnsureText(d, at, u[..c]);
      if r.ok then MakeDirText(r.disk, at, u, c + 1) else Made(r.disk, false, u[..c])
  }

  method MakeDir(fs: FileSystem, path: array<char>) returns (ok: bool)
    requires Ended(path[..], 0) && '/' !in TextAt(path[..], 0)
    modifies fs, path
    ensures Ended(path[..], 0)
    ensures var s := TextAt(old(path[..]), 0);
      && Made(fs.disk, ok, Flip(TextAt(path[..], 0))) == MakeDirText(old(fs.disk), fs.cwd, Flip(s), 0)
      && (ok ==> path[..] == old(path[..]))
    ensures var u, d := Flip(TextAt(old(path[..]), 0)), old(fs.disk);
      ValidTree(d.tree) && fs.cwd in d.tree.dirs && u != "" && u[0] != '/' ==>
        var e := MakeEach(d, Nodes(fs.cwd, Cut(u).0)); fs.disk == e.disk && ok == e.ok
  {
    MakeDirMeans(fs.disk, fs.cwd, TextAt(path[..], 0));
    ghost var b, u := path[..], Flip(TextAt(path[..], 0));
    ghost var r := MakeDirText(fs.disk, fs.cwd, u, 0);
    var pstr := 0;
    var cp := Strchr(path, pstr);
    while cp >= 0
      invariant path[..] == b && pstr <= |u| && -1 <= cp < |u|
      invariant if cp >= 0 then cp == NextSep(u, pstr) && TextAt(b, 0)[cp] == '\\' else NextSep(u, pstr) == |u|
      invariant r == MakeDirText(fs.disk, fs.cwd, u, pstr)
      decreases |u| - pstr
    {
      OneTurn(fs.disk, fs.cwd, u, pstr, cp);
      var made := MakeAt(fs, path, cp);
      if !made { return false; }
      pstr := cp + 1;
      cp := Strchr(path, pstr);
    }
    return true;
  }

  lemma MakeDirMeans(d: Disk, at: Node, s: string)
    requires NulFree(s)
    ensures var u := Flip(s);
      ValidTree(d.tree) && at in d.tree.dirs && u != "" && u[0] != '/' ==>
        var r, e := MakeDirText(d, at, u, 0), MakeEach(d, Nodes(at, Cut(u).0)); r.disk == e.disk && r.ok == e.ok
  {
    var u := Flip(s);
    assert NulFree(u) by {
      assert forall i :: 0 <= i < |s| ==> s[i] in s && u[i] != '\0';
    }
    if ValidTree(d.tree) && at in d.tree.dirs && u != "" && u[0] != '/' { MakeDirExact(d, at, u); }
  }

  lemma OneTurn(d: Disk, at: Node, u: string, i: nat, c: nat)
    requires i <= |u| && c == NextSep(u, i) && c < |u|
    ensures var r := EnsureText(d, at, u[..c]);
      MakeDirText(d, at, u, i) == if r.ok then MakeDirText(r.disk, at, u, c + 1) else Made(r.disk, false, u[..c])
  {
  }

  /** One turn: cut at the separator, make the directory if it is missing, restore. */
  method MakeAt(fs: FileSystem, path: array<char>, cp: nat) returns (ok: bool)
    requires Ended(path[..], 0) && cp < |TextAt(path[..], 0)| && TextAt(path[..], 0)[cp] == '\\'
    modifies fs, path
    ensures Ended(path[..], 0)
    ensures var u := Flip(TextAt(old(path[..]), 0))[..cp];
      && Result(fs.disk, ok) == EnsureText(old(fs.disk), fs.cwd, u)
      && (if Restrict(old(fs.disk).tree, Resolve(old(fs.disk).tree, fs.cwd, u)).Some?
          then ok && fs.disk == old(fs.disk)
          else Result(fs.disk, ok) == MkdirText(old(fs.disk), fs.cwd, u))
      && (ok ==> path[..] == old(path[..]))
      && (!ok ==> Flip(TextAt(path[..], 0)) == u)
  {
    ghost var b := path[..];
    CutAtSlash(path, 0, cp);
    FlipPrefix(TextAt(b, 0), cp);
    ok := true;
    if !IsDir(fs.disk.tree, fs.cwd, Flip(TextAt(path[..], 0))) {
      ok := fs.Mkdir(Flip(TextAt(path[..], 0)));
    }
    if ok {
      path[cp] := '\\';
      TextSplit(b[0..]);
      assert b[0..][cp] == b[cp];
      assert path[..] == b;
    }
  }

  lemma FlipPrefix(s: string, c: nat)
    requires c <= |s|
    ensures Flip(s[..c]) == Flip(s)[..c]
  {
  }

  /** `strchr(path + i, '\\')`: an index from the start of the path, or -1. */
  method Strchr(path: array<char>, i: nat) returns (r: int)
    requires Ended(path[..], 0) && i <= |TextAt(path[..], 0)| && '/' !in TextAt(path[..], 0)
    ensures var s := TextAt(path[..], 0);
      && -1 <= r < |s|
      && (if r >= 0 then r == NextSep(Flip(s), i) && s[r] == '\\' else NextSep(Flip(s), i) == |s|)
      && (r >= 0 ==> r >= i && forall j :: i <= j < r ==> s[j] != '\\')
      && (r < 0 ==> forall j :: i <= j < |s| ==> s[j] != '\\')
  {
    ghost var s := TextAt(path[..], 0);
    TextSplit(path[..][0..]);
    r := i;
    while path[r] != '\\' && path[r] != '\0'
      invariant i <= r <= |s| < path.Length && NextSep(Flip(s), i) == NextSep(Flip(s), r)
      invariant forall j :: i <= j < r ==> s[j] != '\\'
      decreases |s| - r
    {
      assert path[r] == path[..][0..][r];
      if r < |s| { assert s[r] in s; }
      r := r + 1;
    }
    assert path[r] == path[..][0..][r];
    if path[r] == '\0' {
      TextNoNul(path[..][0..], r);
      r := -1;
    }
  }

  // ----- what the loop makes

  /** Where a piece leads from a directory, whatever the tree. */
  function Onward(at: Node, piece: string): Node
  {
    if piece == "" || piece == "." then at else if piece == ".." then Parent(at) else at + [piece]
  }

  /** Where the pieces lead one after the other. */
  function Nodes(at: Node, pieces: seq<string>): (r: seq<Node>)
    ensures |r| == |pieces|
    decreases |pieces|
  {
    if pieces == [] then [] else [Onward(at, pieces[0])] + Nodes(Onward(at, pieces[0]), pieces[1..])
  }

  /** Make sure of each node in turn, until one cannot be made; `count` could be. */
  datatype Each = Each(disk: Disk, ok: bool, count: nat)

  function MakeEach(d: Disk, nodes: seq<Node>): (r: Each)
    ensures r.count <= |nodes| && (r.ok <==> r.count == |nodes|)
    decreases |nodes|
  {
    if nodes == [] then Each(d, true, 0)
    else
      var r := EnsureNode(d, nodes[0]);
      if !r.ok then Each(r.disk, false, 0)
      else var e := MakeEach(r.disk, nodes[1..]); Each(e.disk, e.ok, e.count + 1)
  }

  predicate Pieces(pieces: seq<string>)
  {
    forall i :: 0 <= i < |pieces| ==> '/' !in pieces[i] && NulFree(pieces[i])
  }

  /** A step in the tree leads where the piece leads. */
  lemma StepOnward(t: Tree, n: Node, piece: string)
    requires ValidTree(t) && n in t.dirs && '/' !in piece && NulFree(piece)
    ensures Step(t, n, piece).Some? ==> Step(t, n, piece).value == Onward(n, piece)
    ensures Restrict(t, Step(t, n, piece)).Some? <==> Onward(n, piece) in t.dirs
    ensures !ProperName(piece) ==> Onward(n, piece) in t.dirs && ProperNames(Onward(n, piece))
    ensures ProperName(piece) ==> ProperNames(Onward(n, piece)) && Parent(Onward(n, piece)) == n
  {
    assert Hangs(t, n) && Hangs(t, Parent(n));
  }

  /** What the loop does at one piece, once the pieces ks before it lead to directory n. */
  lemma OnePiece(d: Disk, at: Node, ks: seq<string>, n: Node, piece: string)
    requires ValidTree(d.tree) && Walk(d.tree, at, ks) == Some(n) && n in d.tree.dirs
    requires Pieces(ks) && '/' !in piece && NulFree(piece) && (ks + [piece])[0] != ""
    ensures EnsureText(d, at, Emit(ks) + piece) == EnsureNode(d, Onward(n, piece))
  {
    var q := Emit(ks) + piece;
    SplitEmit(ks, piece);
    SplitPlain(piece);
    RelativeStart(ks, piece);
    WalkConcat(d.tree, at, ks, [piece]);
    WalkOne(d.tree, n, piece);
    StepOnward(d.tree, n, piece);
    if ProperName(piece) { NewName(d, at, q, ks, piece, n); }
  }

  lemma AfterPiece(d: Disk, at: Node, ks: seq<string>, n: Node, piece: string)
    requires ValidTree(d.tree) && Walk(d.tree, at, ks) == Some(n) && n in d.tree.dirs
    requires '/' !in piece && NulFree(piece) && EnsureNode(d, Onward(n, piece)).ok
    ensures var t, m := EnsureNode(d, Onward(n, piece)).disk.tree, Onward(n, piece);
      ValidTree(t) && Walk(t, at, ks + [piece]) == Some(m) && m in t.dirs
  {
    var t, m := EnsureNode(d, Onward(n, piece)).disk.tree, Onward(n, piece);
    StepOnward(d.tree, n, piece);
    MakeNodeValid(d, m);
    WalkGrows(d.tree, t, at, ks);
    WalkConcat(t, at, ks, [piece]);
    WalkOne(t, n, piece);
    StepOnward(t, n, piece);
  }

  lemma RelativeStart(ks: seq<string>, piece: string)
    requires Pieces(ks) && '/' !in piece && (ks + [piece])[0] != ""
    ensures var q := Emit(ks) + piece; q != "" && q[0] != '/'
  {
    if ks == [] {
      assert (ks + [piece])[0] == piece;
    } else {
      assert (ks + [piece])[0] == ks[0] && ks[0][0] in ks[0];
    }
  }

  lemma NextName(pre: string, name: string, rest: string)
    requires '/' !in name
    ensures NextSep(pre + name + "/" + rest, |pre|) == |pre| + |name|
  {
    var u := pre + name + "/" + rest;
    forall j | |pre| <= j < |pre| + |name| ensures u[j] != '/' {
      assert u[j] == name[j - |pre|] && name[j - |pre|] in name;
    }
    NextSepIs(u, |pre|, |pre| + |name|);
  }

  /** From position i, where the pieces ks led to directory n, the loop does what making sure of each
      further node does; when one cannot be made, the text left ends with its piece. */
  ghost predicate Agrees(d: Disk, at: Node, u: string, i: nat, n: Node, ks: seq<string>, pieces: seq<string>)
    requires i <= |u|
  {
    Ends(MakeDirText(d, at, u, i), MakeEach(d, Nodes(n, pieces)), u, ks, pieces)
  }

  predicate Ends(r: Made, e: Each, u: string, ks: seq<string>, pieces: seq<string>)
  {
    && r.disk == e.disk && r.ok == e.ok
    && (r.ok ==> r.text == u)
    && (!r.ok ==> e.count < |pieces| && r.text == Emit(ks + pieces[..e.count]) + pieces[e.count])
  }

  lemma EndsOn(r: Made, e: Each, u: string, ks: seq<string>, pieces: seq<string>, ks': seq<string>, rest: seq<string>)
    requires pieces != [] && ks' == ks + [pieces[0]] && rest == pieces[1..] && Ends(r, e, u, ks', rest)
    ensures Ends(r, Each(e.disk, e.ok, e.count + 1), u, ks, pieces)
  {
    if !r.ok { assert ks' + rest[..e.count] == ks + pieces[..e.count + 1]; }
  }

  lemma AgreeStop(d: Disk, at: Node, u: string, i: nat, c: nat, q: string, n: Node, ks: seq<string>,
                  pieces: seq<string>)
    requires i <= |u| && c == NextSep(u, i) && c < |u| && u[..c] == q && pieces != [] && q == Emit(ks) + pieces[0]
    requires EnsureText(d, at, q) == EnsureNode(d, Onward(n, pieces[0])) && !EnsureNode(d, Onward(n, pieces[0])).ok
    ensures Agrees(d, at, u, i, n, ks, pieces)
  {
    assert ks + pieces[..0] == ks;
  }

  lemma AgreeOn(d: Disk, at: Node, u: string, i: nat, c: nat, q: string, n: Node, ks: seq<string>, pieces: seq<string>,
                r: Result, m: Node, ks': seq<string>, rest: seq<string>)
    requires i <= |u| && c == NextSep(u, i) && c < |u| && u[..c] == q
    requires pieces != [] && m == Onward(n, pieces[0]) && ks' == ks + [pieces[0]] && rest == pieces[1..]
    requires r == EnsureText(d, at, q) == EnsureNode(d, m) && r.ok
    requires Agrees(r.disk, at, u, c + 1, m, ks', rest)
    ensures Agrees(d, at, u, i, n, ks, pieces)
  {
    EachOn(d, n, pieces, r, m, rest);
    OneTurn(d, at, u, i, c);
    EndsOn(MakeDirText(r.disk, at, u, c + 1), MakeEach(r.disk, Nodes(m, rest)), u, ks, pieces, ks', rest);
  }

  lemma EachOn(d: Disk, n: Node, pieces: seq<string>, r: Result, m: Node, rest: seq<string>)
    requires pieces != [] && m == Onward(n, pieces[0]) && rest == pieces[1..] && r == EnsureNode(d, m) && r.ok
    ensures var e := MakeEach(r.disk, Nodes(m, rest)); MakeEach(d, Nodes(n, pieces)) == Each(e.disk, e.ok, e.count + 1)
  {
    assert Nodes(n, pieces)[1..] == Nodes(m, rest);
  }

  /** The loop stands after the pieces ks, at directory n, with `pieces` and the text z to come. */
  ghost predicate Reached(d: Disk, at: Node, u: string, i: nat, n: Node, ks: seq<string>,
                          pieces: seq<string>, z: string)
  {
    && ValidTree(d.tree) && Walk(d.tree, at, ks) == Some(n) && n in d.tree.dirs
    && Pieces(ks) && Pieces(pieces) && '/' !in z
    && (ks + pieces != [] ==> (ks + pieces)[0] != "")
    && u == Emit(ks) + (Emit(pieces) + z) && i == |Emit(ks)|
  }

  lemma Advance(d: Disk, at: Node, u: string, i: nat, n: Node, ks: seq<string>, pieces: seq<string>, z: string)
    returns (c: nat, q: string, r: Result)
    requires Reached(d, at, u, i, n, ks, pieces, z) && pieces != []
    ensures i <= |u| && c == NextSep(u, i) && c < |u| && u[..c] == q && q == Emit(ks) + pieces[0]
    ensures r == EnsureText(d, at, q) == EnsureNode(d, Onward(n, pieces[0]))
    ensures r.ok ==> Reached(r.disk, at, u, c + 1, Onward(n, pieces[0]), ks + [pieces[0]], pieces[1..], z)
  {
    c, q, r := i + |pieces[0]|, Emit(ks) + pieces[0], EnsureNode(d, Onward(n, pieces[0]));
    FirstPiece(ks, pieces);
    OnePiece(d, at, ks, n, pieces[0]);
    if r.ok { AfterPiece(d, at, ks, n, pieces[0]); }
    NamesJoin(u, c, ks, pieces, z);
    NextCut(u, i, c, Emit(ks), pieces[0], Emit(pieces[1..]) + z);
  }

  lemma FirstPiece(ks: seq<string>, pieces: seq<string>)
    requires pieces != [] && Pieces(ks) && Pieces(pieces)
    ensures (ks + [pieces[0]])[0] == (ks + pieces)[0] && (ks + [pieces[0]]) + pieces[1..] == ks + pieces
    ensures Pieces(ks + [pieces[0]]) && Pieces(pieces[1..])
  {
  }

  lemma NothingLeft(d: Disk, at: Node, u: string, i: nat, n: Node, ks: seq<string>, z: string)
    requires Reached(d, at, u, i, n, ks, [], z)
    ensures i <= |u| && Agrees(d, at, u, i, n, ks, [])
  {
    assert u[i..] == z;
    NoSep(u, i);
  }

  lemma {:induction false} NoSep(u: string, i: nat)
    requires i <= |u| && '/' !in u[i..]
    ensures NextSep(u, i) == |u|
    decreases |u| - i
  {
    if i < |u| {
      assert u[i] == u[i..][0] && u[i + 1..] == u[i..][1..];
      NoSep(u, i + 1);
    }
  }

  lemma {:induction false} MakeDirSteps(d: Disk, at: Node, u: string, i: nat, n: Node, ks: seq<string>,
                                        pieces: seq<string>, z: string)
    requires Reached(d, at, u, i, n, ks, pieces, z)
    ensures i <= |u| && Agrees(d, at, u, i, n, ks, pieces)
    decreases |pieces|, 1
  {
    if pieces == [] {
      NothingLeft(d, at, u, i, n, ks, z);
    } else {
      var c, q, r := Advance(d, at, u, i, n, ks, pieces, z);
      MakeDirTurn(d, at, u, i, n, ks, pieces, z, c, q, r, Onward(n, pieces[0]), ks + [pieces[0]], pieces[1..]);
    }
  }

  /** One turn of the loop, and then the pieces ks' behind it and `rest` to come. */
  lemma {:induction false} MakeDirTurn(d: Disk, at: Node, u: string, i: nat, n: Node, ks: seq<string>,
                                       pieces: seq<string>, z: string, c: nat, q: string, r: Result,
                                       m: Node, ks': seq<string>, rest: seq<string>)
    requires i <= |u| && c == NextSep(u, i) && c < |u| && u[..c] == q && pieces != [] && q == Emit(ks) + pieces[0]
    requires m == Onward(n, pieces[0]) && ks' == ks + [pieces[0]] && rest == pieces[1..]
    requires r == EnsureText(d, at, q) == EnsureNode(d, m)
    requires r.ok ==> Reached(r.disk, at, u, c + 1, m, ks', rest, z)
    ensures Agrees(d, at, u, i, n, ks, pieces)
    decreases |pieces|, 0
  {
    if r.ok {
      MakeDirSteps(r.disk, at, u, c + 1, m, ks', rest, z);
      AgreeOn(d, at, u, i, c, q, n, ks, pieces, r, m, ks', rest);
    } else {
      AgreeStop(d, at, u, i, c, q, n, ks, pieces);
    }
  }

  lemma NamesJoin(u: string, c: nat, ks: seq<string>, names: seq<string>, z: string)
    requires names != [] && u == Emit(ks) + (Emit(names) + z) && c == |Emit(ks)| + |names[0]|
    ensures u == Emit(ks + [names[0]]) + (Emit(names[1..]) + z) && |Emit(ks + [names[0]])| == c + 1
    ensures u == Emit(ks) + (names[0] + "/" + (Emit(names[1..]) + z))
  {
    EmitSnoc(ks, names[0]);
    Regroup3(names[0] + "/", Emit(names[1..]), z);
    Together(Emit(ks), names[0], Emit(names[1..]) + z);
  }

  lemma Regroup3(a: string, b: string, c: string)
    ensures (a + b) + c == a + (b + c)
  {
  }

  /** The next cut is after the first of the remaining names. */
  lemma NextCut(u: string, i: nat, c: nat, pre: string, name: string, rest: string)
    requires '/' !in name && u == pre + (name + "/" + rest) && i == |pre| && c == i + |name|
    ensures i <= |u| && NextSep(u, i) == c < |u| && u[..c] == pre + name
  {
    Together(pre, name, rest);
    NextName(pre, name, rest);
    PrefixOf(pre + name, "/" + rest);
    Together2(pre + name, rest);
  }

  lemma PrefixOf(a: string, b: string)
    ensures (a + b)[..|a|] == a
  {
  }

  lemma Together2(a: string, rest: string)
    ensures a + ("/" + rest) == a + "/" + rest
  {
  }

  lemma Together(pre: string, name: string, rest: string)
    ensures pre + (name + "/" + rest) == pre + name + "/" + rest
    ensures pre + name + "/" + rest == (pre + name + "/") + rest
  {
  }

  lemma {:induction false} EmitSnoc(ks: seq<string>, name: string)
    ensures Emit(ks + [name]) == Emit(ks) + name + "/"
  {
    if ks == [] {
      assert [name][1..] == [];
    } else {
      assert (ks + [name])[1..] == ks[1..] + [name];
      EmitSnoc(ks[1..], name);
    }
  }

  lemma {:induction false} EmitSplit(p: string)
    ensures Emit(Split(p)) == p + "/"
  {
    if p == "" {
      assert Emit([""]) == "" + "/" + Emit([]);
    } else {
      EmitSplit(p[1..]);
      var r := Split(p[1..]);
      assert p == [p[0]] + p[1..];
      if p[0] == '/' {
        assert ([""] + r)[1..] == r;
      } else {
        var first := [p[0]] + r[0];
        assert ([first] + r[1..])[1..] == r[1..];
        assert first + "/" + Emit(r[1..]) == [p[0]] + (r[0] + "/" + Emit(r[1..]));
      }
    }
  }

  /** A path of proper names starts and ends with a name. */
  lemma ProperPath(p: string)
    requires ProperNames(Split(p))
    ensures p != "" && p[0] != '/' && Target(p) == p && NulFree(p)
  {
    assert Split("") == [""] && ProperName(Split(p)[0]);
    PiecesNulFree(p);
    if p[|p| - 1] == '/' {
      CutAt(p, |p| - 1);
      EmptyPiece(p[..|p| - 1], "");
    }
  }

  lemma {:induction false} PiecesNulFree(p: string)
    requires forall i :: 0 <= i < |Split(p)| ==> NulFree(Split(p)[i])
    ensures NulFree(p)
  {
    if p != "" {
      var all, r := Split(p), Split(p[1..]);
      if p[0] == '/' {
        assert forall i :: 0 <= i < |r| ==> r[i] == all[i + 1];
      } else {
        assert all[0] == [p[0]] + r[0] && all[0][0] == p[0];
        assert forall c :: c in r[0] ==> c in all[0];
        assert forall i :: 1 <= i < |r| ==> r[i] == all[i];
      }
      PiecesNulFree(p[1..]);
      assert p == [p[0]] + p[1..];
    }
  }

  lemma EmptyPiece(a: string, b: string)
    requires b == "" || b[0] == '/'
    ensures !ProperNames(Split(a + "/" + b))
  {
    SplitAtSlash(a, b);
    assert (Split(a) + Split(b))[|Split(a)|] == "";
  }

  /** `mkdirs` on such a path makes every directory on it. */
  lemma ProperMkdirs(d: Disk, at: Node, p: string)
    requires ValidTree(d.tree) && at in d.tree.dirs && p != "" && p[0] != '/' && Target(p) == p && NulFree(p)
    requires ProperNames(Split(p)) && at + Split(p) !in d.tree.dirs
    ensures var r := MakeText(d, at, p);
      Result(r.disk, r.ok) == MakeSteps(d, at, Split(p)) && (r.ok ==> r.text == p)
  {
    var l, pieces := Lead(d.tree, at, Split(p)), Split(p);
    LeadWalk(d.tree, at, pieces);
    LeadNode(d.tree, at, pieces);
    assert pieces[..|pieces|] == pieces;
    LeadSteps(d, at, pieces);
    var rest := pieces[l.count..];
    AllPlain(rest);
    assert rest[..|rest|] == rest;
    var x := PartsOf(d.tree, at, p);
    assert x == Parts(pieces, l.count, l.node, |rest|);
    MakeTextExact(d, at, p);
    assert Fits(x, MakeMissing(d, x), p, MakeText(d, at, p));
  }

  /** The pieces before the last separator, and what stands behind it. */
  function Cut(u: string): (r: (seq<string>, string))
    ensures r.0 + [r.1] == Split(u)
  {
    var all := Split(u);
    (all[..|all| - 1], all[|all| - 1])
  }

  /** On every relative path the loop makes sure of each node its pieces lead to, dots and doubled
      separators included, but for what stands behind the last separator. */
  lemma MakeDirExact(d: Disk, at: Node, u: string)
    requires ValidTree(d.tree) && at in d.tree.dirs && NulFree(u) && u != "" && u[0] != '/'
    ensures var r, pieces := MakeDirText(d, at, u, 0), Cut(u).0;
      var e := MakeEach(d, Nodes(at, pieces));
      && r.disk == e.disk && r.ok == e.ok
      && (r.ok ==> r.text == u)
      && (!r.ok ==> r.text == Emit(pieces[..e.count]) + pieces[e.count])
  {
    var pieces, z := Cut(u).0, Cut(u).1;
    CutFacts(u, pieces, z);
    MakeDirSteps(d, at, u, 0, at, [], pieces, z);
    var e := MakeEach(d, Nodes(at, pieces));
    assert [] + pieces[..e.count] == pieces[..e.count];
  }

  lemma CutFacts(u: string, pieces: seq<string>, z: string)
    requires pieces + [z] == Split(u) && NulFree(u) && u != "" && u[0] != '/'
    ensures u == Emit([]) + (Emit(pieces) + z) && Pieces(pieces) && '/' !in z
    ensures [] + pieces != [] ==> ([] + pieces)[0] != ""
  {
    EmitSplit(u);
    EmitSnoc(pieces, z);
    LastChar(u, Emit(pieces) + z);
    PiecesPlain(u);
    PartsNulFree(u);
    assert Split(u)[0] != "";
    assert forall i :: 0 <= i < |pieces| ==> pieces[i] == Split(u)[i];
    assert z == Split(u)[|pieces|];
  }

  lemma LastChar(a: string, b: string)
    requires a + "/" == b + "/"
    ensures a == b
  {
    assert a == (a + "/")[..|a|] && b == (b + "/")[..|b|] && |a + "/"| == |b + "/"|;
  }

  lemma {:induction false} PartsNulFree(p: string)
    requires NulFree(p)
    ensures forall i :: 0 <= i < |Split(p)| ==> NulFree(Split(p)[i])
  {
    if p != "" {
      assert p[0] in p && forall x :: x in p[1..] ==> x in p;
      PartsNulFree(p[1..]);
    }
  }

  /** A path that begins with a separator fails at once: the empty name cannot be made. */
  lemma AbsoluteFails(d: Disk, at: Node, u: string)
    requires u != "" && u[0] == '/'
    ensures MakeDirText(d, at, u, 0) == Made(d, false, "")
  {
    assert u[..0] == "";
  }

  /** Each node can be made sure of if and only if every one is a directory, or neither a file nor
      refused; then exactly they are added, and the pieces resolve to the last of them. */
  lemma {:induction false} EachMeans(d: Disk, at: Node, pieces: seq<string>)
    requires ValidTree(d.tree) && at in d.tree.dirs && Pieces(pieces)
    ensures var e, nodes := MakeEach(d, Nodes(at, pieces)), Nodes(at, pieces);
      && (e.ok <==> forall k :: 0 <= k < |nodes| ==>
            nodes[k] in d.tree.dirs || (nodes[k] !in d.tree.files && nodes[k] !in d.denied))
      && ValidTree(e.disk.tree) && e.disk.tree.files == d.tree.files && e.disk.denied == d.denied
      && d.tree.dirs <= e.disk.tree.dirs
      && (e.ok ==> forall n :: n in e.disk.tree.dirs <==> n in d.tree.dirs || n in nodes)
      && (e.ok ==> var n := if pieces == [] then at else nodes[|nodes| - 1];
                   Walk(e.disk.tree, at, pieces) == Some(n) && n in e.disk.tree.dirs)
    decreases |pieces|
  {
    if pieces != [] {
      var m := Onward(at, pieces[0]);
      var r := EnsureNode(d, m);
      StepOnward(d.tree, at, pieces[0]);
      var nodes := Nodes(at, pieces);
      assert nodes[0] == m && nodes[1..] == Nodes(m, pieces[1..]);
      if r.ok {
        MakeNodeValid(d, m);
        EachMeans(r.disk, m, pieces[1..]);
        EachFirst(d, r.disk, m, nodes);
        var e := MakeEach(d, nodes);
        if e.ok { StepOnward(e.disk.tree, at, pieces[0]); }
      }
    }
  }

  lemma EachFirst(d: Disk, e: Disk, m: Node, nodes: seq<Node>)
    requires nodes != [] && nodes[0] == m && EnsureNode(d, m) == Result(e, true) && d.tree.dirs !! d.tree.files
    ensures (forall k :: 0 <= k < |nodes| ==>
              nodes[k] in d.tree.dirs || (nodes[k] !in d.tree.files && nodes[k] !in d.denied))
       <==> (forall k :: 0 <= k < |nodes[1..]| ==>
              nodes[1..][k] in e.tree.dirs || (nodes[1..][k] !in e.tree.files && nodes[1..][k] !in e.denied))
    ensures forall n :: n in e.tree.dirs || n in nodes[1..] <==> n in d.tree.dirs || n in nodes
  {
    assert forall k :: 0 <= k < |nodes[1..]| ==> nodes[1..][k] == nodes[k + 1];
    assert forall k :: 0 < k < |nodes| ==> nodes[k] == nodes[1..][k - 1];
    assert nodes == [m] + nodes[1..];
  }

  /** After an existing part, which may have dots, proper names are made below where it leads. */
  lemma {:induction false} EachSteps(d: Disk, at: Node, pieces: seq<string>)
    requires ValidTree(d.tree) && at in d.tree.dirs && Pieces(pieces)
    requires ProperNames(pieces[Lead(d.tree, at, pieces).count..])
    ensures var l, e := Lead(d.tree, at, pieces), MakeEach(d, Nodes(at, pieces));
      Result(e.disk, e.ok) == MakeSteps(d, l.node, pieces[l.count..])
    decreases |pieces|
  {
    if pieces != [] {
      StepOnward(d.tree, at, pieces[0]);
      var m, l := Onward(at, pieces[0]), Lead(d.tree, at, pieces);
      assert Nodes(at, pieces)[1..] == Nodes(m, pieces[1..]);
      if m in d.tree.dirs {
        assert pieces[1..][l.count - 1..] == pieces[l.count..];
        EachSteps(d, m, pieces[1..]);
      } else {
        assert pieces[0..] == pieces;
        ProperEach(d, at, pieces);
      }
    }
  }

  lemma {:induction false} ProperEach(d: Disk, at: Node, names: seq<string>)
    requires ProperNames(names)
    ensures var e := MakeEach(d, Nodes(at, names)); Result(e.disk, e.ok) == MakeSteps(d, at, names)
    decreases |names|
  {
    if names != [] {
      assert ProperName(names[0]) && Nodes(at, names)[1..] == Nodes(at + [names[0]], names[1..]);
      var r := EnsureNode(d, at + [names[0]]);
      if r.ok { ProperEach(r.disk, at + [names[0]], names[1..]); }
    }
  }

  /** On a relative path of proper names whose target is no directory yet, recursive `mkdirs` and
      iterative `MakeDir` (given the path with a separator after it) end the same way: both succeed
      or both fail, having made the same directories in the same order. */
  lemma MakersAgree(d: Disk, at: Node, p: string)
    requires ValidTree(d.tree) && at in d.tree.dirs
    requires ProperNames(Split(p)) && at + Split(p) !in d.tree.dirs
    ensures var a, b := MakeText(d, at, p), MakeDirText(d, at, p + "/", 0);
      && a.disk == b.disk && a.ok == b.ok
      && Result(a.disk, a.ok) == MakeSteps(d, at, Split(p))
      && (a.ok ==> a.text == p && b.text == p + "/")
  {
    ProperPath(p);
    ProperMkdirs(d, at, p);
    assert p + "/" == p + "/" + "" && (p + "/")[0] == p[0];
    SplitAtSlash(p, "");
    assert Cut(p + "/").0 == Split(p);
    MakeDirExact(d, at, p + "/");
    ProperEach(d, at, Split(p));
  }

  /** A successful loop leaves the whole path. */
  lemma {:induction false} Uncut(d: Disk, at: Node, u: string, i: nat)
    requires i <= |u|
    ensures MakeDirText(d, at, u, i).ok ==> MakeDirText(d, at, u, i).text == u
    decreases |u| - i
  {
    var c := NextSep(u, i);
    if c < |u| {
      var r := EnsureText(d, at, u[..c]);
      if r.ok { Uncut(r.disk, at, u, c + 1); }
    }
  }

  /** A missing directory lies on the path, below its start. */
  lemma {:induction false} MissingOnPath(t: Tree, at: Node, names: seq<string>, i: nat)
    requires i < |Missing(t, at, names)|
    ensures var n := Missing(t, at, names)[i]; |at| < |n| && n <= at + names
    decreases |names|
  {
    var n := at + [names[0]];
    assert n + names[1..] == at + names;
    var k := if n in t.dirs then 0 else 1;
    if i >= k { MissingOnPath(t, n, names[1..], i - k); }
  }

  /** The directories missing on a path are listed parents first. */
  lemma {:induction false} ParentsFirst(t: Tree, at: Node, names: seq<string>, i: nat, j: nat)
    requires i < j < |Missing(t, at, names)|
    ensures var m := Missing(t, at, names); |m[i]| < |m[j]| && m[i] <= m[j]
    decreases |names|
  {
    var n := at + [names[0]];
    assert n + names[1..] == at + names;
    var k := if n in t.dirs then 0 else 1;
    if i >= k {
      ParentsFirst(t, n, names[1..], i - k, j - k);
    } else {
      var last := Missing(t, at, names)[j];
      MissingOnPath(t, n, names[1..], j - 1);
      assert last == Missing(t, n, names[1..])[j - 1];
      assert last[..|n|] == (at + names)[..|n|] == n;
    }
  }
}
