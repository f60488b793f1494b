/** `mkdirs` of nsinstall: recursive, cutting the path at its last slash and restoring it. */
module MkDirs {
  import opened CText
  import opened Paths
  import opened PathSub
  import opened Disk

  // ----- the system calls, by text

  predicate IsDir(t: Tree, at: Node, s: string)
  {
    Restrict(t, Resolve(t, at, s)).Some?
  }

  /** `mkdir`: a new last name in an existing directory. */
  function MkdirText(d: Disk, at: Node, s: string): Result
  {
    if s == "" || Resolve(d.tree, at, s).Some? then Result(d, false)
    else
      var names := Split(s);
      var parent := Walk(d.tree, if s[0] == '/' then [] else at, names[..|names| - 1]);
      var last := names[|names| - 1];
      if parent.Some? && ProperName(last) then MakeNode(d, parent.value + [last]) else Result(d, false)
  }

  // ----- the recursion, on any text

  /** Of doubled leading slashes only the last is kept. */
  function DropDoubled(s: string): (r: string)
    ensures |r| <= |s| && (|r| < 2 || r[0] != '/' || r[1] != '/')
  {
    if |s| >= 2 && s[0] == '/' && s[1] == '/' then DropDoubled(s[1..]) else s
  }

  /** The path behind its leading slashes with exactly one of them kept. */
  lemma {:induction false} DropsSlashes(s: string)
    ensures var r := DropDoubled(s);
      && s[|s| - |r|..] == r
      && (forall i :: 0 <= i < |s| - |r| ==> s[i] == '/')
      && (|r| < |s| ==> r != "" && r[0] == '/')
      && (|r| >= 2 ==> r[0] != '/' || r[1] != '/')
  {
    if |s| >= 2 && s[0] == '/' && s[1] == '/' {
      DropsSlashes(s[1..]);
      var r := DropDoubled(s);
      assert s[|s| - |r|..] == s[1..][|s| - 1 - |r|..];
      assert forall i :: 1 <= i < |s| - |r| ==> s[i] == s[1..][i - 1];
    }
  }

  function Target(s: string): string { Strip(DropDoubled(s)) }

  /** The text left in the buffer is a prefix of the path: all of it if everything was restored. */
  datatype Made = Made(disk: Disk, ok: bool, text: string)

  function MakeText(d: Disk, at: Node, s: string): (r: Made)
    ensures r.text <= Target(s)
    decreases |s|
  {
    var p := Target(s);
    var c := LastIndex(p, '/');
    if c > 0 && !IsDir(d.tree, at, p[..c]) then
      var r := MakeText(d, at, p[..c]);
      if !r.ok then r
      else
        var q := if |r.text| == c then p else r.text;
        var m := MkdirText(r.disk, at, q);
        Made(m.disk, m.ok, q)
    else
      var m := MkdirText(d, at, p);
      Made(m.disk, m.ok, p)
  }

  /** One level of it, on a stripped path p with its last slash at c. */
  function OneLevel(d: Disk, at: Node, p: string, c: int): Made
    requires c <= |p|
  {
    if c > 0 && !IsDir(d.tree, at, p[..c]) then
      var r := MakeText(d, at, p[..c]);
      if !r.ok then r
      else
        var q := if |r.text| == c then p else r.text;
        var m := MkdirText(r.disk, at, q);
        Made(m.disk, m.ok, q)
    else
      var m := MkdirText(d, at, p);
      Made(m.disk, m.ok, p)
  }

  lemma Level(d: Disk, at: Node, s: string)
    ensures var p := Target(s); MakeText(d, at, s) == OneLevel(d, at, p, LastIndex(p, '/'))
  {
  }

  // ----- the routine

  class FileSystem {
    var disk: Disk
    const cwd: Node

    constructor (disk: Disk, cwd: Node)
      ensures this.disk == disk && this.cwd == cwd
    {
      this.disk := disk;
      this.cwd := cwd;
    }

    method Mkdir(s: string) returns (ok: bool)
      modifies this
      ensures Result(disk, ok) == MkdirText(old(disk), cwd, s)
    {
      var r := MkdirText(disk, cwd, s);
      disk := r.disk;
      ok := r.ok;
    }
  }

  /** The same characters everywhere but in [lo..hi). */
  predicate SameOutside(a: seq<char>, b: seq<char>, lo: nat, hi: nat)
  {
    |a| == |b| && forall i :: 0 <= i < |a| && (i < lo || i >= hi) ==> a[i] == b[i]
  }

  predicate Ended(b: seq<char>, off: nat)
  {
    off <= |b| && '\0' in b[off..]
  }

  function TextAt(b: seq<char>, off: nat): string
    requires off <= |b|
  {
    Text(b[off..])
  }

  /** The path is the text at `off`; `start` is where it begins after doubled leading slashes. What
      lies outside the text is left alone. */
  method MakeDirectories(fs: FileSystem, path: array<char>, off: nat) returns (ok: bool, start: nat)
    requires Ended(path[..], off)
    modifies fs, path
    ensures Ended(path[..], start)
    ensures var s := TextAt(old(path[..]), off);
      && start == off + |s| - |DropDoubled(s)|
      && Made(fs.disk, ok, TextAt(path[..], start)) == MakeText(old(fs.disk), fs.cwd, s)
      && SameOutside(path[..], old(path[..]), off, off + |s|)
    decreases |TextAt(path[..], off)|, 2
  {
    ghost var s := TextAt(path[..], off);
    start := SkipDoubled(path, off);
    var cp := StripInPlace(path, start);
    Level(fs.disk, fs.cwd, s);
    ok := Finish(fs, path, start, cp);
  }

  /** With the path stripped: the parent first, if it is missing, and then the path itself. */
  method Finish(fs: FileSystem, path: array<char>, start: nat, cp: int) returns (ok: bool)
    requires Ended(path[..], start)
    requires var p := TextAt(path[..], start); p == DropDoubled(p) && cp == LastIndex(p, '/')
    modifies fs, path
    ensures Ended(path[..], start)
    ensures var p := TextAt(old(path[..]), start);
      && Made(fs.disk, ok, TextAt(path[..], start)) == OneLevel(old(fs.disk), fs.cwd, p, cp)
      && SameOutside(path[..], old(path[..]), start, start + |p|)
    decreases |TextAt(path[..], start)|, 1
  {
    ok := true;
    if cp > 0 {
      ok := MakeParent(fs, path, start, cp);
    }
    if ok {
      ok := fs.Mkdir(TextAt(path[..], start));
    }
  }

  method StripInPlace(path: array<char>, off: nat) returns (cp: int)
    requires Ended(path[..], off)
    modifies path
    ensures Ended(path[..], off)
    ensures TextAt(path[..], off) == Strip(TextAt(old(path[..]), off))
    ensures cp == LastIndex(TextAt(path[..], off), '/')
    ensures SameOutside(path[..], old(path[..]), off, off + |TextAt(old(path[..]), off)|)
  {
    ghost var b := path[..];
    ghost var n := |Text(path[off..])|;
    TextSplit(path[off..]);
    assert path[..][off..] == path[off..];
    cp := CutTrailing(path, off);
    assert path[..][off..] == path[off..];
    forall i | 0 <= i < path.Length && (i < off || i >= off + n)
      ensures path[..][i] == b[i]
    {
      if i < off {
        assert path[..off][i] == b[..off][i];
      } else {
        assert path[off + n..][i - off - n] == b[off + n..][i - off - n];
      }
    }
  }

  /** Cut the path at its last slash, make the parent if it is no directory, restore the slash. On
      failure the path stays cut. */
  method MakeParent(fs: FileSystem, path: array<char>, start: nat, cp: nat) returns (ok: bool)
    requires Ended(path[..], start)
    requires var p := TextAt(path[..], start); p == DropDoubled(p) && cp == LastIndex(p, '/') && cp > 0
    modifies fs, path
    ensures Ended(path[..], start)
    ensures var p := TextAt(old(path[..]), start);
      && (if IsDir(old(fs.disk).tree, fs.cwd, p[..cp]) then
            ok && fs.disk == old(fs.disk) && TextAt(path[..], start) == p
          else var r := MakeText(old(fs.disk), fs.cwd, p[..cp]);
            && ok == r.ok && fs.disk == r.disk
            && TextAt(path[..], start) == if r.ok && |r.text| == cp then p else r.text)
      && SameOutside(path[..], old(path[..]), start, start + |p|)
    decreases |TextAt(path[..], start)|, 0
  {
    ghost var b := path[..];
    ghost var p := TextAt(b, start);
    CutAtSlash(path, start, cp);
    ghost var b1 := path[..];
    NotDoubled(p, cp);
    ok := MakeIfMissing(fs, path, start);
    if ok {
      PutSlash(path, start, cp, b);
    }
  }

  method MakeIfMissing(fs: FileSystem, path: array<char>, start: nat) returns (ok: bool)
    requires Ended(path[..], start)
    requires var q := TextAt(path[..], start); DropDoubled(q) == q && Target(q) <= q
    modifies fs, path
    ensures Ended(path[..], start)
    ensures var q := TextAt(old(path[..]), start);
      && (if IsDir(old(fs.disk).tree, fs.cwd, q) then ok && fs.disk == old(fs.disk) && TextAt(path[..], start) == q
          else Made(fs.disk, ok, TextAt(path[..], start)) == MakeText(old(fs.disk), fs.cwd, q))
      && TextAt(path[..], start) <= q
      && SameOutside(path[..], old(path[..]), start, start + |q|)
    decreases |TextAt(path[..], start)|, 3
  {
    ghost var q := TextAt(path[..], start);
    ok := true;
    if !IsDir(fs.disk.tree, fs.cwd, TextAt(path[..], start)) {
      var inner: nat;
      ok, inner := MakeDirectories(fs, path, start);
      PrefixOfPrefix(TextAt(path[..], start), Target(q), q);
    }
  }

  method PutSlash(path: array<char>, start: nat, cp: nat, ghost b: seq<char>)
    requires Ended(b, start) && cp < |TextAt(b, start)| && TextAt(b, start)[cp] == '/'
    requires Ended(path[..], start) && path.Length == |b|
    requires TextAt(path[..], start) <= TextAt(b, start)[..cp]
    requires forall i :: start + cp < i < |b| ==> path[..][i] == b[i]
    modifies path
    ensures Ended(path[..], start)
    ensures TextAt(path[..], start)
         == if |TextAt(old(path[..]), start)| == cp then TextAt(b, start) else TextAt(old(path[..]), start)
    ensures SameOutside(path[..], old(path[..]), start + cp, start + cp + 1)
  {
    ghost var b2 := path[..];
    TextSplit(b[start..]);
    path[start + cp] := '/';
    assert path[..] == b2[start + cp := '/'];
    RestoreSlash(b, b2, start, cp);
  }

  lemma NotDoubled(p: string, c: nat)
    requires c <= |p| && p == DropDoubled(p)
    ensures DropDoubled(p[..c]) == p[..c] && Target(p[..c]) <= p[..c]
  {
  }

  lemma PrefixOfPrefix(x: string, y: string, z: string)
    requires x <= y && y <= z
    ensures x <= z
  {
  }

  method CutAtSlash(path: array<char>, start: nat, cp: nat)
    requires Ended(path[..], start) && cp < |TextAt(path[..], start)|
    modifies path
    ensures Ended(path[..], start) && start + cp < path.Length
    ensures path[..] == old(path[..])[start + cp := '\0']
    ensures TextAt(path[..], start) == TextAt(old(path[..]), start)[..cp]
  {
    ghost var b := path[..];
    TextSplit(b[start..]);
    CutText(b[start..], cp);
    path[start + cp] := '\0';
    assert path[..] == b[start + cp := '\0'];
    assert path[..][start..] == b[start..][cp := '\0'];
    assert path[..][start..][cp] == '\0';
  }

  /** Writing the slash back restores the text, unless a shorter text stands in front of it. */
  lemma RestoreSlash(b: seq<char>, b2: seq<char>, start: nat, cp: nat)
    requires Ended(b, start) && cp < |TextAt(b, start)| < |b| - start && TextAt(b, start)[cp] == '/'
    requires Ended(b2, start) && |b2| == |b| && TextAt(b2, start) <= TextAt(b, start)[..cp]
    requires forall i :: start + cp < i < |b| ==> b2[i] == b[i]
    ensures Ended(b2[start + cp := '/'], start)
    ensures TextAt(b2[start + cp := '/'], start)
         == if |TextAt(b2, start)| == cp then TextAt(b, start) else TextAt(b2, start)
  {
    var p, q := TextAt(b, start), TextAt(b2, start);
    var e := b2[start + cp := '/'][start..];
    TextSplit(b[start..]);
    TextSplit(b2[start..]);
    if |q| == cp {
      forall i | 0 <= i < |p| ensures e[i] == p[i] {
        if i < cp { assert q[i] == b2[start..][i]; } else if i > cp { assert p[i] == b[start..][i]; }
      }
      assert e[..|p|] == p;
      assert e[|p|] == '\0';
      TextUpTo(e, |p|);
    } else {
      assert e[..|q|] == b2[start..][..|q|];
      assert e[|q|] == '\0';
      TextUpTo(e, |q|);
    }
  }

  /** From off to start there are slashes only, and start is at the last of them. */
  predicate Passed(b: seq<char>, off: nat, start: nat)
  {
    && off <= start < |b| && (forall i :: off <= i < start ==> b[i] == '/')
    && (start > off ==> b[start] == '/')
    && (start + 1 < |b| ==> b[start] != '/' || b[start + 1] != '/')
  }

  method SkipDoubled(path: array<char>, off: nat) returns (start: nat)
    requires Ended(path[..], off)
    ensures Ended(path[..], start)
    ensures TextAt(path[..], start) == DropDoubled(TextAt(path[..], off))
    ensures start == off + |TextAt(path[..], off)| - |DropDoubled(TextAt(path[..], off))|
    ensures Passed(path[..], off, start)
  {
    ghost var b := path[..];
    ghost var s := TextAt(b, off);
    start := off;
    TextSplit(b[off..]);
    while path[start] == '/' && path[start + 1] == '/'
      invariant start < path.Length && Ended(b, start)
      invariant |TextAt(b, start)| < path.Length - start
      invariant DropDoubled(TextAt(b, start)) == DropDoubled(s)
      invariant start == off + |s| - |TextAt(b, start)|
      invariant off <= start && forall i :: off <= i < start ==> path[i] == '/'
      invariant start > off ==> path[start] == '/'
      decreases path.Length - start
    {
      NextCharacter(b, start);
      start := start + 1;
    }
    NextCharacter(b, start);
  }

  lemma NextCharacter(b: seq<char>, i: nat)
    requires Ended(b, i) && i < |b|
    ensures |TextAt(b, i)| < |b| - i
    ensures b[i] == '\0' ==> TextAt(b, i) == ""
    ensures b[i] != '\0' ==> i + 1 < |b| && Ended(b, i + 1) && TextAt(b, i) == [b[i]] + TextAt(b, i + 1)
    ensures b[i] != '\0' && TextAt(b, i + 1) != "" ==> TextAt(b, i + 1)[0] == b[i + 1]
    ensures b[i] != '\0' && TextAt(b, i + 1) == "" ==> b[i + 1] == '\0'
  {
    TextSplit(b[i..]);
    if b[i] != '\0' {
      assert b[i..][1..] == b[i + 1..];
      assert b[i..] == [b[i]] + b[i + 1..];
    }
  }
}
