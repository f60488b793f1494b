/** `relatepaths`: a relative path from one absolute directory to another. */
module Relate {
  import opened CText
  import opened PathSub

  // ----- what it writes

  function CommonPrefix(a: string, b: string): (n: nat)
    ensures n <= |a| && n <= |b| && a[..n] == b[..n]
    ensures n == |a| || n == |b| || a[n] != b[n]
  {
    if a == "" || b == "" || a[0] != b[0] then 0 else 1 + CommonPrefix(a[1..], b[1..])
  }

  lemma PrefixIsCommon(a: string, b: string, n: nat)
    requires n <= |a| && n <= |b| && a[..n] == b[..n]
    requires n == |a| || n == |b| || a[n] != b[n]
    ensures CommonPrefix(a, b) == n
  {
    var m := CommonPrefix(a, b);
    PrefixAt(a, b, n);
    PrefixAt(a, b, m);
  }

  lemma PrefixAt(a: string, b: string, n: nat)
    requires n <= |a| && n <= |b| && a[..n] == b[..n]
    ensures forall i :: 0 <= i < n ==> a[i] == b[i]
  {
  }

  /** The length of the common part, backed up to a component boundary. */
  function CommonDir(from: string, to: string): (k: nat)
    requires from != "" && to != "" && from[0] == '/' && to[0] == '/'
    ensures 1 <= k <= |from| && k <= |to| && from[..k] == to[..k] && to[k - 1] == '/'
  {
    var p := to[..CommonPrefix(from, to)];
    var k := LastIndex(p, '/') + 1;
    assert from[..k] == from[..|p|][..k];
    k
  }

  /** No longer common part ends in a slash. */
  lemma CommonDirLongest(from: string, to: string, j: nat)
    requires from != "" && to != "" && from[0] == '/' && to[0] == '/'
    requires CommonDir(from, to) < j <= |from| && j <= |to| && from[..j] == to[..j]
    ensures to[j - 1] != '/'
  {
    PrefixWithin(from, to, j);
    assert to[..CommonPrefix(from, to)][j - 1] == to[j - 1];
  }

  lemma PrefixWithin(a: string, b: string, j: nat)
    requires j <= |a| && j <= |b| && a[..j] == b[..j]
    ensures j <= CommonPrefix(a, b)
  {
    PrefixAt(a, b, j);
  }

  /** n steps up. */
  function Ups(n: nat): string
  {
    if n == 0 then "" else "../" + Ups(n - 1)
  }

  function RelateText(from: string, to: string): string
    requires from != "" && to != "" && from[0] == '/' && to[0] == '/'
  {
    var k := CommonDir(from, to);
    if k == 1 then to + "/"
    else Ups(|Components(from[k..])|) + Emit(Components(to[k..]))
  }

  predicate ComponentsFit(s: string)
  {
    forall c :: c in Components(s) ==> |c| < NAME_MAX
  }

  lemma FitStep(s: string)
    requires ComponentsFit(s) && s != ""
    ensures |Component(s)| < NAME_MAX && ComponentsFit(Rest(s))
  {
  }

  // ----- the routine

  method RelatePaths(from: string, to: string, outpath: array<char>) returns (len: nat)
    requires from != "" && to != "" && from[0] == '/' && to[0] == '/'
    requires NulFree(from) && NulFree(to)
    requires ComponentsFit(from[CommonDir(from, to)..]) && ComponentsFit(to[CommonDir(from, to)..])
    requires |RelateText(from, to)| < outpath.Length
    modifies outpath
    ensures len == |RelateText(from, to)| && outpath[..len] == RelateText(from, to)
    ensures len > 0 ==> outpath[len] == '\0'
  {
    var cp := BackUp(from, to);
    var cp2 := cp;
    if cp - 1 == 0 {
      // nothing in common but the first slash
      len := WriteWhole(to, outpath);
    } else {
      len := WriteUps(from, cp2, outpath);
      len := WriteDowns(to, cp, len, outpath);
    }
  }

  method WriteWhole(to: string, outpath: array<char>) returns (len: nat)
    requires |to| + 1 < outpath.Length
    modifies outpath
    ensures len == |to| + 1 && outpath[..len] == to + "/" && outpath[len] == '\0'
  {
    len := Append(outpath, 0, to);
    ghost var before := outpath[..len];
    if outpath[len] != '/' { // always: this is the terminator
      outpath[len] := '/';
      len := len + 1;
      outpath[len] := '\0';
    }
    assert outpath[..len] == before + "/";
  }

  /** Write a piece at the end of the text and move the end behind it. */
  method Append(outpath: array<char>, at: nat, piece: string) returns (len: nat)
    requires at + |piece| < outpath.Length
    modifies outpath
    ensures len == at + |piece|
    ensures outpath[..len] == old(outpath[..at]) + piece && outpath[len] == '\0'
  {
    Strcpy(outpath, at, piece);
    len := at + |piece|;
    ghost var all := outpath[..];
    assert outpath[..len] == all[..len];
  }

  method BackUp(from: string, to: string) returns (cp: nat)
    requires from != "" && to != "" && from[0] == '/' && to[0] == '/'
    requires NulFree(from) && NulFree(to)
    ensures cp == CommonDir(from, to)
    ensures 1 <= cp <= |from| && cp <= |to| && from[..cp] == to[..cp] && to[cp - 1] == '/'
    ensures forall j :: cp < j <= |from| && j <= |to| && from[..j] == to[..j] ==> to[j - 1] != '/'
  {
    cp := 0;
    while At(to, cp) == At(from, cp)
      invariant cp <= |to| && cp <= |from| && to[..cp] == from[..cp]
      decreases |to| - cp
    {
      if At(to, cp) == '\0' {
        break;
      }
      cp := cp + 1;
    }
    PrefixIsCommon(from, to, cp);
    while to[cp - 1] != '/'
      invariant 1 <= cp <= |to|
      invariant LastIndex(to[..cp], '/') + 1 == CommonDir(from, to)
      decreases cp
    {
      assert to[..cp][..cp - 1] == to[..cp - 1];
      cp := cp - 1;
    }
    forall j | cp < j <= |from| && j <= |to| && from[..j] == to[..j] ensures to[j - 1] != '/' {
      CommonDirLongest(from, to, j);
    }
  }

  /** One "../" for every component of the rest of `from`. */
  method WriteUps(from: string, start: nat, outpath: array<char>) returns (len: nat)
    requires start <= |from| && NulFree(from) && ComponentsFit(from[start..])
    requires |Ups(|Components(from[start..])|)| < outpath.Length
    modifies outpath
    ensures len == |Ups(|Components(from[start..])|)| && outpath[..len] == Ups(|Components(from[start..])|)
    ensures len > 0 ==> outpath[len] == '\0'
  {
    ghost var all := Ups(|Components(from[start..])|);
    var buf := new char[NAME_MAX];
    len := 0;
    var cp2 := start;
    var found := true;
    while found
      invariant cp2 <= |from| && ComponentsFit(from[cp2..])
      invariant len <= outpath.Length && outpath[..len] + Ups(|Components(from[cp2..])|) == all
      invariant !found ==> cp2 == |from|
      invariant 0 < len < outpath.Length ==> outpath[len] == '\0'
      decreases |from| - cp2, found
    {
      ghost var s := from[cp2..];
      if s != "" { FitStep(s); }
      var next: nat;
      found, next := GetComponent(from, cp2, buf);
      if found {
        UpsHead(s);
        ghost var rest := Ups(|Components(Rest(s))|);
        len := WriteUp(outpath, len, rest, all);
        cp2 := next;
      }
    }
    assert from[cp2..] == "";
  }

  lemma UpsHead(s: string)
    requires s != ""
    ensures Ups(|Components(s)|) == "../" + Ups(|Components(Rest(s))|)
  {
  }

  method WriteUp(outpath: array<char>, at: nat, ghost rest: string, ghost all: string) returns (len: nat)
    requires at <= outpath.Length && |all| < outpath.Length
    requires outpath[..at] + ("../" + rest) == all
    modifies outpath
    ensures at < len < outpath.Length && outpath[len] == '\0'
    ensures outpath[..len] + rest == all
  {
    Regroup(outpath[..at], "../", rest);
    len := Append(outpath, at, "../");
  }

  lemma Regroup(a: string, b: string, c: string)
    ensures (a + b) + c == a + (b + c)
  {
  }

  /** Every component of the rest of `to`, each with a slash. */
  method WriteDowns(to: string, start: nat, at: nat, outpath: array<char>) returns (len: nat)
    requires start <= |to| && NulFree(to) && ComponentsFit(to[start..])
    requires at + |Emit(Components(to[start..]))| < outpath.Length
    requires at > 0 ==> outpath[at] == '\0'
    modifies outpath
    ensures len == at + |Emit(Components(to[start..]))|
    ensures outpath[..len] == old(outpath[..at]) + Emit(Components(to[start..]))
    ensures len > 0 ==> outpath[len] == '\0'
  {
    ghost var all := outpath[..at] + Emit(Components(to[start..]));
    var buf := new char[NAME_MAX];
    len := at;
    var cp := start;
    var found := true;
    while found
      invariant cp <= |to| && ComponentsFit(to[cp..])
      invariant len <= |all| && outpath[..len] + Emit(Components(to[cp..])) == all
      invariant !found ==> cp == |to|
      invariant len > 0 ==> outpath[len] == '\0'
      decreases |to| - cp, found
    {
      ghost var s := to[cp..];
      if s != "" { FitStep(s); }
      var next: nat;
      found, next := GetComponent(to, cp, buf);
      if found {
        EmitHead(s);
        var piece := Text(buf[..]) + "/";
        Regroup(outpath[..len], piece, Emit(Components(Rest(s))));
        len := Append(outpath, len, piece);
        cp := next;
      }
    }
    assert to[cp..] == "";
  }
}
