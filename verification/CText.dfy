/** NUL-terminated text in character buffers. */
module CText {

  predicate NulFree(s: string) { '\0' !in s }

  /** The C string that starts where s does. */
  function Text(s: seq<char>): (r: string)
    ensures NulFree(r)
    ensures |r| <= |s|
  {
    if s == [] || s[0] == '\0' then [] else [s[0]] + Text(s[1..])
  }

  lemma {:induction false} TextUpTo(s: seq<char>, k: nat)
    requires k < |s| && s[k] == '\0' && NulFree(s[..k])
    ensures Text(s) == s[..k]
  {
    if k > 0 {
      assert s[..k][0] == s[0] && s[1..][..k - 1] == s[..k][1..];
      assert s[0] in s[..k];
      TextUpTo(s[1..], k - 1);
      assert s[..k] == [s[0]] + s[1..][..k - 1];
    }
  }

  /** The buffer holds a terminated text: it is the text, a NUL, and whatever follows. */
  lemma {:induction false} TextSplit(s: seq<char>)
    requires '\0' in s
    ensures |Text(s)| < |s| && s[..|Text(s)|] == Text(s) && s[|Text(s)|] == '\0'
  {
    if s[0] != '\0' {
      TextSplit(s[1..]);
    }
  }

  /** Writing a NUL cuts the text. */
  lemma CutText(s: seq<char>, k: nat)
    requires k < |Text(s)|
    ensures Text(s[k := '\0']) == Text(s)[..k]
  {
    TextPrefix(s);
    assert s[k := '\0'][..k] == Text(s)[..k];
    TextUpTo(s[k := '\0'], k);
  }

  lemma {:induction false} TextPrefix(s: seq<char>)
    ensures s[..|Text(s)|] == Text(s)
  {
    if s != [] && s[0] != '\0' {
      TextPrefix(s[1..]);
    }
  }

  /** A C string read at index i, its terminator included. */
  function At(s: string, i: nat): char
    requires i <= |s|
  {
    if i < |s| then s[i] else '\0'
  }

  /** `strcpy(dst + at, src)`. */
  method Strcpy(dst: array<char>, at: nat, src: string)
    requires at + |src| < dst.Length
    modifies dst
    ensures dst[..] == old(dst[..at]) + src + ['\0'] + old(dst[at + |src| + 1..])
  {
    var i := 0;
    while i < |src|
      invariant 0 <= i <= |src|
      invariant dst[..at] == old(dst[..at])
      invariant dst[at..at + i] == src[..i]
      invariant dst[at + |src| + 1..] == old(dst[at + |src| + 1..])
    {
      dst[at + i] := src[i];
      i := i + 1;
    }
    dst[at + i] := '\0';
  }

  /** End the text that starts at `off` at its position k. */
  method Cut(path: array<char>, off: nat, k: nat)
    requires off <= path.Length && '\0' in path[off..] && k < |Text(path[off..])|
    modifies path
    ensures path[off..] == old(path[off..])[k := '\0'] && path[..off] == old(path[..off])
    ensures '\0' in path[off..] && Text(path[off..]) == old(Text(path[off..]))[..k]
  {
    CutText(path[off..], k);
    ghost var b := path[off..];
    path[off + k] := '\0';
    assert path[off..] == b[k := '\0'];
    assert path[off..][k] == '\0';
  }

  /** The last position of c, or -1. */
  function LastIndex(s: string, c: char): (r: int)
    ensures -1 <= r < |s|
    ensures r >= 0 ==> s[r] == c
    ensures forall j :: r < j < |s| ==> s[j] != c
  {
    if s == "" then -1
    else if s[|s| - 1] == c then |s| - 1
    else LastIndex(s[..|s| - 1], c)
  }

  lemma LastIndexIs(s: string, c: char, r: int)
    requires -1 <= r < |s| && (r >= 0 ==> s[r] == c)
    requires forall j :: r < j < |s| ==> s[j] != c
    ensures LastIndex(s, c) == r
  {
  }

  /** `strrchr(path, sep)` on the text that starts at `off`; the index is relative to `off`. */
  method Strrchr(path: array<char>, off: nat, sep: char) returns (r: int)
    requires off <= path.Length && '\0' in path[off..]
    ensures r == LastIndex(Text(path[off..]), sep)
    ensures off + |Text(path[off..])| < path.Length
  {
    ghost var s := Text(path[off..]);
    TextSplit(path[off..]);
    r := -1;
    var i := 0;
    while path[off + i] != '\0'
      invariant 0 <= i <= |s|
      invariant -1 <= r < i
      invariant r >= 0 ==> s[r] == sep
      invariant forall j :: r < j < i ==> s[j] != sep
      decreases |s| - i
    {
      assert path[off + i] == path[off..][i] == s[i];
      if path[off + i] == sep {
        r := i;
      }
      i := i + 1;
    }
    TextNoNul(path[off..], i);
    LastIndexIs(s, sep, r);
  }

  lemma TextNoNul(b: seq<char>, i: nat)
    requires '\0' in b && i <= |Text(b)| && i < |b| && b[i] == '\0'
    ensures i == |Text(b)|
  {
    TextSplit(b);
    assert forall j :: 0 <= j < |Text(b)| ==> Text(b)[j] in Text(b);
  }
}
