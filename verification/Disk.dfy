/** A directory tree that grows by `mkdir`, and what it means to make every directory on a path. */
module Disk {
  import opened Paths

  /** `denied` are the nodes the system will not let us create (permissions, a full disk); `made`
      lists the directories created so far, in order. */
  datatype Disk = Disk(tree: Tree, denied: set<Node>, made: seq<Node>)

  datatype Result = Result(disk: Disk, ok: bool)

  predicate Exists(t: Tree, n: Node)
  {
    n in t.dirs || n in t.files
  }

  /** Create one directory: it must not exist, its parent must be a directory. */
  function MakeNode(d: Disk, n: Node): Result
  {
    if Exists(d.tree, n) || Parent(n) !in d.tree.dirs || n in d.denied then Result(d, false)
    else Result(d.(tree := d.tree.(dirs := d.tree.dirs + {n}), made := d.made + [n]), true)
  }

  function EnsureNode(d: Disk, n: Node): Result
  {
    if n in d.tree.dirs then Result(d, true) else MakeNode(d, n)
  }

  /** Going down from `at`, make every directory that is missing; stop at the first failure. */
  function MakeSteps(d: Disk, at: Node, names: seq<string>): Result
    decreases |names|
  {
    if names == [] then Result(d, true)
    else
      var r := EnsureNode(d, at + [names[0]]);
      if r.ok then MakeSteps(r.disk, at + [names[0]], names[1..]) else r
  }

  /** How many of the names stand when making them ends. */
  function Stopped(d: Disk, at: Node, names: seq<string>): (j: nat)
    ensures j <= |names|
    decreases |names|
  {
    if names == [] then 0
    else
      var r := EnsureNode(d, at + [names[0]]);
      if r.ok then 1 + Stopped(r.disk, at + [names[0]], names[1..]) else 0
  }

  /** All before it could be made, and it could not. */
  lemma {:induction false} StoppedIs(d: Disk, at: Node, names: seq<string>)
    ensures var j := Stopped(d, at, names); var m := MakeSteps(d, at, names[..j]);
      && m.ok && MakeSteps(d, at, names) == Result(m.disk, j == |names|)
      && (j < |names| ==> EnsureNode(m.disk, at + names[..j + 1]) == Result(m.disk, false))
    decreases |names|
  {
    if names != [] {
      var n := at + [names[0]];
      var r := EnsureNode(d, n);
      var j := Stopped(d, at, names);
      if r.ok {
        StoppedIs(r.disk, n, names[1..]);
        assert names[..j][1..] == names[1..][..j - 1] && names[..j][0] == names[0];
        if j < |names| { assert at + names[..j + 1] == n + names[1..][..j]; }
      } else {
        assert at + names[..1] == n;
      }
    } else {
      assert names[..0] == [];
    }
  }

  lemma {:induction false} StoppedAppend(d: Disk, at: Node, names: seq<string>, last: string)
    ensures Stopped(d, at, names + [last]) >= Stopped(d, at, names)
    ensures Stopped(d, at, names) < |names| ==> Stopped(d, at, names + [last]) == Stopped(d, at, names)
    decreases |names|
  {
    if names != [] {
      var all := names + [last];
      assert all[0] == names[0] && all[1..] == names[1..] + [last];
      var r := EnsureNode(d, at + [names[0]]);
      if r.ok { StoppedAppend(r.disk, at + [names[0]], names[1..], last); }
    }
  }

  // ----- invariants

  lemma MakeNodeValid(d: Disk, n: Node)
    requires ValidTree(d.tree) && ProperNames(n)
    ensures ValidTree(MakeNode(d, n).disk.tree)
  {
    if MakeNode(d, n).ok {
      var t := MakeNode(d, n).disk.tree;
      forall p | p in t.dirs || p in t.files
        ensures Hangs(t, p)
      {
        assert p == n || Hangs(d.tree, p);
      }
    }
  }

  lemma {:induction false} MakeStepsValid(d: Disk, at: Node, names: seq<string>)
    requires ValidTree(d.tree) && ProperNames(at) && ProperNames(names)
    ensures ValidTree(MakeSteps(d, at, names).disk.tree)
    decreases |names|
  {
    if names != [] {
      var n := at + [names[0]];
      assert ProperNames(n);
      MakeNodeValid(d, n);
      MakeStepsValid(EnsureNode(d, n).disk, n, names[1..]);
    }
  }

  lemma {:induction false} MakeStepsAppend(d: Disk, at: Node, names: seq<string>, last: string)
    ensures MakeSteps(d, at, names + [last])
         == var r := MakeSteps(d, at, names);
            if r.ok then EnsureNode(r.disk, at + names + [last]) else r
    decreases |names|
  {
    var all := names + [last];
    if names == [] {
      assert all[1..] == [];
      assert at + names + [last] == at + [all[0]];
    } else {
      var n := at + [names[0]];
      assert all[0] == names[0] && all[1..] == names[1..] + [last];
      assert n + names[1..] + [last] == at + names + [last];
      var r := EnsureNode(d, n);
      if r.ok { MakeStepsAppend(r.disk, n, names[1..], last); }
    }
  }

  // ----- what is made

  /** The prefixes of at + names that are not directories yet, shortest first. */
  function Missing(t: Tree, at: Node, names: seq<string>): seq<Node>
    decreases |names|
  {
    if names == [] then []
    else
      var n := at + [names[0]];
      (if n in t.dirs then [] else [n]) + Missing(t, n, names[1..])
  }

  /** Nothing on the way is a file or a directory we may not create. */
  predicate Makeable(d: Disk, at: Node, names: seq<string>)
    decreases |names|
  {
    names == [] ||
    (var n := at + [names[0]];
     n !in d.tree.files && (n in d.tree.dirs || n !in d.denied) && Makeable(d, n, names[1..]))
  }

  function AsSet(s: seq<Node>): set<Node> { set n | n in s }

  /** The whole effect: it succeeds exactly on makeable paths, and then exactly the missing
      directories are added, every parent before its child. */
  lemma {:induction false} MakeStepsExact(d: Disk, at: Node, names: seq<string>)
    requires at in d.tree.dirs && d.tree.dirs !! d.tree.files
    ensures var r := MakeSteps(d, at, names);
      && r.ok == Makeable(d, at, names)
      && r.disk.tree.files == d.tree.files && r.disk.denied == d.denied
      && (r.ok ==> && r.disk.made == d.made + Missing(d.tree, at, names)
                   && r.disk.tree.dirs == d.tree.dirs + AsSet(Missing(d.tree, at, names))
                   && at + names in r.disk.tree.dirs)
    decreases |names|
  {
    if names == [] {
      assert at + names == at;
    } else {
      var n := at + [names[0]];
      assert Parent(n) == at;
      assert n + names[1..] == at + names;
      var r := EnsureNode(d, n);
      if r.ok {
        MakeStepsExact(r.disk, n, names[1..]);
        SameBelow(d, r.disk, n, names[1..]);
        JoinMissing(d, n, Missing(d.tree, n, names[1..]), MakeSteps(r.disk, n, names[1..]).disk);
      }
    }
  }

  function Prefix(at: Node, names: seq<string>, k: nat): Node
    requires k <= |names|
  {
    at + names[..k]
  }

  lemma PrefixOn(at: Node, names: seq<string>, k: nat)
    requires 0 < k <= |names|
    ensures Prefix(at, names, k) == Prefix(at + [names[0]], names[1..], k - 1)
  {
    assert names[..k] == [names[0]] + names[1..][..k - 1];
  }

  lemma {:induction false} MakeableMeans(d: Disk, at: Node, names: seq<string>)
    requires d.tree.dirs !! d.tree.files
    ensures Makeable(d, at, names) <==> forall k :: 0 < k <= |names| ==>
      var n := Prefix(at, names, k); n in d.tree.dirs || (n !in d.tree.files && n !in d.denied)
    decreases |names|
  {
    if names != [] {
      var n, rest := at + [names[0]], names[1..];
      MakeableMeans(d, n, rest);
      forall k | 0 < k <= |names| ensures Prefix(at, names, k) == Prefix(n, rest, k - 1) { PrefixOn(at, names, k); }
      assert Prefix(n, rest, 0) == n == Prefix(at, names, 1);
      forall k | 0 < k <= |rest| ensures Prefix(n, rest, k) == Prefix(at, names, k + 1) { PrefixOn(at, names, k + 1); }
    }
  }

  lemma {:induction false} MissingMeans(t: Tree, at: Node, names: seq<string>, n: Node)
    ensures n in Missing(t, at, names) <==> n !in t.dirs && exists k :: 0 < k <= |names| && n == Prefix(at, names, k)
    decreases |names|
  {
    if names != [] {
      var m, rest := at + [names[0]], names[1..];
      MissingMeans(t, m, rest, n);
      forall k | 0 < k <= |names| ensures Prefix(at, names, k) == Prefix(m, rest, k - 1) { PrefixOn(at, names, k); }
      assert Prefix(m, rest, 0) == m == Prefix(at, names, 1);
      forall k | 0 < k <= |rest| ensures Prefix(m, rest, k) == Prefix(at, names, k + 1) { PrefixOn(at, names, k + 1); }
    }
  }

  /** The same in terms of the prefixes of the path: it can be made if and only if each is a directory
      already, or neither a file nor refused; then exactly they are added. */
  lemma MakeStepsMeans(d: Disk, at: Node, names: seq<string>)
    requires at in d.tree.dirs && d.tree.dirs !! d.tree.files
    ensures var r := MakeSteps(d, at, names);
      && (r.ok <==> forall k :: 0 < k <= |names| ==>
            var n := Prefix(at, names, k); n in d.tree.dirs || (n !in d.tree.files && n !in d.denied))
      && r.disk.tree.files == d.tree.files && r.disk.denied == d.denied
      && (r.ok ==> forall n :: n in r.disk.tree.dirs <==>
            n in d.tree.dirs || exists k :: 0 < k <= |names| && n == Prefix(at, names, k))
  {
    MakeStepsExact(d, at, names);
    MakeableMeans(d, at, names);
    forall n ensures n in Missing(d.tree, at, names) <==>
      n !in d.tree.dirs && exists k :: 0 < k <= |names| && n == Prefix(at, names, k)
    {
      MissingMeans(d.tree, at, names, n);
    }
  }

  lemma JoinMissing(d: Disk, n: Node, m: seq<Node>, e: Disk)
    ensures var r := EnsureNode(d, n).disk;
      var first := if n in d.tree.dirs then [] else [n];
      EnsureNode(d, n).ok ==>
        && (e.made == r.made + m ==> e.made == d.made + (first + m))
        && (e.tree.dirs == r.tree.dirs + AsSet(m) ==> e.tree.dirs == d.tree.dirs + AsSet(first + m))
  {
  }

  /** Adding a node changes nothing for the longer paths through it. */
  lemma {:induction false} SameBelow(d: Disk, e: Disk, at: Node, names: seq<string>)
    requires e.denied == d.denied && e.tree.files == d.tree.files
    requires forall n :: |n| > |at| ==> (n in e.tree.dirs <==> n in d.tree.dirs)
    ensures Missing(e.tree, at, names) == Missing(d.tree, at, names)
    ensures Makeable(e, at, names) == Makeable(d, at, names)
    decreases |names|
  {
    if names != [] { SameBelow(d, e, at + [names[0]], names[1..]); }
  }

  /** When something on the way is not a directory, nothing is added. */
  lemma NonDirectoryStops(d: Disk, at: Node, names: seq<string>, k: nat)
    requires ValidTree(d.tree) && k < |names| && at + names[..k + 1] in d.tree.files
    ensures MakeSteps(d, at, names) == Result(d, false)
  {
    forall j | 0 < j <= k ensures at + names[..j] in d.tree.dirs {
      AboveFile(d.tree, at, names, j, k);
    }
    StopsAtFile(d, at, names, k);
  }

  lemma AboveFile(t: Tree, at: Node, names: seq<string>, j: nat, k: nat)
    requires ValidTree(t) && j <= k < |names| && at + names[..k + 1] in t.files
    ensures at + names[..j] in t.dirs
  {
    var f := at + names[..k + 1];
    assert Hangs(t, f);
    Ancestor(t, Parent(f), |at| + j);
    assert Parent(f)[..|at| + j] == at + names[..j];
  }

  lemma {:induction false} StopsAtFile(d: Disk, at: Node, names: seq<string>, k: nat)
    requires k < |names| && at + names[..k + 1] in d.tree.files && d.tree.dirs !! d.tree.files
    requires forall j :: 0 < j <= k ==> at + names[..j] in d.tree.dirs
    ensures MakeSteps(d, at, names) == Result(d, false)
    decreases |names|
  {
    var n := at + [names[0]];
    assert names[..1] == [names[0]];
    if k > 0 {
      assert n + names[1..][..k] == at + names[..k + 1];
      forall j | 0 < j <= k - 1 ensures n + names[1..][..j] in d.tree.dirs {
        assert n + names[1..][..j] == at + names[..j + 1];
      }
      StopsAtFile(d, n, names[1..], k - 1);
    }
  }
}
