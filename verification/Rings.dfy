/** Circular doubly linked lists: a list is a sentinel link, and every edit is a splice of four
    pointers. */
module Rings {

  class Link {
    var next: Link?
    var prev: Link?
    var thing: object?

    constructor (thing: object?)
      ensures this.thing == thing
    {
      this.thing := thing;
    }
  }

  ghost function After(r: seq<Link>, i: nat): Link
    requires i < |r|
  {
    if i + 1 < |r| then r[i + 1] else r[0]
  }

  ghost function Before(r: seq<Link>, i: nat): Link
    requires i < |r|
  {
    if i > 0 then r[i - 1] else r[|r| - 1]
  }

  /** Distinct links in a circle, the sentinel first; `prev` undoes `next`. */
  ghost predicate Cycle(r: seq<Link>)
    reads r
  {
    && |r| > 0
    && (forall i, j :: 0 <= i < j < |r| ==> r[i] != r[j])
    && (forall i :: 0 <= i < |r| ==> r[i].next == After(r, i) && r[i].prev == Before(r, i))
  }

  // ----- the macros

  method InitList(lst: Link)
    modifies lst
    ensures Cycle([lst]) && lst.thing == null
  {
    lst.next := lst;
    lst.prev := lst;
    lst.thing := null;
  }

  method AppendLink(lst: Link, lnk: Link, ghost r: seq<Link>)
    requires Cycle(r) && r[0] == lst && lnk !in r
    modifies lnk`next, lnk`prev, lst`prev, lst.prev`next
    ensures Cycle(r + [lnk])
  {
    lnk.next := lst;
    lnk.prev := lst.prev;
    lst.prev.next := lnk;
    lst.prev := lnk;
    ghost var e := r + [lnk];
    forall i | 0 <= i < |e|
      ensures e[i].next == After(e, i) && e[i].prev == Before(e, i)
    {
      NeighboursBefore(r, lnk, i);
    }
  }

  /** The new link stands between the old tail and the sentinel; all others keep their neighbours. */
  lemma NeighboursBefore(r: seq<Link>, x: Link, i: nat)
    requires |r| > 0 && i <= |r|
    ensures var e := r + [x];
      && e[i] == (if i < |r| then r[i] else x)
      && After(e, i) == (if i + 1 == |r| then x else if i == |r| then r[0] else After(r, i))
      && Before(e, i) == (if i == 0 then x else if i == |r| then r[|r| - 1] else Before(r, i))
  {
  }

  method InsertLink(lst: Link, lnk: Link, ghost r: seq<Link>)
    requires Cycle(r) && r[0] == lst && lnk !in r
    modifies lnk`next, lnk`prev, lst`next, lst.next`prev
    ensures Cycle([lst, lnk] + r[1..])
  {
    lnk.next := lst.next;
    lnk.prev := lst;
    lst.next.prev := lnk;
    lst.next := lnk;
    ghost var e := [lst, lnk] + r[1..];
    forall i | 0 <= i < |e|
      ensures e[i].next == After(e, i) && e[i].prev == Before(e, i)
    {
      NeighboursWith(r, lnk, i);
    }
  }

  /** The new link stands between the sentinel and the old head; all others keep their neighbours. */
  lemma NeighboursWith(r: seq<Link>, x: Link, i: nat)
    requires |r| > 0 && i <= |r|
    ensures var e := [r[0], x] + r[1..];
      && e[i] == (if i == 1 then x else r[if i == 0 then 0 else i - 1])
      && After(e, i) == (if i == 0 then x else After(r, i - 1))
      && Before(e, i) == (if i == 1 then r[0] else if i == 2 || (i == 0 && |r| == 1) then x
                          else Before(r, if i == 0 then 0 else i - 1))
  {
  }

  /** The list is not an argument: the neighbours are found through the link itself. */
  method RemoveLink(lnk: Link, ghost r: seq<Link>, ghost k: nat)
    requires Cycle(r) && 0 < k < |r| && r[k] == lnk
    modifies lnk`next, lnk`prev, lnk.next`prev, lnk.prev`next
    ensures Cycle(Without(r, k)) && lnk.next == null && lnk.prev == null
  {
    lnk.next.prev := lnk.prev;
    lnk.prev.next := lnk.next;
    lnk.next := null;
    lnk.prev := null;
    ghost var e := Without(r, k);
    forall i | 0 <= i < |e|
      ensures e[i].next == After(e, i) && e[i].prev == Before(e, i)
    {
      NeighboursWithout(r, k, i);
      ghost var j := if i < k then i else i + 1;
      assert e[i] == r[j] && r[j] != lnk;
    }
  }

  ghost function Without(r: seq<Link>, k: nat): (e: seq<Link>)
    requires 0 < k < |r|
    ensures |e| == |r| - 1
    ensures forall i :: 0 <= i < |e| ==> e[i] == r[if i < k then i else i + 1]
  {
    r[..k] + r[k + 1..]
  }

  /** Taking r[k] out makes its neighbours each other's neighbours and nobody else's. */
  lemma NeighboursWithout(r: seq<Link>, k: nat, i: nat)
    requires 0 < k < |r| && i < |r| - 1
    ensures var e, j := Without(r, k), if i < k then i else i + 1;
      && e[i] == r[j]
      && After(e, i) == (if j + 1 == k then After(r, k) else After(r, j))
      && Before(e, i) == (if j == (if k + 1 < |r| then k + 1 else 0) then Before(r, k) else Before(r, j))
  {
  }

  method ListEmpty(lst: Link, ghost r: seq<Link>) returns (empty: bool)
    requires Cycle(r) && r[0] == lst
    ensures empty <==> |r| == 1
  {
    empty := lst.next == lst;
  }

  /** From the head along `next` until the sentinel comes round. */
  method Traverse(lst: Link, ghost r: seq<Link>) returns (visited: seq<Link>)
    requires Cycle(r) && r[0] == lst
    ensures visited == r[1..]
  {
    visited := [];
    var lnk := lst.next;
    ghost var i := 1;
    while lnk != lst
      invariant 1 <= i <= |r| && visited == r[1..i]
      invariant lnk == if i < |r| then r[i] else r[0]
      decreases |r| - i
    {
      assert r[1..i + 1] == r[1..i] + [r[i]];
      visited := visited + [lnk];
      lnk := lnk.next;
      i := i + 1;
    }
  }

  /** From the tail along `prev`: the same links in reverse. */
  method TraverseBack(lst: Link, ghost r: seq<Link>) returns (visited: seq<Link>)
    requires Cycle(r) && r[0] == lst
    ensures visited == Backwards(r[1..])
  {
    visited := [];
    var lnk := lst.prev;
    ghost var i := |r| - 1;
    assert r[1..i + 1] == r[1..];
    while lnk != lst
      invariant 0 <= i < |r| && lnk == r[i]
      invariant visited + Backwards(r[1..i + 1]) == Backwards(r[1..])
      decreases i
    {
      BackOne(visited, r, i);
      visited := visited + [lnk];
      lnk := lnk.prev;
      i := i - 1;
    }
  }

  ghost function Backwards(s: seq<Link>): seq<Link>
  {
    if s == [] then [] else Backwards(s[1..]) + [s[0]]
  }

  lemma {:induction false} BackwardsSnoc(s: seq<Link>, x: Link)
    ensures Backwards(s + [x]) == [x] + Backwards(s)
  {
    if s == [] {
      assert (s + [x])[1..] == [];
    } else {
      assert (s + [x])[1..] == s[1..] + [x];
      BackwardsSnoc(s[1..], x);
    }
  }

  lemma BackOne(visited: seq<Link>, r: seq<Link>, i: nat)
    requires 0 < i < |r|
    ensures visited + Backwards(r[1..i + 1]) == visited + [r[i]] + Backwards(r[1..i])
  {
    assert r[1..i + 1] == r[1..i] + [r[i]];
    BackwardsSnoc(r[1..i], r[i]);
  }

  lemma TakenRing(s: Link, c: seq<Link>, k: nat)
    requires k < |c|
    ensures [s] + (c[..k] + c[k + 1..]) == Without([s] + c, k + 1)
    ensures forall y :: y in Without([s] + c, k + 1) ==> y in [s] + c
  {
  }

  lemma InsertedRing(s: Link, c: seq<Link>, x: Link)
    ensures [s] + ([x] + c) == [s, x] + ([s] + c)[1..]
    ensures forall y :: y in [s] + ([x] + c) ==> y in [s] + c || y == x
  {
  }

  // ----- any number of lists

  datatype Op = Append(list: nat, x: Link) | Insert(list: nat, x: Link) | Remove(x: Link)

  /** Where a link stands. */
  ghost predicate StandsAt(c: seq<seq<Link>>, list: nat, k: nat, x: Link)
  {
    list < |c| && k < |c[list]| && c[list][k] == x
  }

  ghost predicate Linked(c: seq<seq<Link>>, x: Link)
  {
    exists list: nat, k: nat :: StandsAt(c, list, k, x)
  }

  /** A link may be added when it is in no list, and removed when it is in one. */
  ghost predicate Legal(c: seq<seq<Link>>, op: Op)
  {
    match op
    case Append(l, x) => l < |c| && !Linked(c, x)
    case Insert(l, x) => l < |c| && !Linked(c, x)
    case Remove(x) => Linked(c, x)
  }

  ghost function Apply(c: seq<seq<Link>>, op: Op): (c': seq<seq<Link>>)
    requires Legal(c, op)
    ensures |c'| == |c|
  {
    match op
    case Append(l, x) => c[l := c[l] + [x]]
    case Insert(l, x) => c[l := [x] + c[l]]
    case Remove(x) =>
      var l: nat, k: nat :| StandsAt(c, l, k, x);
      c[l := c[l][..k] + c[l][k + 1..]]
  }

  ghost predicate AllLegal(c: seq<seq<Link>>, ops: seq<Op>)
    decreases |ops|
  {
    ops == [] || (Legal(c, ops[0]) && AllLegal(Apply(c, ops[0]), ops[1..]))
  }

  ghost function ApplyAll(c: seq<seq<Link>>, ops: seq<Op>): seq<seq<Link>>
    requires AllLegal(c, ops)
    decreases |ops|
  {
    if ops == [] then c else ApplyAll(Apply(c, ops[0]), ops[1..])
  }

  // ----- what runs leave

  function Appends(l: nat, xs: seq<Link>): seq<Op>
  {
    if xs == [] then [] else [Append(l, xs[0])] + Appends(l, xs[1..])
  }

  /** Appending links one by one leaves them in order at the end of their list. */
  lemma {:induction false} AppendsInOrder(c: seq<seq<Link>>, l: nat, xs: seq<Link>)
    requires l < |c| && (forall i, j :: 0 <= i < j < |xs| ==> xs[i] != xs[j]) && forall x :: x in xs ==> !Linked(c, x)
    ensures AllLegal(c, Appends(l, xs)) && ApplyAll(c, Appends(l, xs)) == c[l := c[l] + xs]
    decreases |xs|
  {
    if xs == [] {
      assert c[l] + [] == c[l];
    } else {
      var c' := c[l := c[l] + [xs[0]]];
      forall x | x in xs[1..] ensures !Linked(c', x) {
        var i :| 0 <= i < |xs[1..]| && xs[1..][i] == x;
        assert xs[i + 1] == x && x in xs;
        AppendedOnly(c, l, xs[0], x);
      }
      AppendsInOrder(c', l, xs[1..]);
      assert Appends(l, xs)[1..] == Appends(l, xs[1..]);
      assert (c[l] + [xs[0]]) + xs[1..] == c[l] + xs;
    }
  }

  lemma AppendedOnly(c: seq<seq<Link>>, l: nat, y: Link, x: Link)
    requires l < |c| && x != y && !Linked(c, x)
    ensures !Linked(c[l := c[l] + [y]], x)
  {
    var c' := c[l := c[l] + [y]];
    if Linked(c', x) {
      var m: nat, k: nat :| StandsAt(c', m, k, x);
      assert StandsAt(c, m, k, x);
    }
  }

  /** Removing a link that was just added, at either end, undoes the addition. */
  lemma RemoveUndoes(c: seq<seq<Link>>, l: nat, x: Link)
    requires l < |c| && !Linked(c, x)
    ensures var a, b := c[l := c[l] + [x]], c[l := [x] + c[l]];
      && Linked(a, x) && Apply(a, Remove(x)) == c
      && Linked(b, x) && Apply(b, Remove(x)) == c
  {
    var a, b := c[l := c[l] + [x]], c[l := [x] + c[l]];
    assert StandsAt(a, l, |c[l]|, x) && StandsAt(b, l, 0, x);
    forall m: nat, k: nat | StandsAt(a, m, k, x) ensures m == l && k == |c[l]| {
      assert !(m == l && k == |c[l]|) ==> StandsAt(c, m, k, x);
    }
    forall m: nat, k: nat | StandsAt(b, m, k, x) ensures m == l && k == 0 {
      assert m != l ==> StandsAt(c, m, k, x);
      assert m == l && k > 0 ==> StandsAt(c, m, k - 1, x);
    }
    assert a[l][..|c[l]|] + a[l][|c[l]| + 1..] == c[l] && b[l][..0] + b[l][1..] == c[l];
    assert a[l := c[l]] == c && b[l := c[l]] == c;
  }

  ghost function IndexOf(s: seq<Link>, x: Link): (i: nat)
    requires x in s
    ensures i < |s| && s[i] == x
  {
    var i :| 0 <= i < |s| && s[i] == x;
    i
  }

  /** The rings other than ring l are well formed and have no link in common with it or with x. */
  ghost predicate Others(pool: set<Link>, rings: seq<seq<Link>>, l: nat, x: Link)
    reads pool
  {
    l < |rings| &&
    forall m :: 0 <= m < |rings| && m != l ==>
      (forall y :: y in rings[m] ==> y in pool && y !in rings[l] && y != x) && Cycle(rings[m])
  }

  ghost predicate Numbered(owner: map<Link, nat>, rings: seq<seq<Link>>, l: nat)
  {
    forall m :: 0 <= m < |rings| && m != l ==> forall y :: y in rings[m] ==> y in owner && owner[y] == m
  }

  method AppendAmong(lnk: Link, ghost pool: set<Link>, ghost rings: seq<seq<Link>>, ghost l: nat, lst: Link)
    requires Others(pool, rings, l, lnk) && Cycle(rings[l]) && rings[l][0] == lst && lnk !in rings[l]
    modifies lnk`next, lnk`prev, lst`prev, lst.prev`next
    ensures Cycle(rings[l] + [lnk]) && Others(pool, rings, l, lnk)
  {
    assert lst in rings[l] && lst.prev in rings[l];
    AppendLink(lst, lnk, rings[l]);
  }

  method InsertAmong(lnk: Link, ghost pool: set<Link>, ghost rings: seq<seq<Link>>, ghost l: nat, lst: Link)
    requires Others(pool, rings, l, lnk) && Cycle(rings[l]) && rings[l][0] == lst && lnk !in rings[l]
    modifies lnk`next, lnk`prev, lst`next, lst.next`prev
    ensures Cycle([lst, lnk] + rings[l][1..]) && Others(pool, rings, l, lnk)
  {
    assert lst in rings[l] && After(rings[l], 0) in rings[l];
    InsertLink(lst, lnk, rings[l]);
  }

  method RemoveAmong(lnk: Link, ghost pool: set<Link>, ghost rings: seq<seq<Link>>, ghost l: nat, ghost k: nat)
    requires Others(pool, rings, l, lnk) && Cycle(rings[l]) && 0 < k < |rings[l]| && rings[l][k] == lnk
    modifies lnk`next, lnk`prev, lnk.next`prev, lnk.prev`next
    ensures Cycle(Without(rings[l], k)) && lnk.next == null && lnk.prev == null && Others(pool, rings, l, lnk)
  {
    assert After(rings[l], k) in rings[l] && Before(rings[l], k) in rings[l];
    RemoveLink(lnk, rings[l], k);
  }

  /** Several lists over one pool of links. `owner` numbers the list a link is in, so that no link is
      in two. */
  class Lists {
    const sentinels: seq<Link>
    ghost const pool: set<Link>
    ghost var contents: seq<seq<Link>>
    ghost var owner: map<Link, nat>

    /** Every list is initialised empty. */
    constructor (sentinels: seq<Link>, ghost pool: set<Link>)
      requires forall i, j :: 0 <= i < j < |sentinels| ==> sentinels[i] != sentinels[j]
      requires forall x :: x in sentinels ==> x in pool
      modifies sentinels
      ensures Valid() && this.sentinels == sentinels && this.pool == pool
      ensures forall l :: 0 <= l < |contents| ==> contents[l] == []
    {
      this.sentinels := sentinels;
      this.pool := pool;
      contents := seq(|sentinels|, _ => []);
      owner := map x | x in sentinels :: IndexOf(sentinels, x);
      new;
      for i := 0 to |sentinels|
        invariant forall l :: 0 <= l < i ==> Cycle([sentinels[l]])
        modifies sentinels
      {
        InitList(sentinels[i]);
      }
    }

    ghost function RingOf(l: nat): seq<Link>
      requires l < |sentinels| && l < |contents|
      reads this
    {
      [sentinels[l]] + contents[l]
    }

    ghost predicate Owned(l: nat)
      requires l < |sentinels| && l < |contents|
      reads this
    {
      forall x :: x in RingOf(l) ==> x in pool && x in owner && owner[x] == l
    }

    ghost predicate Valid()
      reads this, pool
    {
      && |contents| == |sentinels|
      && (forall l :: 0 <= l < |sentinels| ==> Owned(l) && Cycle(RingOf(l)))
    }

    /** Free links of the pool: neither sentinels nor in a list. */
    ghost predicate Free(x: Link)
      reads this
    {
      x in pool && x !in sentinels && !Linked(contents, x)
    }

    lemma InPool(l: nat)
      requires Valid() && l < |sentinels|
      ensures forall x :: x in RingOf(l) ==> x in pool
      ensures Cycle(RingOf(l)) && sentinels[l] == RingOf(l)[0]
      ensures sentinels[l].prev == RingOf(l)[|RingOf(l)| - 1] && sentinels[l].next in RingOf(l)
    {
    }

    lemma Apart(l: nat, m: nat)
      requires Valid() && l < |sentinels| && m < |sentinels| && l != m
      ensures forall x :: x in RingOf(m) ==> x !in RingOf(l)
    {
    }

    lemma NotInRings(x: Link)
      requires Valid() && x !in sentinels && !Linked(contents, x)
      ensures forall l :: 0 <= l < |sentinels| ==> x !in RingOf(l)
    {
      forall l | 0 <= l < |sentinels| ensures x !in RingOf(l) {
        if x in contents[l] {
          var k :| 0 <= k < |contents[l]| && contents[l][k] == x;
          assert StandsAt(contents, l, k, x);
        }
      }
    }

    lemma AllRings(l: nat, x: Link) returns (rings: seq<seq<Link>>)
      requires Valid() && l < |sentinels|
      requires forall m :: 0 <= m < |sentinels| && m != l ==> x !in RingOf(m)
      ensures |rings| == |sentinels| && forall m :: 0 <= m < |sentinels| ==> rings[m] == RingOf(m)
      ensures Others(pool, rings, l, x) && Numbered(owner, rings, l)
    {
      var s, c := sentinels, contents;
      rings := seq(|s|, m requires 0 <= m < |s| && m < |c| => [s[m]] + c[m]);
      assert forall m :: 0 <= m < |s| ==> rings[m] == RingOf(m);
      forall m | 0 <= m < |sentinels| && m != l ensures Owned(m) { Apart(l, m); }
    }

    /** After an edit of ring l, the untouched rings and the new one make a valid state. */
    lemma Reassemble(rings: seq<seq<Link>>, before: map<Link, nat>, l: nat, x: Link)
      requires |contents| == |sentinels| == |rings| && l < |rings|
      requires Others(pool, rings, l, x) && Numbered(before, rings, l)
      requires owner == before || owner == before[x := l]
      requires forall m :: 0 <= m < |rings| && m != l ==> RingOf(m) == rings[m]
      requires Owned(l) && Cycle(RingOf(l))
      ensures Valid()
    {
    }

    method DoAppend(l: nat, x: Link)
      requires Valid() && l < |sentinels| && Free(x)
      modifies this`contents, this`owner, pool
      ensures Valid() && contents == Apply(old(contents), Append(l, x))
      ensures contents == old(contents)[l := old(contents)[l] + [x]]
      ensures Cycle([sentinels[l]] + (old(contents)[l] + [x]))
    {
      NotInRings(x);
      ghost var r := RingOf(l);
      InPool(l);
      ghost var rings := AllRings(l, x);
      AppendAmong(x, pool, rings, l, sentinels[l]);
      contents := contents[l := contents[l] + [x]];
      owner := owner[x := l];
      assert RingOf(l) == r + [x];
      assert Owned(l);
      Reassemble(rings, old(owner), l, x);
    }

    method DoInsert(l: nat, x: Link)
      requires Valid() && l < |sentinels| && Free(x)
      modifies this`contents, this`owner, pool
      ensures Valid() && contents == Apply(old(contents), Insert(l, x))
      ensures contents == old(contents)[l := [x] + old(contents)[l]]
      ensures Cycle([sentinels[l]] + ([x] + old(contents)[l]))
    {
      NotInRings(x);
      ghost var r := RingOf(l);
      InPool(l);
      ghost var rings := AllRings(l, x);
      InsertedRing(sentinels[l], contents[l], x);
      InsertAmong(x, pool, rings, l, sentinels[l]);
      contents := contents[l := [x] + contents[l]];
      owner := owner[x := l];
      assert Owned(l);
      Reassemble(rings, old(owner), l, x);
    }

    /** A link stands in one place only. */
    lemma OnePlace(l: nat, k: nat, l': nat, k': nat, x: Link)
      requires Valid() && StandsAt(contents, l, k, x) && StandsAt(contents, l', k', x)
      ensures l == l' && k == k'
    {
      assert RingOf(l)[k + 1] == x && RingOf(l')[k' + 1] == x;
      assert x in RingOf(l) && x in RingOf(l');
      assert Owned(l) && Owned(l') && Cycle(RingOf(l));
    }

    lemma OnlyPlace(l: nat, k: nat, x: Link)
      requires Valid() && StandsAt(contents, l, k, x)
      ensures Linked(contents, x)
      ensures Apply(contents, Remove(x)) == contents[l := contents[l][..k] + contents[l][k + 1..]]
    {
      forall l': nat, k': nat | StandsAt(contents, l', k', x) ensures l' == l && k' == k {
        OnePlace(l, k, l', k', x);
      }
    }

    /** The list and position of a link, with the facts its removal needs. */
    lemma Locate(x: Link) returns (l: nat, k: nat, rings: seq<seq<Link>>)
      requires Valid() && Linked(contents, x)
      ensures StandsAt(contents, l, k, x) && l < |sentinels| && RingOf(l)[k + 1] == x
      ensures Apply(contents, Remove(x)) == contents[l := contents[l][..k] + contents[l][k + 1..]]
      ensures |rings| == |sentinels| && forall m :: 0 <= m < |sentinels| ==> rings[m] == RingOf(m)
      ensures Others(pool, rings, l, x) && Numbered(owner, rings, l) && Cycle(rings[l])
      ensures x in pool && x.next in pool && x.prev in pool
    {
      l, k :| StandsAt(contents, l, k, x);
      OnlyPlace(l, k, x);
      var r := RingOf(l);
      InPool(l);
      assert r[k + 1] == x && Cycle(r);
      assert After(r, k + 1) in r && Before(r, k + 1) in r;
      forall m | 0 <= m < |sentinels| && m != l ensures x !in RingOf(m) { Apart(l, m); }
      rings := AllRings(l, x);
    }

    /** Only the link is named: which list it is in follows from the pointers. */
    method DoRemove(x: Link)
      requires Valid() && Linked(contents, x)
      modifies this`contents, pool
      ensures Valid() && contents == Apply(old(contents), Remove(x))
      ensures exists l: nat, k: nat ::
        && StandsAt(old(contents), l, k, x)
        && contents == old(contents)[l := old(contents)[l][..k] + old(contents)[l][k + 1..]]
      ensures x.next == null && x.prev == null
    {
      ghost var l, k, rings := Locate(x);
      ghost var r := RingOf(l);
      assert Owned(l);
      TakenRing(sentinels[l], contents[l], k);
      RemoveAmong(x, pool, rings, l, k + 1);
      contents := contents[l := contents[l][..k] + contents[l][k + 1..]];
      assert RingOf(l) == Without(r, k + 1);
      assert Owned(l);
      Reassemble(rings, old(owner), l, x);
    }

    /** Any run of legal operations leaves exactly what the same run leaves on plain sequences. */
    method Run(ops: seq<Op>)
      requires Valid() && AllLegal(contents, ops)
      requires forall op :: op in ops ==> op.x in pool && op.x !in sentinels
      modifies this`contents, this`owner, pool
      ensures Valid() && contents == ApplyAll(old(contents), ops)
    {
      var i := 0;
      while i < |ops|
        invariant i <= |ops| && Valid() && AllLegal(contents, ops[i..])
        invariant ApplyAll(contents, ops[i..]) == ApplyAll(old(contents), ops)
      {
        assert ops[i..][1..] == ops[i + 1..];
        match ops[i] {
          case Append(l, x) => DoAppend(l, x);
          case Insert(l, x) => DoInsert(l, x);
          case Remove(x) => DoRemove(x);
        }
        i := i + 1;
      }
    }
  }
}
