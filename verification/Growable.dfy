/** A growable array of pointers and the stack on top of it. Sizes are 32-bit signed integers. */
module Growable {
  import opened Words

  /** Pointers are opaque words; 0 is null. */
  type Pointer = nat

  // ----- doubling with wrap-around

  /** What an `int` holds after an assignment of x. */
  function Wrap(x: int): int { Int32(UWord(x)) }

  function Max(a: int, b: int): int { if a < b then b else a }

  /** The value of the doubled variable after k turns of the loop in NewSize. */
  function Doubled(base: int, k: nat): int
  {
    if k == 0 then base else Wrap(Doubled(base, k - 1) + Doubled(base, k - 1))
  }

  /** The capacities an array can have: none yet, or 16 doubled some times within an int. */
  predicate Capacity(alloc: int)
  {
    alloc == 0 || exists k: nat :: k <= 26 && alloc == 16 * Pow2(k)
  }

  const LARGEST: int := 0x4000_0000

  /** The loop condition of NewSize fails after k turns and not before. */
  ghost predicate StopsAfter(alloc: int, request: int, k: nat)
  {
    Doubled(Max(alloc, 16), k) >= request && forall j :: 0 <= j < k ==> Doubled(Max(alloc, 16), j) < request
  }

  lemma {:induction false} DoubledValue(e: nat, j: nat)
    requires e <= 26
    ensures Doubled(16 * Pow2(e), j)
         == if e + j <= 26 then 16 * Pow2(e + j) else if e + j == 27 then -0x8000_0000 else 0
  {
    if j > 0 {
      DoubledValue(e, j - 1);
      DoublePower(e + (j - 1), Doubled(16 * Pow2(e), j - 1));
    }
  }

  lemma DoublePower(n: nat, v: int)
    requires v == if n <= 26 then 16 * Pow2(n) else if n == 27 then -0x8000_0000 else 0
    ensures Wrap(v + v) == if n + 1 <= 26 then 16 * Pow2(n + 1) else if n + 1 == 27 then -0x8000_0000 else 0
  {
    Powers();
    if n < 26 { Pow2Mono(n + 1, 26); }
  }

  lemma Powers()
    ensures Pow2(0) == 1 && Pow2(26) == 0x400_0000
  {
    assert Pow2(6) == 64 && Pow2(12) == 0x1000 && Pow2(18) == 0x4_0000;
  }

  /** For a capacity, the larger of it and 16 is 16 doubled e times. */
  lemma Exponent(alloc: int) returns (e: nat)
    requires Capacity(alloc)
    ensures e <= 26 && Max(alloc, 16) == 16 * Pow2(e)
  {
    Powers();
    if alloc == 0 {
      e := 0;
    } else {
      e :| e <= 26 && alloc == 16 * Pow2(e);
    }
  }

  /** The doubling loop ends exactly for requests up to 2^30. For a larger request the variable wraps
      to the most negative int and then stays at zero, below the request for ever. */
  lemma NewSizeEnds(alloc: int, request: int)
    requires Capacity(alloc) && request < 0x8000_0000
    ensures (exists k: nat :: StopsAfter(alloc, request, k)) <==> request <= LARGEST
  {
    var e := Exponent(alloc);
    Powers();
    if request <= LARGEST {
      DoubledValue(e, 26 - e);
      var k := FirstReach(alloc, request, 26 - e);
    } else {
      forall k: nat ensures !StopsAfter(alloc, request, k) {
        DoubledValue(e, k);
        if e + k <= 26 { Pow2Mono(e + k, 26); }
      }
    }
  }

  lemma {:induction false} FirstReach(alloc: int, request: int, n: nat) returns (k: nat)
    requires Doubled(Max(alloc, 16), n) >= request
    ensures StopsAfter(alloc, request, k)
  {
    k := 0;
    while Doubled(Max(alloc, 16), k) < request
      invariant k <= n && forall j :: 0 <= j < k ==> Doubled(Max(alloc, 16), j) < request
      decreases n - k
    {
      k := k + 1;
    }
  }

  /** Where the loop stands after k turns. */
  ghost predicate Stands(base: int, e: nat, k: nat, n: int, request: int)
  {
    && e + k <= 26 && n == 16 * Pow2(e + k) && n == Doubled(base, k)
    && (forall j :: 0 <= j < k ==> Doubled(base, j) < request)
    && (n == base || 2 * base <= n < 2 * request)
  }

  lemma Turn(base: int, e: nat, k: nat, n: int, request: int)
    requires Stands(base, e, k, n, request) && base <= n < request <= LARGEST
    ensures Stands(base, e, k + 1, Wrap(n + n), request) && base <= Wrap(n + n)
    ensures e + (k + 1) <= 26
  {
    Powers();
    assert n > 0;
  }

  lemma Stopped(alloc: int, e: nat, k: nat, n: int, request: int)
    requires Stands(Max(alloc, 16), e, k, n, request) && n >= request
    ensures StopsAfter(alloc, request, k) && n == Doubled(Max(alloc, 16), k)
    ensures Capacity(n) && (n == Max(alloc, 16) || 2 * Max(alloc, 16) <= n < 2 * request)
  {
  }

  // ----- the array

  /** `XP_BCOPY` of n pointers. */
  method Copy(src: array<Pointer>, dst: array<Pointer>, n: nat)
    requires n <= src.Length && n <= dst.Length && src != dst
    modifies dst
    ensures dst[..n] == src[..n]
  {
    var i := 0;
    while i < n
      invariant 0 <= i <= n && dst[..i] == src[..i]
    {
      dst[i] := src[i];
      i := i + 1;
    }
  }

  datatype Call = AddCall(x: Pointer) | SetSizeCall(n: int) | EmptyCall

  function SizeAfter(size: int, c: Call): int
  {
    match c
    case AddCall(_) => size + 1
    case SetSizeCall(n) => n
    case EmptyCall => 0
  }

  /** The size never becomes negative or larger than the largest capacity. */
  predicate InRange(size: int, calls: seq<Call>)
    decreases |calls|
  {
    calls == [] || (0 <= SizeAfter(size, calls[0]) <= LARGEST && InRange(SizeAfter(size, calls[0]), calls[1..]))
  }

  function FinalSize(size: int, calls: seq<Call>): int
    decreases |calls|
  {
    if calls == [] then size else FinalSize(SizeAfter(size, calls[0]), calls[1..])
  }

  function Written(size: int, c: Call): map<int, Pointer>
  {
    if c.AddCall? then map[size := c.x] else map[]
  }

  /** The pointer each slot was last given by Add, on top of the writes w before. */
  function LastWrites(size: int, calls: seq<Call>, w: map<int, Pointer>): map<int, Pointer>
    decreases |calls|
  {
    if calls == [] then w
    else LastWrites(SizeAfter(size, calls[0]), calls[1..], w + Written(size, calls[0]))
  }

  /** A run of additions writes its pointers one behind the other. */
  lemma {:induction false} AddsWrite(size: int, xs: seq<Pointer>, w: map<int, Pointer>)
    requires forall i :: i in w ==> i < size
    ensures var calls := seq(|xs|, k requires 0 <= k < |xs| => AddCall(xs[k]));
      && FinalSize(size, calls) == size + |xs|
      && (var all := LastWrites(size, calls, w);
          && (forall i :: size <= i < size + |xs| ==> i in all && all[i] == xs[i - size])
          && (forall i :: i in w ==> i in all && all[i] == w[i]))
    decreases |xs|
  {
    var calls := seq(|xs|, k requires 0 <= k < |xs| => AddCall(xs[k]));
    if xs != [] {
      var rest, w' := xs[1..], w + map[size := xs[0]];
      assert calls[1..] == seq(|rest|, k requires 0 <= k < |rest| => AddCall(rest[k]));
      AddsWrite(size + 1, rest, w');
      assert size in w' && w'[size] == xs[0];
    }
  }

  /** Every slot written holds what was written last, every other slot of before what it held. */
  predicate Keeps(w: map<int, Pointer>, before: seq<Pointer>, after: seq<Pointer>)
  {
    && |before| <= |after|
    && (forall i :: i in w ==> 0 <= i < |after| && after[i] == w[i])
    && (forall i :: 0 <= i < |before| && i !in w ==> after[i] == before[i])
  }

  lemma KeepOn(w: map<int, Pointer>, u: map<int, Pointer>, s0: seq<Pointer>, s1: seq<Pointer>, s2: seq<Pointer>)
    requires Keeps(w, s0, s1) && Keeps(u, s1, s2)
    ensures Keeps(w + u, s0, s2)
  {
  }

  class GrowableArray {
    var data: array?<Pointer>
    var size: int
    var alloc: int
    ghost var copied: nat   // pointers moved by reallocations so far

    ghost predicate Valid()
      reads this
    {
      && Capacity(alloc)
      && (alloc == 0 <==> data == null)
      && (data != null ==> data.Length == alloc)
      && 0 <= size <= alloc
    }

    /** All allocated slots, and the part in use. */
    function Slots(): seq<Pointer>
      reads this, data
    {
      if data == null then [] else data[..]
    }

    function Contents(): seq<Pointer>
      requires Valid()
      reads this, data
    {
      Slots()[..size]
    }

    constructor (startSize: int)
      requires startSize <= LARGEST
      ensures Valid() && size == 0 && copied == 0
      ensures alloc >= startSize && (startSize <= 0 ==> alloc == 0)
    {
      data := null;
      size := 0;
      alloc := 0;
      copied := 0;
      new;
      if startSize != 0 {
        GuaranteeSize(startSize);
      }
    }

    method NewSize(minSize: int) returns (newSize: int)
      requires Valid() && minSize <= LARGEST
      ensures exists k: nat :: StopsAfter(alloc, minSize, k) && newSize == Doubled(Max(alloc, 16), k)
      ensures Capacity(newSize) && newSize >= Max(alloc, 16) && newSize >= minSize
      ensures newSize == Max(alloc, 16) || 2 * Max(alloc, 16) <= newSize < 2 * minSize
    {
      newSize := Max(alloc, 16);
      ghost var base := newSize;
      ghost var e := Exponent(alloc);
      ghost var k: nat := 0;
      while newSize < minSize
        invariant Stands(base, e, k, newSize, minSize) && base <= newSize && e + k <= 26
        decreases 26 - k
      {
        Turn(base, e, k, newSize, minSize);
        newSize := Wrap(newSize + newSize);
        k := k + 1;
      }
      Stopped(alloc, e, k, newSize, minSize);
    }

    /** At least the requested capacity; every slot keeps its content. A capacity equal to the
        request is reallocated too. */
    method GuaranteeSize(request: int)
      requires Valid() && request <= LARGEST
      modifies this`data, this`alloc, this`copied
      ensures Valid() && alloc >= request && alloc >= old(alloc)
      ensures Slots()[..old(alloc)] == old(Slots())
      ensures old(alloc) > request ==> data == old(data) && alloc == old(alloc) && copied == old(copied)
      ensures old(alloc) <= request ==>
        (data == null || fresh(data)) && copied == old(copied) + old(alloc)
        && (alloc == Max(old(alloc), 16) || 2 * Max(old(alloc), 16) <= alloc < 2 * request)
    {
      if alloc <= request {
        var newSize := NewSize(request);
        var newData := new Pointer[newSize];
        if alloc != 0 {
          Copy(data, newData, alloc);
          copied := copied + alloc;
        }
        data := newData;
        alloc := newSize;
      }
    }

    method SetSize(newSize: int)
      requires Valid() && 0 <= newSize <= LARGEST
      modifies this
      ensures Valid() && size == newSize && alloc >= old(alloc)
      ensures Slots()[..old(alloc)] == old(Slots()) && (data == old(data) || fresh(data))
    {
      GuaranteeSize(newSize);
      size := newSize;
    }

    method Add(x: Pointer) returns (index: int)
      requires Valid() && size < LARGEST
      modifies this, data
      ensures Valid() && index == old(size) && Contents() == old(Contents()) + [x]
      ensures alloc >= old(alloc) && (data == old(data) || fresh(data))
      ensures Slots()[index] == x && forall i :: 0 <= i < old(alloc) && i != index ==> Slots()[i] == old(Slots()[i])
      ensures old(Grown()) ==> Grown()
    {
      ghost var before := Contents();
      GuaranteeSize(size + 1);
      assert Slots()[..size] == before;
      assert forall i :: 0 <= i < old(alloc) ==> Slots()[i] == old(Slots())[i];
      data[size] := x;
      index := size;
      size := size + 1;
      assert Contents() == before + [x];
    }

    method Empty()
      requires Valid()
      modifies this`size
      ensures Valid() && Contents() == []
    {
      size := 0;
    }

    /** A run of calls. */
    method Run(calls: seq<Call>)
      requires Valid() && InRange(size, calls)
      modifies this, data
      ensures Valid() && size == FinalSize(old(size), calls) && alloc >= old(alloc)
      ensures Keeps(LastWrites(old(size), calls, map[]), old(Slots()), Slots())
    {
      ghost var size0, slots0 := size, Slots();
      ghost var w: map<int, Pointer> := map[];
      var i := 0;
      while i < |calls|
        invariant i <= |calls| && Valid() && InRange(size, calls[i..])
        invariant data == old(data) || fresh(data)
        invariant FinalSize(size, calls[i..]) == FinalSize(size0, calls)
        invariant LastWrites(size, calls[i..], w) == LastWrites(size0, calls, map[])
        invariant Keeps(w, slots0, Slots())
      {
        assert calls[i..][1..] == calls[i + 1..];
        ghost var before, u := Slots(), Written(size, calls[i]);
        Do(calls[i]);
        KeepOn(w, u, slots0, before, Slots());
        w := w + u;
        i := i + 1;
      }
    }

    method Do(c: Call)
      requires Valid() && 0 <= SizeAfter(size, c) <= LARGEST
      modifies this, data
      ensures Valid() && size == SizeAfter(old(size), c) && alloc >= old(alloc)
      ensures data == old(data) || fresh(data)
      ensures Keeps(Written(old(size), c), old(Slots()), Slots())
      ensures match c
        case AddCall(x) =>
          && size == old(size) + 1 && Slots()[old(size)] == x
          && forall i :: 0 <= i < old(alloc) && i != old(size) ==> Slots()[i] == old(Slots()[i])
        case SetSizeCall(n) => size == n && Slots()[..old(alloc)] == old(Slots())
        case EmptyCall => size == 0 && Slots() == old(Slots())
    {
      match c {
        case AddCall(x) => var _ := Add(x);
        case SetSizeCall(n) => SetSize(n);
        case EmptyCall => Empty();
      }
    }

    /** Filled by Add alone: the exact number of pointers moved so far. */
    ghost predicate Grown()
      reads this
    {
      && copied == Spent(alloc, size)
      && (alloc == 0 ==> size == 0)
      && (alloc > 16 ==> 2 * size > alloc)
    }
  }

  /** Each capacity is copied twice: when the last slot is about to be used, and when it is full. */
  function Spent(alloc: int, size: int): int
  {
    if alloc == 0 then 0 else if size < alloc then 2 * alloc - 32 else 3 * alloc - 32
  }

  /** Any number of additions to a new array keep every element at the index returned and move at
      most four pointers per addition. */
  method AddAll(xs: seq<Pointer>) returns (a: GrowableArray, indices: seq<int>)
    requires |xs| <= LARGEST
    ensures fresh(a) && a.Valid() && a.Contents() == xs
    ensures |indices| == |xs| && forall i :: 0 <= i < |xs| ==> indices[i] == i
    ensures a.copied <= 4 * |xs|
  {
    a := new GrowableArray(0);
    indices := [];
    var i := 0;
    while i < |xs|
      invariant i <= |xs| && a.Valid() && a.Grown() && a.Contents() == xs[..i]
      invariant fresh(a) && (a.data == null || fresh(a.data))
      invariant |indices| == i && forall j :: 0 <= j < i ==> indices[j] == j
    {
      var index := a.Add(xs[i]);
      indices := indices + [index];
      i := i + 1;
    }
  }
}
