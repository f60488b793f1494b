/** The pointer stack: a growable array with its own top index. Popped slots stay in the array and
    are overwritten by later pushes. */
module Stack {
  import opened Growable

  class PtrStack {
    const arr: GrowableArray // the inherited part
    var top: int

    ghost predicate Valid()
      reads this, arr
    {
      arr.Valid() && -1 <= top < arr.size
    }

    /** The elements on the stack, the bottom first. */
    function Elements(): seq<Pointer>
      requires Valid()
      reads this, arr, arr.data
    {
      arr.Contents()[..top + 1]
    }

    constructor ()
      ensures Valid() && fresh(arr) && (arr.data == null || fresh(arr.data)) && Elements() == []
    {
      arr := new GrowableArray(0);
      top := -1;
    }

    method IsEmpty() returns (empty: bool)
      requires Valid()
      ensures empty <==> Elements() == []
    {
      empty := top == -1;
    }

    method Push(t: Pointer)
      requires Valid() && |Elements()| < LARGEST
      modifies this`top, arr, arr.data
      ensures Valid() && Elements() == old(Elements()) + [t]
      ensures arr.data == old(arr.data) || fresh(arr.data)
    {
      ghost var before := Elements();
      top := top + 1;
      if top >= arr.size {
        var index := arr.Add(t);
        assert index == top;
      } else {
        arr.data[top] := t;
        assert arr.Contents()[..top] == before;
      }
      assert arr.Contents()[..top + 1] == before + [t];
    }

    method Top() returns (t: Pointer)
      requires Valid() && Elements() != []
      ensures t == Elements()[|Elements()| - 1]
    {
      t := arr.data[top];
    }

    method Pop() returns (t: Pointer)
      requires Valid() && Elements() != []
      modifies this`top
      ensures Valid() && old(Elements()) == Elements() + [t]
    {
      t := arr.data[top];
      top := top - 1;
    }

    method Reset()
      requires Valid()
      modifies this`top
      ensures Valid() && Elements() == []
    {
      top := -1;
    }

    method StackSize() returns (n: int)
      requires Valid()
      ensures n == |Elements()|
    {
      n := top + 1;
    }

    /** Run a sequence of operations, collecting what Top and Pop return. */
    method Run(ops: seq<Op>) returns (answers: seq<Pointer>)
      requires Valid() && Legal(Elements(), ops)
      requires |Elements()| + |ops| <= LARGEST
      modifies this`top, arr, arr.data
      ensures Valid() && (Elements(), answers) == Lifo(old(Elements()), ops)
    {
      answers := [];
      ghost var goal := Lifo(Elements(), ops);
      assert ops[0..] == ops && [] + goal.1 == goal.1;
      var i := 0;
      while i < |ops|
        invariant i <= |ops| && Valid() && Legal(Elements(), ops[i..])
        invariant |Elements()| + |ops| - i <= LARGEST
        invariant arr.data == old(arr.data) || fresh(arr.data)
        invariant Lifo(Elements(), ops[i..]).0 == goal.0
        invariant answers + Lifo(Elements(), ops[i..]).1 == goal.1
      {
        assert ops[i..][1..] == ops[i + 1..];
        LifoStep(Elements(), ops[i..], answers);
        answers := Do(ops[i], answers);
        i := i + 1;
      }
      assert ops[i..] == [];
      assert answers + [] == answers;
    }

    method Do(op: Op, given: seq<Pointer>) returns (answers: seq<Pointer>)
      requires Valid() && (op.PopOp? || op.TopOp? ==> Elements() != []) && |Elements()| < LARGEST
      modifies this`top, arr, arr.data
      ensures Valid() && (arr.data == old(arr.data) || fresh(arr.data))
      ensures match op
        case PushOp(t) => Elements() == old(Elements()) + [t] && answers == given
        case ResetOp => Elements() == [] && answers == given
        case PopOp => Elements() == old(Elements()[..|Elements()| - 1])
                      && answers == given + [old(Elements()[|Elements()| - 1])]
        case TopOp => Elements() == old(Elements()) && answers == given + [old(Elements()[|Elements()| - 1])]
    {
      answers := given;
      match op {
        case PushOp(t) => Push(t);
        case PopOp =>
          var t := Pop();
          answers := answers + [t];
        case TopOp =>
          var t := Top();
          answers := answers + [t];
        case ResetOp => Reset();
      }
    }
  }

  // ----- the abstract stack

  datatype Op = PushOp(t: Pointer) | PopOp | TopOp | ResetOp

  /** No Pop or Top of an empty stack. */
  predicate Legal(s: seq<Pointer>, ops: seq<Op>)
    decreases |ops|
  {
    ops == [] ||
    match ops[0]
    case PushOp(t) => Legal(s + [t], ops[1..])
    case PopOp => s != [] && Legal(s[..|s| - 1], ops[1..])
    case TopOp => s != [] && Legal(s, ops[1..])
    case ResetOp => Legal([], ops[1..])
  }

  /** The final stack and the answers of Pop and Top. */
  function Lifo(s: seq<Pointer>, ops: seq<Op>): (seq<Pointer>, seq<Pointer>)
    requires Legal(s, ops)
    decreases |ops|
  {
    if ops == [] then (s, [])
    else match ops[0]
      case PushOp(t) => Lifo(s + [t], ops[1..])
      case PopOp =>
        var r := Lifo(s[..|s| - 1], ops[1..]);
        (r.0, [s[|s| - 1]] + r.1)
      case TopOp =>
        var r := Lifo(s, ops[1..]);
        (r.0, [s[|s| - 1]] + r.1)
      case ResetOp => Lifo([], ops[1..])
  }

  /** The answer of the first operation joins those already collected. */
  lemma LifoStep(s: seq<Pointer>, ops: seq<Op>, answers: seq<Pointer>)
    requires ops != [] && Legal(s, ops)
    ensures match ops[0]
      case PushOp(t) => Lifo(s, ops) == Lifo(s + [t], ops[1..])
      case ResetOp => Lifo(s, ops) == Lifo([], ops[1..])
      case PopOp =>
        var r := Lifo(s[..|s| - 1], ops[1..]);
        Lifo(s, ops).0 == r.0 && answers + Lifo(s, ops).1 == (answers + [s[|s| - 1]]) + r.1
      case TopOp =>
        var r := Lifo(s, ops[1..]);
        Lifo(s, ops).0 == r.0 && answers + Lifo(s, ops).1 == (answers + [s[|s| - 1]]) + r.1
  {
  }
}
