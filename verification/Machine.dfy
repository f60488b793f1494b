/** Whole computations: the struct form of the macros refines the native form, whichever variables
    an operation reads and writes. */
module Machine {
  import opened Words
  import opened Jlong
  import opened Shifts

  // ----- straight-line programs with forward branches, over numbered variables

  datatype Instr =
    | OpNeg(r: nat, a: nat)
    | OpAdd(r: nat, a: nat, b: nat)
    | OpSub(r: nat, a: nat, b: nat)
    | OpMul(r: nat, a: nat, b: nat)
    | OpDiv(r: nat, a: nat, b: nat)
    | OpMod(r: nat, a: nat, b: nat)
    | OpShl(r: nat, a: nat, n: UInt32)
    | OpShr(r: nat, a: nat, n: UInt32)
    | OpUshr(r: nat, a: nat, n: UInt32)
    | SkipIf(a: nat, op: Relop, b: nat, unsigned: bool, count: nat)

  /** Variable numbers in range, shift counts below the width, strict comparisons. */
  predicate WellFormed(i: Instr, vars: nat)
  {
    match i
    case OpNeg(r, a) => r < vars && a < vars
    case OpShl(r, a, n) => r < vars && a < vars && n < 64
    case OpShr(r, a, n) => r < vars && a < vars && n < 64
    case OpUshr(r, a, n) => r < vars && a < vars && n < 64
    case SkipIf(a, op, b, _, _) => a < vars && b < vars && Strict(op)
    case _ => i.r < vars && i.a < vars && i.b < vars
  }

  predicate DividesByZero(i: Instr, v: seq<int>)
    requires WellFormed(i, |v|)
  {
    (i.OpDiv? || i.OpMod?) && v[i.b] == 0
  }

  /** The native form: one assignment to a signed 64-bit variable. */
  function Native(i: Instr, v: seq<int>): (v': seq<int>)
    requires WellFormed(i, |v|) && !DividesByZero(i, v)
    ensures |v'| == |v|
  {
    match i
    case OpNeg(r, a) => v[r := Long(-v[a])]
    case OpAdd(r, a, b) => v[r := Long(v[a] + v[b])]
    case OpSub(r, a, b) => v[r := Long(v[a] - v[b])]
    case OpMul(r, a, b) => v[r := Long(v[a] * v[b])]
    case OpDiv(r, a, b) => v[r := Long(TruncDiv(v[a], v[b]))]
    case OpMod(r, a, b) => v[r := TruncMod(v[a], v[b])]
    case OpShl(r, a, n) => v[r := Long(v[a] * Pow2(n))]
    case OpShr(r, a, n) => v[r := v[a] / Pow2(n)]
    case OpUshr(r, a, n) => v[r := Long((v[a] % B64) / Pow2(n))]
    case SkipIf(_, _, _, _, _) => v
  }

  /** What the operators do, one by one: shifts are products and floor quotients by 2^n. */
  ghost predicate Assigns(i: Instr, v: seq<int>, v': seq<int>)
    requires WellFormed(i, |v|)
  {
    match i
    case OpNeg(r, a) => v' == v[r := Long(-v[a])]
    case OpAdd(r, a, b) => v' == v[r := Long(v[a] + v[b])]
    case OpSub(r, a, b) => v' == v[r := Long(v[a] - v[b])]
    case OpMul(r, a, b) => v' == v[r := Long(v[a] * v[b])]
    case OpDiv(r, a, b) => v[b] != 0 && v' == v[r := Long(TruncDiv(v[a], v[b]))]
    case OpMod(r, a, b) => v[b] != 0 && v' == v[r := TruncMod(v[a], v[b])]
    case OpShl(r, a, n) => exists x :: v' == v[r := Long(x)] && x == v[a] * Pow2(n)
    case OpShr(r, a, n) => exists x :: v' == v[r := x] && x * Pow2(n) <= v[a] < (x + 1) * Pow2(n)
    case OpUshr(r, a, n) =>
      exists x :: v' == v[r := Long(x)] && x * Pow2(n) <= v[a] % B64 < (x + 1) * Pow2(n)
    case SkipIf(_, _, _, _, _) => v' == v
  }

  lemma Meaning(i: Instr, v: seq<int>)
    requires WellFormed(i, |v|) && !DividesByZero(i, v)
    ensures Assigns(i, v, Native(i, v))
  {
    if i.OpShr? { Floor(v[i.a], Pow2(i.n)); }
    if i.OpUshr? { Floor(v[i.a] % B64, Pow2(i.n)); }
  }

  lemma Floor(x: int, p: nat)
    requires p > 0
    ensures (x / p) * p <= x < (x / p + 1) * p
  {
  }

  /** The next program position: a taken branch skips `count` further instructions. */
  function Next(i: Instr, v: seq<int>, pc: nat): (pc': nat)
    requires WellFormed(i, |v|)
    ensures pc' > pc
  {
    match i
    case SkipIf(a, op, b, unsigned, count) =>
      if (if unsigned then Rel(op, v[a] % B64, v[b] % B64) else Rel(op, v[a], v[b])) then pc + 1 + count else pc + 1
    case _ => pc + 1
  }

  datatype Outcome = Done(v: seq<int>) | Trapped(pc: nat, at: seq<int>)

  /** A native run from position pc; it stops at a division by zero, where Java throws. */
  function NativeRun(prog: seq<Instr>, pc: nat, v: seq<int>): Outcome
    requires forall i :: i in prog ==> WellFormed(i, |v|)
    decreases |prog| - pc
  {
    if pc >= |prog| then Done(v)
    else if DividesByZero(prog[pc], v) then Trapped(pc, v)
    else NativeRun(prog, Next(prog[pc], v, pc), Native(prog[pc], v))
  }

  ghost predicate Distinct(vars: seq<JLong>)
  {
    forall i, j :: 0 <= i < j < |vars| ==> vars[i] != vars[j]
  }

  ghost function Values(vars: seq<JLong>): (v: seq<int>)
    reads vars
    ensures |v| == |vars|
    ensures forall k :: 0 <= k < |vars| ==> v[k] == S(vars[k].Get())
  {
    seq(|vars|, k requires 0 <= k < |vars| reads vars => S(vars[k].Get()))
  }

  lemma Updated(vars: seq<JLong>, before: seq<int>, r: nat)
    requires r < |vars| == |before|
    requires forall k :: 0 <= k < |vars| && k != r ==> S(vars[k].Get()) == before[k]
    ensures Values(vars) == before[r := S(vars[r].Get())]
  {
  }

  /** One macro call on the struct variables. */
  method Execute(i: Instr, vars: seq<JLong>)
    requires WellFormed(i, |vars|) && Distinct(vars) && !DividesByZero(i, Values(vars))
    modifies vars
    ensures Values(vars) == Native(i, old(Values(vars)))
    ensures Assigns(i, old(Values(vars)), Values(vars))
  {
    Meaning(i, Values(vars));
    if i.SkipIf? {
    } else if i.OpNeg? || i.OpShl? || i.OpShr? || i.OpUshr? {
      ExecuteUnary(i, vars);
    } else if i.OpDiv? || i.OpMod? {
      ExecuteDivision(i, vars);
    } else {
      ExecuteBinary(i, vars);
    }
  }

  method ExecuteUnary(i: Instr, vars: seq<JLong>)
    requires i.OpNeg? || i.OpShl? || i.OpShr? || i.OpUshr?
    requires WellFormed(i, |vars|) && Distinct(vars)
    modifies vars[i.r]
    ensures Values(vars) == Native(i, old(Values(vars)))
  {
    var r, a := vars[i.r], vars[i.a];
    ghost var v, x := Values(vars), a.Get();
    if i.OpNeg? {
      Neg(r, a);
    } else if i.OpShl? {
      Shl(r, a, i.n);
    } else if i.OpShr? {
      Shr(r, a, i.n);
    } else {
      Ushr(r, a, i.n);
      UshrNative(x, r.Get(), i.n);
    }
    Updated(vars, v, i.r);
  }

  lemma UshrNative(x: Dword, y: Dword, n: UInt32)
    requires U(y) == U(x) / Pow2(n)
    ensures S(y) == Long((S(x) % B64) / Pow2(n))
  {
    SignedFits(x);
    DivModUnique(U(y), B64, 0, U(y));
    SignedReading(y, U(y));
  }

  method ExecuteBinary(i: Instr, vars: seq<JLong>)
    requires i.OpAdd? || i.OpSub? || i.OpMul?
    requires WellFormed(i, |vars|) && Distinct(vars)
    modifies vars[i.r]
    ensures Values(vars) == Native(i, old(Values(vars)))
  {
    var r, a, b := vars[i.r], vars[i.a], vars[i.b];
    ghost var v, x, y := Values(vars), S(a.Get()), S(b.Get());
    ghost var want := if i.OpAdd? then Long(x + y) else if i.OpSub? then Long(x - y) else Long(x * y);
    assert Native(i, v) == v[i.r := want];
    if i.OpAdd? {
      Add(r, a, b);
    } else if i.OpSub? {
      Sub(r, a, b);
    } else {
      Mul(r, a, b);
    }
    assert S(r.Get()) == want;
    Updated(vars, v, i.r);
  }

  method ExecuteDivision(i: Instr, vars: seq<JLong>)
    requires i.OpDiv? || i.OpMod?
    requires WellFormed(i, |vars|) && Distinct(vars) && !DividesByZero(i, Values(vars))
    modifies vars[i.r]
    ensures Values(vars) == Native(i, old(Values(vars)))
  {
    var r, a, b := vars[i.r], vars[i.a], vars[i.b];
    ghost var v := Values(vars);
    match i {
      case OpDiv(_, _, _) => Div(r, a, b);
      case OpMod(_, _, _) => Mod(r, a, b);
    }
    Updated(vars, v, i.r);
  }

  /** The caller's test before dividing. */
  method ZeroDivisor(i: Instr, vars: seq<JLong>) returns (zero: bool)
    requires WellFormed(i, |vars|)
    ensures zero == DividesByZero(i, Values(vars))
    ensures zero <==> (i.OpDiv? || i.OpMod?) && S(vars[i.b].Get()) == 0
  {
    zero := (i.OpDiv? || i.OpMod?) && Eq(vars[i.b].Get(), Dword(0, 0));
  }

  /** The comparison macros choose the next position. */
  method Successor(i: Instr, vars: seq<JLong>, pc: nat) returns (pc': nat)
    requires WellFormed(i, |vars|)
    ensures pc' == Next(i, Values(vars), pc)
    ensures !i.SkipIf? ==> pc' == pc + 1
    ensures i.SkipIf? ==>
      var a, b := vars[i.a].Get(), vars[i.b].Get();
      var x, y := if i.unsigned then U(a) else S(a), if i.unsigned then U(b) else S(b);
      pc' == if (i.op == Lt && x < y) || (i.op == Gt && x > y) then pc + 1 + i.count else pc + 1
  {
    pc' := pc + 1;
    if i.SkipIf? {
      var a, b := vars[i.a].Get(), vars[i.b].Get();
      SignedFits(a);
      SignedFits(b);
      if (if i.unsigned then UCmp(a, i.op, b) else Cmp(a, i.op, b)) {
        pc' := pc + 1 + i.count;
      }
    }
  }

  /** A whole run on the struct variables ends as the native run does. */
  method Run(prog: seq<Instr>, vars: seq<JLong>) returns (trapped: bool, pc: nat)
    requires forall i :: i in prog ==> WellFormed(i, |vars|)
    requires Distinct(vars)
    modifies vars
    ensures NativeRun(prog, 0, old(Values(vars)))
         == if trapped then Trapped(pc, Values(vars)) else Done(Values(vars))
  {
    pc := 0;
    trapped := false;
    while pc < |prog| && !trapped
      invariant NativeRun(prog, 0, old(Values(vars)))
             == if trapped then Trapped(pc, Values(vars)) else NativeRun(prog, pc, Values(vars))
      decreases |prog| - pc, !trapped
    {
      trapped := ZeroDivisor(prog[pc], vars);
      if !trapped {
        var next := Successor(prog[pc], vars, pc);
        Execute(prog[pc], vars);
        pc := next;
      }
    }
  }

  // ----- expression trees

  datatype Tree =
    | Var(n: nat)
    | Negated(t: Tree)
    | Sum(l: Tree, r: Tree)
    | Difference(l: Tree, r: Tree)
    | Product(l: Tree, r: Tree)
    | Shifted(t: Tree, count: UInt32)

  predicate InScope(t: Tree, vars: nat)
  {
    match t
    case Var(n) => n < vars
    case Negated(t) => InScope(t, vars)
    case Shifted(t, n) => InScope(t, vars) && n < 64
    case _ => InScope(t.l, vars) && InScope(t.r, vars)
  }

  /** The unbounded integer a tree denotes. */
  function Value(t: Tree, v: seq<int>): int
    requires InScope(t, |v|)
  {
    match t
    case Var(n) => v[n]
    case Negated(t) => -Value(t, v)
    case Sum(l, r) => Value(l, v) + Value(r, v)
    case Difference(l, r) => Value(l, v) - Value(r, v)
    case Product(l, r) => Value(l, v) * Value(r, v)
    case Shifted(t, n) => Value(t, v) * Pow2(n)
  }

  lemma ValueLaws(l: Tree, r: Tree, n: nat, k: UInt32, v: seq<int>)
    requires InScope(l, |v|) && InScope(r, |v|) && n < |v| && k < 64
    ensures Value(Var(n), v) == v[n] && Value(Negated(l), v) + Value(l, v) == 0
    ensures Value(Sum(l, r), v) == Value(l, v) + Value(r, v)
    ensures Value(Difference(l, r), v) + Value(r, v) == Value(l, v)
    ensures Value(Product(l, r), v) == Value(l, v) * Value(r, v)
    ensures Value(Shifted(l, 0), v) == Value(l, v)
    ensures k > 0 ==> Value(Shifted(l, k), v) == 2 * Value(Shifted(l, k - 1), v)
  {
    if k > 0 { Doubled(Value(l, v), Pow2(k - 1), Pow2(k)); }
  }

  lemma Doubled(x: int, p: int, q: int)
    requires q == 2 * p
    ensures x * q == 2 * (x * p)
  {
  }

  /** Evaluate with the two-word macros, every operator writing over its own left operand. Wrapping
      at each node comes to the same as wrapping the integer value once. */
  method Evaluate(t: Tree, vars: seq<JLong>) returns (x: JLong)
    requires InScope(t, |vars|)
    ensures fresh(x)
    ensures S(x.Get()) == Long(Value(t, Values(vars)))
  {
    ghost var v := Values(vars);
    match t
    case Var(n) =>
      x := new JLong(vars[n].Get());
      SignedFits(x.Get());
    case Negated(t) =>
      x := Evaluate(t, vars);
      Neg(x, x);
      WrapTwice(Value(t, v), 0);
    case Sum(l, r) =>
      x := Evaluate(l, vars);
      var y := Evaluate(r, vars);
      AddInto(x, y, Value(l, v), Value(r, v));
    case Difference(l, r) =>
      x := Evaluate(l, vars);
      var y := Evaluate(r, vars);
      SubInto(x, y, Value(l, v), Value(r, v));
    case Product(l, r) =>
      x := Evaluate(l, vars);
      var y := Evaluate(r, vars);
      MulInto(x, y, Value(l, v), Value(r, v), Value(t, v));
    case Shifted(t', n) =>
      x := Evaluate(t', vars);
      ShlInto(x, n, Value(t', v), Value(t, v));
  }

  method AddInto(x: JLong, y: JLong, ghost a: int, ghost b: int)
    requires x != y && S(x.Get()) == Long(a) && S(y.Get()) == Long(b)
    modifies x
    ensures S(x.Get()) == Long(a + b)
  {
    Add(x, x, y);
    WrapTwice(a, b);
  }

  method SubInto(x: JLong, y: JLong, ghost a: int, ghost b: int)
    requires x != y && S(x.Get()) == Long(a) && S(y.Get()) == Long(b)
    modifies x
    ensures S(x.Get()) == Long(a - b)
  {
    Sub(x, x, y);
    WrapTwice(a, b);
  }

  method MulInto(x: JLong, y: JLong, ghost a: int, ghost b: int, ghost c: int)
    requires x != y && S(x.Get()) == Long(a) && S(y.Get()) == Long(b) && c == a * b
    modifies x
    ensures S(x.Get()) == Long(c)
  {
    Mul(x, x, y);
    WrapProduct(a, b);
  }

  method ShlInto(x: JLong, n: UInt32, ghost a: int, ghost c: int)
    requires n < 64 && S(x.Get()) == Long(a) && c == a * Pow2(n)
    modifies x
    ensures S(x.Get()) == Long(c)
  {
    Shl(x, x, n);
    WrapThenScale(a, Pow2(n));
  }

  lemma WrapTwice(x: int, y: int)
    ensures Long(Long(x) + Long(y)) == Long(x + y)
    ensures Long(Long(x) - Long(y)) == Long(x - y)
    ensures Long(-Long(x)) == Long(-x)
  {
    var i := LongIsCongruent(x);
    var j := LongIsCongruent(y);
    Congruent(Long(x) + Long(y), x + y, i + j);
    Congruent(Long(x) - Long(y), x - y, i - j);
    Congruent(-Long(x), -x, -i);
  }

  lemma WrapProduct(x: int, y: int)
    ensures Long(Long(x) * Long(y)) == Long(x * y)
  {
    WrapThenScale(x, Long(y));
    WrapThenScale(y, x);
  }
}
