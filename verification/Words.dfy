/** Unsigned 32-bit machine words (`juint`) as integers in range, with C's wrapping operators.
    Bit-wise "or" and "and" are defined bit by bit; the lemmas say when they are plain arithmetic. */
module Words {

  const B16: int := 0x1_0000
  const B32: int := 0x1_0000_0000
  const B64: int := 0x1_0000_0000_0000_0000

  type UInt32 = x: int | 0 <= x < 0x1_0000_0000

  function Pow2(n: nat): (r: nat)
    ensures r > 0
  {
    if n == 0 then 1 else 2 * Pow2(n - 1)
  }

  function AddW(x: UInt32, y: UInt32): UInt32 { (x + y) % B32 }
  function SubW(x: UInt32, y: UInt32): UInt32 { (x - y) % B32 }
  function MulW(x: UInt32, y: UInt32): UInt32 { (x * y) % B32 }
  function Bit(c: bool): int { if c then 1 else 0 }

  /** The `(int32)` cast on a two's-complement machine, and back. */
  function Int32(x: UInt32): int { if x < 0x8000_0000 then x else x - B32 }
  function UWord(x: int): UInt32 { x % B32 }

  function ShlW(x: UInt32, n: nat): UInt32
    requires n < 32
  {
    (x * Pow2(n)) % B32
  }

  function ShrW(x: UInt32, n: nat): (r: UInt32)
    requires n < 32
  {
    DivBelow(x, Pow2(n));
    x / Pow2(n)
  }

  /** `(int32)x >> n`: the arithmetic shift, which floors. */
  function SarW(x: UInt32, n: nat): UInt32
    requires n < 32
  {
    UWord(Int32(x) / Pow2(n))
  }

  function OrBits(x: nat, y: nat): nat
    decreases x + y
  {
    if x == 0 && y == 0 then 0
    else 2 * OrBits(x / 2, y / 2) + if x % 2 == 1 || y % 2 == 1 then 1 else 0
  }

  function AndBits(x: nat, y: nat): nat
    decreases x + y
  {
    if x == 0 || y == 0 then 0
    else 2 * AndBits(x / 2, y / 2) + if x % 2 == 1 && y % 2 == 1 then 1 else 0
  }

  function OrW(x: UInt32, y: UInt32): UInt32
  {
    Pow2Is32();
    OrBelow(x, y, 32);
    OrBits(x, y)
  }

  function AndW(x: UInt32, y: UInt32): UInt32
  {
    AndBelow(x, y);
    AndBits(x, y)
  }

  // ----- powers of two

  lemma Pow2Is32()
    ensures Pow2(5) == 32
    ensures Pow2(16) == B16
    ensures Pow2(31) == 0x8000_0000
    ensures Pow2(32) == B32
  {
    assert Pow2(4) == 16 && Pow2(8) == 256 && Pow2(12) == 4096;
    assert Pow2(20) == 0x10_0000 && Pow2(24) == 0x100_0000 && Pow2(28) == 0x1000_0000;
  }

  lemma {:induction false} Pow2Add(m: nat, n: nat)
    ensures Pow2(m + n) == Pow2(m) * Pow2(n)
  {
    if m == 0 {
    } else {
      Pow2Add(m - 1, n);
      calc {
        Pow2(m + n);
        2 * Pow2(m - 1 + n);
        2 * (Pow2(m - 1) * Pow2(n));
        (2 * Pow2(m - 1)) * Pow2(n);
      }
    }
  }

  lemma {:induction false} Pow2Mono(m: nat, n: nat)
    requires m <= n
    ensures Pow2(m) <= Pow2(n)
  {
    if m < n { Pow2Mono(m, n - 1); }
  }

  // ----- division

  lemma DivBelow(x: nat, d: nat)
    requires d > 0
    ensures 0 <= x / d <= x
  {
    var q := x / d;
    assert x == q * d + x % d;
    MulMono(1, d, if q < 0 then 0 else q);
  }

  lemma MulMono(a: int, b: int, d: int)
    requires a <= b && d >= 0
    ensures a * d <= b * d
  {
  }

  /** Quotient and remainder are determined by the division equation. */
  lemma DivModUnique(x: int, d: int, q: int, r: int)
    requires d > 0 && 0 <= r < d && x == q * d + r
    ensures x / d == q && x % d == r
  {
    var q', r' := x / d, x % d;
    assert (q' - q) * d == r - r' by {
      assert x == q' * d + r';
      assert (q' - q) * d == q' * d - q * d;
    }
    if q' > q {
      MulMono(1, q' - q, d);
      assert false;
    }
    if q' < q {
      MulMono(q' - q, -1, d);
      assert false;
    }
  }

  lemma DivLess(x: int, m: int, d: int)
    requires d > 0 && 0 <= x < m * d
    ensures 0 <= x / d < m
  {
  }

  // ----- bits

  lemma {:induction false} OrBelow(x: nat, y: nat, n: nat)
    requires x < Pow2(n) && y < Pow2(n)
    ensures OrBits(x, y) < Pow2(n)
    decreases x + y
  {
    if x == 0 && y == 0 {
    } else {
      OrBelow(x / 2, y / 2, n - 1);
    }
  }

  lemma {:induction false} AndBelow(x: nat, y: nat)
    ensures AndBits(x, y) <= x
    decreases x + y
  {
    if x == 0 || y == 0 {
    } else {
      AndBelow(x / 2, y / 2);
    }
  }

  /** Or-ing into vacant low bits adds. */
  lemma {:induction false} OrAdds(h: nat, y: nat, n: nat)
    requires y < Pow2(n)
    ensures OrBits(h * Pow2(n), y) == h * Pow2(n) + y
    decreases n, h
  {
    if n == 0 {
      OrZero(h);
    } else {
      var x := h * Pow2(n);
      assert x == 2 * (h * Pow2(n - 1));
      assert x / 2 == h * Pow2(n - 1) && x % 2 == 0;
      OrAdds(h, y / 2, n - 1);
    }
  }

  lemma {:induction false} OrZero(h: nat)
    ensures OrBits(h, 0) == h
  {
    if h != 0 { OrZero(h / 2); }
  }

  /** Masking with 2^n - 1 takes the remainder mod 2^n. */
  lemma {:induction false} MaskIsMod(x: nat, n: nat)
    ensures AndBits(x, Pow2(n) - 1) == x % Pow2(n)
    decreases n, x
  {
    if n == 0 {
    } else if x == 0 {
      DivModUnique(0, Pow2(n), 0, 0);
    } else {
      var p := Pow2(n - 1);
      var m := 2 * p - 1;
      MaskIsMod(x / 2, n - 1);
      HalfMod(x, p);
      AndStep(x, m);
      assert m / 2 == p - 1 && m % 2 == 1;
    }
  }

  lemma AndStep(x: nat, y: nat)
    requires x > 0 && y % 2 == 1
    ensures AndBits(x, y) == 2 * AndBits(x / 2, y / 2) + x % 2
  {
  }

  lemma HalfMod(x: nat, p: nat)
    requires p > 0
    ensures x % (2 * p) == 2 * ((x / 2) % p) + x % 2
  {
    var h := x / 2;
    assert h == (h / p) * p + h % p;
    assert x == 2 * h + x % 2;
    assert x == (h / p) * (2 * p) + (2 * (h % p) + x % 2);
    DivModUnique(x, 2 * p, h / p, 2 * (h % p) + x % 2);
  }
}
