/** The multi-word division that stands behind the DIV and MOD macros: unsigned 64 by 64 bits
    from 32-bit words, by normalising the divisor and estimating one quotient digit at a time. */
module Longlong {
  import opened Words
  import opened Jlong
  import opened Shifts

  // ----- 64 bits by 32 bits

  /** Divide a by b, whose high bit must be set and which must exceed the high word of a. */
  method NormUdivmod32(a: Dword, b: UInt32) returns (q: UInt32, r: UInt32)
    requires b >= 0x8000_0000 && a.hi < b
    ensures q == U(a) / b && r == U(a) % b
  {
    var d1, d0 := Hi16(b), Lo16(b);
    var q1, r1 := HalfDigit(a.hi, Hi16(a.lo), b, d1, d0);
    var q0, r0 := HalfDigit(r1, Lo16(a.lo), b, d1, d0);
    q := OrW(Up16(q1), q0);
    r := r0;
    JoinHalves(q1, q0);
    assert U(a) == (a.hi * B16 + Hi16(a.lo)) * B16 + Lo16(a.lo);
    assert (q1 * b + r1) * B16 == (q1 * B16) * b + r1 * B16;
    DivModUnique(U(a), b, q1 * B16 + q0, r0);
  }

  lemma JoinHalves(h: UInt32, l: UInt32)
    requires h < B16 && l < B16
    ensures OrW(Up16(h), l) == h * B16 + l
  {
    Pow2Is32();
    OrAdds(h, l, 16);
  }

  /** One half-word quotient digit, as `norm_udivmod32` computes each of its two: the estimate
      h / d1 is at most two too large, and the carry out of the first correction tells whether a
      second is needed. The estimate's product never wraps. */
  method HalfDigit(h: UInt32, x: UInt32, b: UInt32, d1: UInt32, d0: UInt32) returns (q: UInt32, r: UInt32)
    requires b >= 0x8000_0000 && d1 == Hi16(b) && d0 == Lo16(b)
    requires h < b && x < B16
    ensures q < B16 && r < b
    ensures h * B16 + x == q * b + r
  {
    DivBelow(h, d1);
    r := h % d1;
    q := h / d1;
    var m := MulW(q, d0);
    ghost var r0 := r;
    r := OrW(Up16(r), x);
    ghost var q', r' := Corrected(h, x, b, d1, d0, q, r0, m, r);
    q, r := Correct(b, m, q, r);
  }

  /** What the corrections have to do to the estimate. */
  lemma Corrected(h: UInt32, x: UInt32, b: UInt32, d1: UInt32, d0: UInt32,
                  q: UInt32, r0: UInt32, m: UInt32, r: UInt32) returns (q': int, r': int)
    requires b >= 0x8000_0000 && d1 == Hi16(b) && d0 == Lo16(b) && h < b && x < B16
    requires d1 > 0 && q == h / d1 && r0 == h % d1 && m == MulW(q, d0) && r == OrW(Up16(r0), x)
    ensures 0 <= q' < B16 && 0 <= r' < b && h * B16 + x == q' * b + r'
    ensures if r >= m then q' == q && r' == r - m
            else if r + b >= m then q' == q - 1 && r' == r + b - m
            else q' == q - 2 && r' == r + b + b - m
    ensures r < b
  {
    Estimate(h, b, d1, d0, q);
    EstimateValue(h, x, b, d1, d0, q, r0);
    PlainProduct(q, d0, m);
    JoinHalves(r0, x);
    var v := h * B16 + x;
    EstimateSum(v, q * b, q * d0, m, r0, x, r);
    q', r' := TrueDigit(v, b, m, q, r);
  }

  lemma PlainProduct(x: UInt32, y: UInt32, m: UInt32)
    requires m == MulW(x, y) && 0 <= x * y < B32
    ensures m == x * y
  {
  }

  lemma EstimateSum(v: int, qb: int, p: int, m: int, r0: int, x: int, r: int)
    requires v == qb + (r0 * B16 + x) - p && m == p && r == r0 * B16 + x
    ensures v == qb + r - m
  {
  }

  /** The two conditional corrections, mod 2^32. */
  method Correct(b: UInt32, m: UInt32, q0: UInt32, r0: UInt32) returns (q: UInt32, r: UInt32)
    requires b >= 0x8000_0000 && r0 < b && (r0 < m ==> q0 >= 1) && (r0 + b < m ==> q0 >= 2)
    ensures if r0 >= m then q == q0 && r == r0 - m
            else if r0 + b >= m then q == q0 - 1 && r == r0 + b - m
            else q == q0 - 2 && r == r0 + b + b - m
  {
    q, r := q0, r0;
    if r < m {
      q := SubW(q, 1);
      r := AddW(r, b);
      if r >= b && r < m {
        q := SubW(q, 1);
        r := AddW(r, b);
      }
    }
    r := SubW(r, m);
  }

  lemma TrueDigit(v: int, b: UInt32, m: UInt32, q: UInt32, r: UInt32) returns (q': int, r': int)
    requires b >= 0x8000_0000 && r < b
    requires v == q * b + r - m && 0 <= v < B16 * b
    ensures 0 <= q' < B16 && 0 <= r' < b && v == q' * b + r'
    ensures if r >= m then q' == q && r' == r - m
            else if r + b >= m then q' == q - 1 && r' == r + b - m
            else q' == q - 2 && r' == r + b + b - m
  {
    var k := if r >= m then 0 else if r + b >= m then 1 else 2;
    q', r' := q - k, v - (q - k) * b;
    assert (q - 1) * b == q * b - b && (q - 2) * b == q * b - 2 * b;
    DigitFits(v, b, q', r');
  }

  lemma Estimate(h: nat, b: nat, d1: nat, d0: nat, q: int)
    requires 0x8000 <= d1 < B16 && d0 < B16 && b == d1 * B16 + d0 && h < b
    requires q == h / d1
    ensures 0 <= q <= B16 + 1
    ensures 0 <= q * d0 < B32
  {
    DivLess(h, B16 + 2, d1);
    SmallProduct(q, d0);
  }

  lemma SmallProduct(q: nat, d: nat)
    requires q <= B16 + 1 && d < B16
    ensures 0 <= q * d < B32
  {
    MulMono(q, B16 + 1, d);
  }

  lemma EstimateValue(h: nat, x: nat, b: nat, d1: nat, d0: nat, q: nat, r: nat)
    requires 0x8000 <= d1 < B16 && b == d1 * B16 + d0 && h < b && x < B16
    requires q == h / d1 && r == h % d1
    ensures 0 <= r * B16 + x < b
    ensures h * B16 + x == q * b + (r * B16 + x) - q * d0
    ensures h * B16 + x < B16 * b
  {
    assert h == q * d1 + r;
    assert q * (d1 * B16 + d0) == (q * d1) * B16 + q * d0;
  }

  lemma DigitFits(v: int, b: int, q: int, r: int)
    requires b > 0 && v == q * b + r && 0 <= r < b && 0 <= v < B16 * b
    ensures 0 <= q < B16
  {
  }

  // ----- leading zeros

  method CountLeadingZeros(a: UInt32) returns (r: UInt32)
    ensures a == 0 ==> r == 32
    ensures a != 0 ==> r < 32 && 0x8000_0000 <= a * Pow2(r) < B32
  {
    var c := a;
    r := 32;
    Pow2Is32();
    c, r := Probe(a, c, r, 16);
    c, r := Probe(a, c, r, 8);
    c, r := Probe(a, c, r, 4);
    c, r := Probe(a, c, r, 2);
    c, r := Probe(a, c, r, 1);
    LastBit(a, r, c);
    if AndW(c, 1) != 0 { r := r - 1; }
  }

  /** One of the five tests: shift by k if anything is left above the low k bits. */
  method Probe(ghost a: UInt32, c: UInt32, r: UInt32, k: nat) returns (c': UInt32, r': UInt32)
    requires 0 < k < 32 && 2 * k <= r <= 32
    requires c == a / Pow2(32 - r) && c < Pow2(2 * k) && (a != 0 ==> c != 0)
    ensures k <= r' <= 32 && (c == 0 ==> r' == r)
    ensures c' == a / Pow2(32 - r') && c' < Pow2(k) && (a != 0 ==> c' != 0)
  {
    c', r' := c, r;
    var t := ShrW(c, k);
    ShiftedOut(a, c, 32 - r, k);
    if t != 0 {
      r' := r - k;
      c' := t;
    }
  }

  lemma ShiftedOut(a: nat, c: nat, s: nat, k: nat)
    requires c == a / Pow2(s) && c < Pow2(2 * k)
    ensures c / Pow2(k) == a / Pow2(s + k)
    ensures 0 <= c / Pow2(k) < Pow2(k)
    ensures c / Pow2(k) == 0 ==> c < Pow2(k)
    ensures c == 0 ==> c / Pow2(k) == 0
  {
    Pow2Add(k, k);
    Pow2Add(s, k);
    DivDiv(a, Pow2(s), Pow2(k));
    DivLess(c, Pow2(k), Pow2(k));
    QuotientOne(c, Pow2(k));
    assert c == (c / Pow2(k)) * Pow2(k) + c % Pow2(k);
  }

  lemma LastBit(a: UInt32, r: UInt32, c: UInt32)
    requires 1 <= r <= 32 && c == a / Pow2(32 - r) && c < 2
    ensures AndW(c, 1) == c
    ensures a == 0 ==> c == 0
    ensures c == 1 ==> 0x8000_0000 <= a * Pow2(r - 1) < B32
  {
    assert AndBits(1, 1) == 1 && AndBits(0, 1) == 0;
    var p, t := Pow2(32 - r), Pow2(r - 1);
    assert p * t == 0x8000_0000 by {
      Pow2Add(32 - r, r - 1);
      Pow2Is32();
    }
    QuotientOne(a, p);
    if c == 1 { TopBit(a, p, t); }
  }

  lemma QuotientOne(a: nat, p: nat)
    requires p > 0
    ensures a == 0 ==> a / p == 0
    ensures a / p == 1 ==> p <= a < 2 * p
  {
  }

  lemma TopBit(a: nat, p: nat, t: nat)
    requires p > 0 && t > 0 && p * t == 0x8000_0000 && p <= a < 2 * p
    ensures 0x8000_0000 <= a * t < B32
  {
  }

  // ----- 64 bits by 64 bits

  /** Three words holding (n1 n0) shifted left by lsh. */
  method ShiftLeft(n1: UInt32, n0: UInt32, lsh: UInt32) returns (m2: UInt32, m1: UInt32, m0: UInt32)
    requires 0 < lsh < 32
    ensures m2 < Pow2(lsh)
    ensures m2 * B64 + (m1 * B32 + m0) == (n1 * B32 + n0) * Pow2(lsh)
    ensures m0 <= B32 - Pow2(lsh)
  {
    var rsh := 32 - lsh;
    m2 := ShrW(n1, rsh);
    m1 := OrW(ShlW(n1, lsh), ShrW(n0, rsh));
    m0 := ShlW(n0, lsh);
    ShiftedWords(n1, n0, lsh, m1, m0);
  }

  lemma ShiftedWords(n1: UInt32, n0: UInt32, lsh: nat, m1: UInt32, m0: UInt32)
    requires 0 < lsh < 32
    requires m1 == OrW(ShlW(n1, lsh), ShrW(n0, 32 - lsh)) && m0 == ShlW(n0, lsh)
    ensures var P, Q := Pow2(lsh), Pow2(32 - lsh);
      && n1 / Q < P && m0 <= B32 - P
      && (n1 / Q) * B64 + (m1 * B32 + m0) == (n1 * B32 + n0) * P
  {
    var P, Q := Pow2(lsh), Pow2(32 - lsh);
    SplitWord(lsh);
    ModScale(n0, P, Q);
    ModScale(n1, P, Q);
    DivLess(n0, P, Q);
    OrAdds(n1 % Q, n0 / Q, lsh);
    ShiftedValue(n1, n0, P, Q, m1, m0);
  }

  lemma ShiftedValue(n1: UInt32, n0: UInt32, P: nat, Q: nat, m1: UInt32, m0: UInt32)
    requires P > 0 && Q > 0 && P * Q == B32
    requires m0 == (n0 % Q) * P && m1 == (n1 % Q) * P + n0 / Q
    ensures n1 / Q < P && m0 <= B32 - P
    ensures (n1 / Q) * B64 + (m1 * B32 + m0) == (n1 * B32 + n0) * P
  {
    DivLess(n1, P, Q);
    ShlValue(n1, n0, P, Q, m0, m1);
    MulMono(n0 % Q, Q - 1, P);
    assert (Q - 1) * P == B32 - P;
  }

  /** Dividing scaled numbers: the quotient is the same and the remainder is scaled too. */
  lemma ScaledDivision(n: nat, d: nat, L: nat, q: int, r: int)
    requires d > 0 && L > 0 && n * L == q * (d * L) + r && 0 <= r < d * L
    ensures q == n / d && r / L == n % d
  {
    var k := n - q * d;
    assert r == k * L by { assert q * (d * L) == (q * d) * L; }
    if k < 0 {
      MulMono(k, -1, L);
      assert false;
    }
    if k >= d {
      MulMono(d, k, L);
      assert false;
    }
    DivModUnique(n, d, q, k);
    DivModUnique(r, L, k, 0);
  }

  /** When the quotient fits one word, the shifted dividend has only two words, and its high word
      is below the shifted divisor. */
  lemma TwoWordsLeft(n1: nat, n0: UInt32, d: nat, L: nat, m2: nat, m1: nat, m0: nat)
    requires n1 < d && L > 0 && d * L < B32
    requires m2 * B64 + (m1 * B32 + m0) == (n1 * B32 + n0) * L
    ensures m2 == 0 && m1 < d * L
  {
    MulMono(n1 * B32 + n0, d * B32 - 1, L);
    assert (d * B32 - 1) * L == (d * L) * B32 - L;
  }

  /** Long division, one word at a time. */
  lemma TwoSteps(m2: int, m1: int, m0: int, b: int, q1: int, r1: int, q0: int, r0: int)
    requires m2 * B32 + m1 == q1 * b + r1
    requires r1 * B32 + m0 == q0 * b + r0
    ensures m2 * B64 + (m1 * B32 + m0) == (q1 * B32 + q0) * b + r0
  {
  }

  lemma Normalised(d: UInt32, lsh: nat)
    requires 0 < lsh < 32 && 0x8000_0000 <= d * Pow2(lsh) < B32
    ensures ShlW(d, lsh) == d * Pow2(lsh)
    ensures Pow2(lsh) <= 0x8000_0000
  {
    Pow2Mono(lsh, 31);
    Pow2Is32();
  }

  /** The branch for a one-word divisor d. */
  method DivideByWord(a: Dword, d: UInt32) returns (q1: UInt32, q0: UInt32, rem: UInt32)
    requires d != 0
    ensures q1 * B32 + q0 == U(a) / d && rem == U(a) % d
  {
    if d > a.hi {
      q1 := 0;
      q0, rem := OneDigit(a.hi, a.lo, d);
    } else {
      q1, q0, rem := TwoDigitQuotient(a.hi, a.lo, d);
    }
  }

  /** (0 q0) = (n1 n0) / (0 d). */
  method OneDigit(n1: UInt32, n0: UInt32, d: UInt32) returns (q0: UInt32, rem: UInt32)
    requires d > n1
    ensures q0 == (n1 * B32 + n0) / d && rem == (n1 * B32 + n0) % d
  {
    var lsh := CountLeadingZeros(d);
    ghost var n := n1 * B32 + n0;
    if lsh != 0 {
      Normalised(d, lsh);
      var b := ShlW(d, lsh);
      var m2, m1, m0 := ShiftLeft(n1, n0, lsh);
      TwoWordsLeft(n1, n0, d, Pow2(lsh), m2, m1, m0);
      var r: UInt32;
      q0, r := NormUdivmod32(Dword(m1, m0), b);
      ByParts(m1 * B32 + m0, b, q0, r);
      ScaledDivision(n, d, Pow2(lsh), q0, r);
      rem := ShrW(r, lsh);
    } else {
      q0, rem := NormUdivmod32(Dword(n1, n0), d);
    }
  }

  /** (q1 q0) = (n1 n0) / (0 d). */
  method TwoDigitQuotient(n1: UInt32, n0: UInt32, d: UInt32) returns (q1: UInt32, q0: UInt32, rem: UInt32)
    requires 0 < d <= n1
    ensures q1 * B32 + q0 == (n1 * B32 + n0) / d && rem == (n1 * B32 + n0) % d
  {
    var lsh := CountLeadingZeros(d);
    ghost var n := n1 * B32 + n0;
    if lsh == 0 {
      var n1' := SubW(n1, d);
      q1 := 1;
      q0, rem := NormUdivmod32(Dword(n1', n0), d);
      ByParts(n1' * B32 + n0, d, q0, rem);
      TwoSteps(0, n1, n0, d, 1, n1', q0, rem);
      DivModUnique(n, d, B32 + q0, rem);
    } else {
      Normalised(d, lsh);
      var b := ShlW(d, lsh);
      var m2, m1, m0 := ShiftLeft(n1, n0, lsh);
      var r1: UInt32, r0: UInt32;
      q1, r1 := NormUdivmod32(Dword(m2, m1), b);
      ByParts(m2 * B32 + m1, b, q1, r1);
      q0, r0 := NormUdivmod32(Dword(r1, m0), b);
      ByParts(r1 * B32 + m0, b, q0, r0);
      TwoSteps(m2, m1, m0, b, q1, r1, q0, r0);
      ScaledDivision(n, d, Pow2(lsh), q1 * B32 + q0, r0);
      rem := ShrW(r0, lsh);
    }
  }

  lemma ByParts(n: int, b: int, q: int, r: int)
    requires b > 0 && q == n / b && r == n % b
    ensures n == q * b + r && 0 <= r < b
  {
  }

  // ----- two-word divisors

  /** The remainder `ll_udivmod` stores: for a divisor with its top bit set the dividend is stored
      unreduced. */
  function StoredRemainder(a: nat, b: nat): nat
    requires b > 0
  {
    if b >= B64 / 2 then a else a % b
  }

  /** It is the remainder exactly when the divisor's top bit is clear or the dividend is smaller. */
  lemma StoredRemainderExact(a: nat, b: nat)
    requires b > 0
    ensures StoredRemainder(a, b) == a % b <==> b < B64 / 2 || a < b
  {
  }

  /** The branch for a two-word divisor: the quotient fits one word. */
  method DivideByDword(a: Dword, b: Dword) returns (q0: UInt32, rem: Dword)
    requires b.hi != 0
    ensures q0 == U(a) / U(b)
    ensures U(rem) == StoredRemainder(U(a), U(b))
  {
    var n1, n0 := a.hi, a.lo;
    if b.hi > n1 {
      q0 := 0;
      rem := Dword(n1, n0);
      DivModUnique(U(a), U(b), 0, U(a));
    } else {
      var lsh := CountLeadingZeros(b.hi);
      if lsh == 0 {
        q0, rem := TopBitDivide(a, b);
      } else {
        q0, rem := NormalisedDivide(a, b, lsh);
        assert b.hi < 0x8000_0000 by { Doubling(b.hi, lsh); }
      }
    }
  }

  lemma Doubling(h: nat, lsh: nat)
    requires lsh > 0 && h * Pow2(lsh) < B32
    ensures h < 0x8000_0000
  {
  }

  /** A divisor with its top bit set goes in once or not at all. The difference is computed but not
      used: the stored remainder is still the dividend. */
  method TopBitDivide(a: Dword, b: Dword) returns (q0: UInt32, rem: Dword)
    requires 0x8000_0000 <= b.hi <= a.hi
    ensures q0 == U(a) / U(b) && rem == a
  {
    var n1, n0 := a.hi, a.lo;
    if n1 > b.hi || n0 >= b.lo {
      q0 := 1;
      var t := new JLong(Dword(n1, n0));
      var d := new JLong(b);
      Sub(t, t, d);
      DivModUnique(U(a), U(b), 1, U(a) - U(b));
    } else {
      q0 := 0;
      DivModUnique(U(a), U(b), 0, U(a));
    }
    rem := Dword(n1, n0);
  }

  method NormalisedDivide(a: Dword, b: Dword, lsh: UInt32) returns (q0: UInt32, rem: Dword)
    requires 0 < lsh < 32 && 0x8000_0000 <= b.hi * Pow2(lsh) < B32
    ensures U(b) != 0 && q0 == U(a) / U(b) && U(rem) == U(a) % U(b)
  {
    ghost var L := Pow2(lsh);
    var rsh := 32 - lsh;
    Normalised(b.hi, lsh);
    var d2, d1, d0 := ShiftLeft(b.hi, b.lo, lsh);
    SplitWord(lsh);
    DivisorWords(b.hi, b.lo, L, Pow2(rsh), d2, d1, d0);
    var n2, n1, n0 := ShiftLeft(a.hi, a.lo, lsh);
    var q, r1 := NormUdivmod32(Dword(n2, n1), d1);
    ByParts(n2 * B32 + n1, d1, q, r1);
    CrossProduct(n2, n1, L, d1, d0, q, r1);
    ghost var q', r' := TopEstimate(n2, n1, n0, d1, d0, q, r1);
    var n: Dword;
    q0, n := CorrectTop(q, r1, n0, d1, d0);
    ScaledDivision(U(a), U(b), L, q', r');
    rem := Dword(ShrW(n.hi, lsh), OrW(ShlW(n.hi, rsh), ShrW(n.lo, lsh)));
    ShrShort(n, n.hi, lsh, rem.lo, rem.hi);
  }

  /** Subtract the cross product; when it exceeds the partial remainder, the quotient was one too
      large. The corrected product wraps below zero, and the last subtraction wraps it back. */
  method CorrectTop(q: UInt32, r1: UInt32, n0: UInt32, d1: UInt32, d0: UInt32) returns (q0: UInt32, r: Dword)
    requires q * d0 < B64 / 2 && d1 >= 0x8000_0000 && r1 < d1
    ensures var p, n, d := q * d0, r1 * B32 + n0, d1 * B32 + d0;
      if p <= n then q0 == q && U(r) == n - p else q0 == q - 1 && U(r) == n - p + d
  {
    var m := new JLong(Dword(0, 0));
    Mul32(m, q, d0);
    q0, r := Settle(q, m, Dword(r1, n0), Dword(d1, d0));
  }

  method Settle(q: UInt32, m: JLong, a: Dword, b: Dword) returns (q0: UInt32, r: Dword)
    requires U(m.Get()) < B64 / 2 <= U(b) && U(a) < U(b)
    requires q == 0 ==> U(m.Get()) == 0
    modifies m
    ensures var p := old(U(m.Get()));
      if p <= U(a) then q0 == q && U(r) == U(a) - p else q0 == q - 1 && U(r) == U(a) - p + U(b)
  {
    ghost var p := U(m.Get());
    WrapBack(U(a), p, U(b));
    q0 := q;
    var more := UCmp(m.Get(), Gt, a);
    assert more <==> p > U(a);
    if more {
      q0 := SubW(q0, 1);
      var d := new JLong(b);
      SubUnsigned(m, d);
    }
    var n := new JLong(a);
    SubUnsigned(n, m);
    r := n.Get();
  }

  /** `LL_SUB(a, a, b)` on unsigned values. */
  method SubUnsigned(a: JLong, b: JLong)
    modifies a
    ensures U(a.Get()) == (old(U(a.Get())) - old(U(b.Get()))) % B64
  {
    Sub(a, a, b);
  }

  lemma WrapBack(n: nat, p: nat, d: nat)
    requires p < B64 / 2 <= d < B64 && n < d
    ensures p <= n ==> (n - p) % B64 == n - p
    ensures p > n ==> (n - (p - d) % B64) % B64 == n - p + d
  {
  }

  /** The shifted divisor has two words, its top bit is set, and its low word ends in lsh zeros. */
  lemma DivisorWords(h: UInt32, l: UInt32, L: nat, Q: nat, d2: nat, d1: nat, d0: UInt32)
    requires L > 0 && L * Q == B32 && 0x8000_0000 <= h * L < B32
    requires d2 * B64 + (d1 * B32 + d0) == (h * B32 + l) * L
    ensures d2 == 0 && d1 >= 0x8000_0000
  {
    BelowPower(h, L, Q);
    assert (h * B32 + l) * L == (h * L) * B32 + l * L;
    MulMono(0, l, L);
    MulMono(l, B32, L);
  }

  lemma BelowPower(h: nat, L: nat, Q: nat)
    requires L > 0 && h * L < L * Q
    ensures h * L + L <= L * Q
  {
    if h >= Q {
      MulMono(Q, h, L);
      assert false;
    }
    MulMono(h + 1, Q, L);
  }

  /** The cross product of the estimated quotient and the divisor's low word is below 2^63, hence
      below the divisor: one correction is enough. */
  lemma CrossProduct(n2: nat, n1: UInt32, L: nat, d1: nat, d0: nat, q: nat, r1: nat)
    requires n2 < L <= 0x8000_0000 && d1 >= 0x8000_0000 && d0 <= B32 - L
    requires n2 * B32 + n1 == q * d1 + r1
    ensures 0 <= q * d0 < B64 / 2
  {
    MulMono(0x8000_0000, d1, q);
    assert q < 2 * L;
    ProductAtMost(q, d0, 2 * L - 1, B32 - L);
    HalfSquare(L);
  }

  lemma ProductAtMost(x: nat, y: nat, m: nat, n: nat)
    requires x <= m && y <= n
    ensures 0 <= x * y <= m * n
  {
  }

  lemma HalfSquare(L: nat)
    requires 0 < L <= 0x8000_0000
    ensures (2 * L - 1) * (B32 - L) < B64 / 2
  {
  }

  lemma TopEstimate(n2: nat, n1: nat, n0: UInt32, d1: UInt32, d0: UInt32, q: nat, r1: nat) returns (q': int, r': int)
    requires d1 >= 0x8000_0000 && n2 * B32 + n1 == q * d1 + r1 && r1 < d1
    requires 0 <= q * d0 < B64 / 2
    ensures var p, n, d := q * d0, r1 * B32 + n0, d1 * B32 + d0;
      && (if p <= n then q' == q && r' == n - p else q' == q - 1 && r' == n - p + d)
      && 0 <= r' < d
      && n2 * B64 + (n1 * B32 + n0) == q' * d + r'
  {
    var p, n, d := q * d0, r1 * B32 + n0, d1 * B32 + d0;
    assert q * d == (q * d1) * B32 + p;
    assert (q - 1) * d == q * d - d;
    if p <= n {
      q', r' := q, n - p;
    } else {
      q', r' := q - 1, n - p + d;
    }
  }

  /** `ll_udivmod` on nonzero divisors. The quotient is right; the remainder is right exactly as
      StoredRemainderExact says. */
  method LlUdivmod(qp: JLong?, rp: JLong?, a: Dword, b: Dword)
    requires U(b) != 0
    requires qp != rp || qp == null
    modifies qp, rp
    ensures qp != null ==> U(qp.Get()) == U(a) / U(b)
    ensures rp != null ==> U(rp.Get()) == StoredRemainder(U(a), U(b))
  {
    var q0, q1 := 0, 0;
    var rem: Dword;
    if b.hi == 0 {
      var low: UInt32;
      q1, q0, low := DivideByWord(a, b.lo);
      rem := Dword(0, low);
    } else {
      q0, rem := DivideByDword(a, b);
    }
    if rp != null { rp.Set(rem); }
    if qp != null { qp.Set(Dword(q1, q0)); }
  }

  /** `LL_DIV` with this division: always the truncated quotient. */
  method LlDiv(r: JLong, a: JLong, b: JLong)
    requires S(b.Get()) != 0
    modifies r
    ensures S(r.Get()) == Long(TruncDiv(old(S(a.Get())), old(S(b.Get()))))
  {
    ghost var x, y := S(a.Get()), S(b.Get());
    var a_, negative := Magnitude(a);
    var b_, negativeB := Magnitude(b);
    if negativeB { negative := !negative; }
    LlUdivmod(r, null, a_, b_);
    QuotientSign(x, y, U(r.Get()), negative);
    GiveSign(r, negative);
  }

  /** What `LL_MOD` leaves with this division. */
  function LlRemainder(x: int, y: int): int
    requires y != 0
  {
    var m := StoredRemainder(Abs(x), Abs(y));
    if x < 0 then Long(0 - m) else Long(m)
  }

  method LlMod(r: JLong, a: JLong, b: JLong)
    requires S(b.Get()) != 0
    modifies r
    ensures S(r.Get()) == LlRemainder(old(S(a.Get())), old(S(b.Get())))
  {
    var a_, negative := Magnitude(a);
    var b_, negativeB := Magnitude(b);
    LlUdivmod(null, r, a_, b_);
    GiveSign(r, negative);
  }

  /** `LL_MOD` is Java's remainder for all 64-bit operands but one pair: the most negative value
      modulo itself, which comes out as the most negative value instead of zero. */
  lemma LlRemainderExact(x: int, y: int)
    requires -B64 / 2 <= x < B64 / 2 && -B64 / 2 <= y < B64 / 2 && y != 0
    ensures LlRemainder(x, y) == TruncMod(x, y) <==> !(x == -B64 / 2 && y == -B64 / 2)
    ensures LlRemainder(-B64 / 2, -B64 / 2) == -B64 / 2 && TruncMod(-B64 / 2, -B64 / 2) == 0
  {
    StoredRemainderExact(Abs(x), Abs(y));
    DivModAgree(x, y);
    LongFits(TruncMod(x, y));
    LongFits(-B64 / 2);
    DivModUnique(B64 / 2, B64 / 2, 1, 0);
  }
}
