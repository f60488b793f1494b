/** `jlong_SHL`, `jlong_SHR` and `jlong_USHR` for shift counts below 64. */
module Shifts {
  import opened Words
  import opened Jlong

  method Shl(r: JLong, a: JLong, b: UInt32)
    requires b < 64
    modifies r
    ensures U(r.Get()) == (old(U(a.Get())) * Pow2(b)) % B64
    ensures S(r.Get()) == Long(old(S(a.Get())) * Pow2(b))
  {
    ghost var x := a.Get();
    ShiftSigns(x, b);
    if b != 0 {
      var a_ := a.Get();
      if b < 32 {
        r.lo := ShlW(a_.lo, b);
        r.hi := OrW(ShlW(a_.hi, b), ShrW(a_.lo, 32 - b));
        ShlShort(x, b, r.lo, r.hi);
      } else {
        r.lo := 0;
        r.hi := ShlW(a_.lo, CountMask(b));
        ShlLong(x, b, r.hi);
      }
    } else {
      r.Set(a.Get());
      SignedFits(x);
    }
    SignedReading(r.Get(), U(x) * Pow2(b));
  }

  method Ushr(r: JLong, a: JLong, b: UInt32)
    requires b < 64
    modifies r
    ensures U(r.Get()) == old(U(a.Get())) / Pow2(b)
  {
    if b != 0 {
      var a_ := a.Get();
      if b < 32 {
        r.lo := OrW(ShlW(a_.hi, 32 - b), ShrW(a_.lo, b));
        r.hi := ShrW(a_.hi, b);
        ShrShort(a_, a_.hi, b, r.lo, r.hi);
      } else {
        r.lo := ShrW(a_.hi, CountMask(b));
        r.hi := 0;
        ShrLong(a_, a_.hi, b);
      }
    } else {
      r.Set(a.Get());
    }
  }

  method Shr(r: JLong, a: JLong, b: UInt32)
    requires b < 64
    modifies r
    ensures S(r.Get()) == old(S(a.Get())) / Pow2(b)
  {
    if b != 0 {
      var a_ := a.Get();
      if b < 32 {
        r.lo := OrW(ShlW(a_.hi, 32 - b), ShrW(a_.lo, b));
        r.hi := SarW(a_.hi, b);
        SarShort(a_, b, r.lo, r.hi);
      } else {
        r.lo := SarW(a_.hi, CountMask(b));
        r.hi := SarW(a_.hi, 31);
        SarLong(a_, b, r.lo, r.hi);
      }
    } else {
      r.Set(a.Get());
    }
  }

  /** `(b) & 31`. */
  function CountMask(b: UInt32): (r: UInt32)
    requires 32 <= b < 64
    ensures r == b - 32
  {
    Pow2Is32();
    MaskIsMod(b, 5);
    assert b % 32 == b - 32;
    AndW(b, 31)
  }

  /** Shifting by b and then by c is shifting by b + c, in each of the three senses. */
  lemma ShiftsCompose(x: int, b: nat, c: nat)
    ensures Long(Long(x * Pow2(b)) * Pow2(c)) == Long(x * Pow2(b + c))
    ensures (x / Pow2(b)) / Pow2(c) == x / Pow2(b + c)
  {
    Pow2Add(b, c);
    ScaleTwice(x, Pow2(b), Pow2(c));
    DivDiv(x, Pow2(b), Pow2(c));
  }

  lemma ScaleTwice(x: int, p: int, q: int)
    ensures Long(Long(x * p) * q) == Long(x * (p * q))
  {
    WrapThenScale(x * p, q);
    assert (x * p) * q == x * (p * q);
  }

  lemma WrapThenScale(y: int, p: int)
    ensures Long(Long(y) * p) == Long(y * p)
  {
    var k := LongIsCongruent(y);
    assert (y + k * B64) * p == y * p + (k * p) * B64;
    Congruent(Long(y) * p, y * p, k * p);
  }

  // ----- arithmetic of the halves

  lemma DivDiv(x: int, p: nat, q: nat)
    requires p > 0 && q > 0
    ensures p * q > 0 && (x / p) / q == x / (p * q)
  {
    var h := x / p;
    var r := (h % q) * p + x % p;
    assert x == h * p + x % p;
    assert h == (h / q) * q + h % q;
    assert x == (h / q) * (p * q) + r by {
      assert ((h / q) * q + h % q) * p == (h / q) * (p * q) + (h % q) * p;
    }
    MulMono(h % q, q - 1, p);
    assert (q - 1) * p == p * q - p;
    DivModUnique(x, p * q, h / q, r);
  }

  lemma ModScale(x: int, p: nat, q: nat)
    requires p > 0 && q > 0
    ensures p * q > 0
    ensures (x * p) % (p * q) == (x % q) * p
    ensures (x * p) / (p * q) == x / q
  {
    assert x == (x / q) * q + x % q;
    assert x * p == (x / q) * (p * q) + (x % q) * p by {
      assert ((x / q) * q + x % q) * p == (x / q) * (p * q) + (x % q) * p;
    }
    MulMono(x % q, q - 1, p);
    assert (q - 1) * p == p * q - p;
    assert p * q > 0;
    DivModUnique(x * p, p * q, x / q, (x % q) * p);
  }

  /** A shift count splits the word width in two. */
  lemma SplitWord(b: nat)
    requires b <= 32
    ensures Pow2(b) * Pow2(32 - b) == B32
  {
    Pow2Add(b, 32 - b);
    Pow2Is32();
  }

  lemma ShlShort(a: Dword, b: nat, lo: UInt32, hi: UInt32)
    requires 0 < b < 32
    requires lo == ShlW(a.lo, b) && hi == OrW(ShlW(a.hi, b), ShrW(a.lo, 32 - b))
    ensures U(Dword(hi, lo)) == (U(a) * Pow2(b)) % B64
  {
    var P, Q := Pow2(b), Pow2(32 - b);
    SplitWord(b);
    ModScale(a.lo, P, Q);
    ModScale(a.hi, P, Q);
    DivLess(a.lo, P, Q);
    OrAdds(a.hi % Q, a.lo / Q, b);
    ShlValue(a.hi, a.lo, P, Q, lo, hi);
  }

  lemma ShlValue(h: int, l: int, P: nat, Q: nat, lo: int, hi: int)
    requires P > 0 && Q > 0 && P * Q == B32
    requires 0 <= lo < B32 && 0 <= hi < B32
    requires lo == (l % Q) * P && hi == (h % Q) * P + l / Q
    ensures (h * B32 + l) * P == (h / Q) * B64 + (hi * B32 + lo)
    ensures hi * B32 + lo == ((h * B32 + l) * P) % B64
  {
    assert l * P == (l / Q) * B32 + lo by {
      assert l == (l / Q) * Q + l % Q;
      assert ((l / Q) * Q + l % Q) * P == (l / Q) * (P * Q) + (l % Q) * P;
    }
    assert h * P == (h / Q) * B32 + (h % Q) * P by {
      assert h == (h / Q) * Q + h % Q;
      assert ((h / Q) * Q + h % Q) * P == (h / Q) * (P * Q) + (h % Q) * P;
    }
    assert (h * B32 + l) * P == (h * P) * B32 + l * P;
    DivModUnique((h * B32 + l) * P, B64, h / Q, hi * B32 + lo);
  }

  lemma ShlLong(a: Dword, b: nat, hi: UInt32)
    requires 32 <= b < 64
    requires hi == ShlW(a.lo, b - 32)
    ensures U(Dword(hi, 0)) == (U(a) * Pow2(b)) % B64
  {
    Pow2Add(32, b - 32);
    Pow2Is32();
    ShlWhole(a.hi, a.lo, Pow2(b - 32), hi);
  }

  lemma ShlWhole(h: int, l: int, P: nat, hi: UInt32)
    requires hi == (l * P) % B32
    ensures hi * B32 == ((h * B32 + l) * (B32 * P)) % B64
  {
    var x, y := h * P, l * P;
    assert (h * B32 + l) * (B32 * P) == x * B64 + y * B32;
    assert y == (y / B32) * B32 + hi;
    DivModUnique(x * B64 + y * B32, B64, x + y / B32, hi * B32);
  }

  lemma ShiftSigns(a: Dword, b: nat)
    ensures Long(S(a) * Pow2(b)) == Long(U(a) * Pow2(b))
  {
    if S(a) != U(a) {
      assert (U(a) - B64) * Pow2(b) == U(a) * Pow2(b) - Pow2(b) * B64;
      Congruent(S(a) * Pow2(b), U(a) * Pow2(b), 0 - Pow2(b));
    }
  }

  /** Right shifts by less than a word, for the high word read as h, signed or unsigned. */
  lemma ShrShort(a: Dword, h: int, b: nat, lo: UInt32, hi: int)
    requires 0 < b < 32 && (h == a.hi || h == a.hi - B32)
    requires lo == OrW(ShlW(a.hi, 32 - b), ShrW(a.lo, b))
    requires hi == h / Pow2(b)
    ensures hi * B32 + lo == (h * B32 + a.lo) / Pow2(b)
  {
    var P, Q := Pow2(b), Pow2(32 - b);
    SplitWord(b);
    ModScale(a.hi, Q, P);
    DivLess(a.lo, Q, P);
    OrAdds(a.hi % P, a.lo / P, 32 - b);
    if h != a.hi { SameRemainder(a.hi, P, Q); }
    ShrValue(h, a.lo, P, Q);
  }

  lemma SameRemainder(x: int, P: nat, Q: nat)
    requires P > 0 && P * Q == B32
    ensures (x - B32) % P == x % P
  {
    assert x == (x / P) * P + x % P;
    assert (x / P - Q) * P == (x / P) * P - Q * P;
    DivModUnique(x - B32, P, x / P - Q, x % P);
  }

  lemma ShrValue(h: int, l: int, P: nat, Q: nat)
    requires P > 0 && Q > 0 && P * Q == B32 && 0 <= l < B32
    ensures (h / P) * B32 + (h % P) * Q + l / P == (h * B32 + l) / P
  {
    assert l == (l / P) * P + l % P;
    assert h == (h / P) * P + h % P;
    var q := (h / P) * B32 + (h % P) * Q + l / P;
    assert q * P == h * B32 + (l / P) * P by {
      assert ((h / P) * B32 + (h % P) * Q + l / P) * P
          == ((h / P) * P) * B32 + (h % P) * (P * Q) + (l / P) * P;
    }
    DivModUnique(h * B32 + l, P, q, l % P);
  }

  lemma ShrLong(a: Dword, h: int, b: nat)
    requires 32 <= b < 64
    ensures h / Pow2(b - 32) == (h * B32 + a.lo) / Pow2(b)
  {
    Pow2Add(32, b - 32);
    Pow2Is32();
    DivModUnique(h * B32 + a.lo, B32, h, a.lo);
    DivDiv(h * B32 + a.lo, B32, Pow2(b - 32));
  }

  lemma SarShort(a: Dword, b: nat, lo: UInt32, hi: UInt32)
    requires 0 < b < 32
    requires lo == OrW(ShlW(a.hi, 32 - b), ShrW(a.lo, b)) && hi == SarW(a.hi, b)
    ensures S(Dword(hi, lo)) == S(a) / Pow2(b)
  {
    var h := Int32(a.hi);
    ShrShort(a, h, b, lo, h / Pow2(b));
    SarSigned(h, b);
    SignedWords(a);
    SignedWords(Dword(hi, lo));
  }

  lemma SarLong(a: Dword, b: nat, lo: UInt32, hi: UInt32)
    requires 32 <= b < 64
    requires lo == SarW(a.hi, b - 32) && hi == SarW(a.hi, 31)
    ensures S(Dword(hi, lo)) == S(a) / Pow2(b)
  {
    var h := Int32(a.hi);
    ShrLong(a, h, b);
    SarSigned(h, b - 32);
    DivToward(h, Pow2(b - 32));
    SignWord(a.hi);
    SignedWords(a);
    SignedWords(Dword(hi, lo));
  }

  lemma SignedWords(a: Dword)
    ensures S(a) == Int32(a.hi) * B32 + a.lo
  {
  }

  lemma SarSigned(h: int, b: nat)
    requires -0x8000_0000 <= h < 0x8000_0000
    ensures -0x8000_0000 <= h / Pow2(b) < 0x8000_0000
    ensures Int32(UWord(h / Pow2(b))) == h / Pow2(b)
  {
  }

  lemma DivToward(h: int, p: nat)
    requires p > 0
    ensures if h >= 0 then 0 <= h / p <= h else h <= h / p < 0
  {
    if h >= 0 {
      DivBelow(h, p);
    } else {
      // -h - 1 is what is left above the floor
      DivBelow(-h - 1, p);
      var q, r := (-h - 1) / p, (-h - 1) % p;
      assert -h - 1 == q * p + r;
      assert (-q - 1) * p == -(q * p) - p;
      DivModUnique(h, p, -q - 1, p - 1 - r);
    }
  }

  lemma SignWord(x: UInt32)
    ensures SarW(x, 31) == if Int32(x) < 0 then 0xffff_ffff else 0
  {
    Pow2Is32();
  }
}
