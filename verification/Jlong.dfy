/** The struct form of Java's `long`: two 32-bit words and the macros that compute with them.
    Every macro is a method whose result object may be one of its operands; each is proved
    against the native 64-bit form of the same header (two's complement, wrapping). */
module Jlong {
  import opened Words

  /** A struct value, as held by the local copies `_a` and `_b`. */
  datatype Dword = Dword(hi: UInt32, lo: UInt32)

  /** The unsigned reading of the two words. */
  function U(d: Dword): (r: int)
    ensures 0 <= r < B64
  {
    d.hi * B32 + d.lo
  }

  /** The signed reading. */
  function S(d: Dword): (r: int)
    ensures -B64 / 2 <= r < B64 / 2
  {
    if d.hi < 0x8000_0000 then U(d) else U(d) - B64
  }

  /** The high word counts 2^32 times, and its top bit is the sign. */
  lemma Readings(h: UInt32, l: UInt32)
    ensures U(Dword(h, l)) == h * 0x1_0000_0000 + l
    ensures S(Dword(h, l)) == U(Dword(h, l)) - (if h >= 0x8000_0000 then 0x1_0000_0000_0000_0000 else 0)
  {
  }

  /** What a native signed 64-bit variable holds after an assignment of x. */
  function Long(x: int): (r: int)
    ensures -B64 / 2 <= r < B64 / 2
  {
    var m := x % B64;
    if m < B64 / 2 then m else m - B64
  }

  function OfU(n: int): (d: Dword)
    requires 0 <= n < B64
    ensures U(d) == n
  {
    Dword(n / B32, n % B32)
  }

  /** C's division, truncating toward zero, and its remainder (ISO/IEC 9899:1999, 6.5.5). */
  function TruncDiv(x: int, y: int): int
    requires y != 0
  {
    var q := Abs(x) / Abs(y);
    if (x < 0) != (y < 0) then -q else q
  }

  function TruncMod(x: int, y: int): int
    requires y != 0
  {
    var r := Abs(x) % Abs(y);
    if x < 0 then -r else r
  }

  function Abs(x: int): nat { if x < 0 then -x else x }

  /** A variable of the struct type. */
  class JLong {
    var hi: UInt32
    var lo: UInt32

    constructor (d: Dword)
      ensures Get() == d
    {
      hi, lo := d.hi, d.lo;
    }

    function Get(): Dword
      reads this
    {
      Dword(hi, lo)
    }

    method Set(d: Dword)
      modifies this
      ensures Get() == d
    {
      hi, lo := d.hi, d.lo;
    }
  }

  // ----- comparisons

  /** The relational operator a comparison macro is given. */
  datatype Relop = Lt | Gt | Le | Ge

  predicate Strict(op: Relop) { op.Lt? || op.Gt? }

  predicate Rel(op: Relop, x: int, y: int)
  {
    match op
    case Lt => x < y
    case Gt => x > y
    case Le => x <= y
    case Ge => x >= y
  }

  /** `jlong_CMP(a, op, b)`: the signed comparison for a strict operator. For another operator equal
      high words decide alone, and the answer is right unless the low words are out of order. */
  predicate Cmp(a: Dword, op: Relop, b: Dword)
    ensures op == Lt ==> (Cmp(a, op, b) <==> S(a) < S(b))
    ensures op == Gt ==> (Cmp(a, op, b) <==> S(a) > S(b))
    ensures op == Le ==> (Cmp(a, op, b) <==> S(a) <= S(b) || a.hi == b.hi)
    ensures op == Ge ==> (Cmp(a, op, b) <==> S(a) >= S(b) || a.hi == b.hi)
    ensures (Cmp(a, op, b) <==> Rel(op, S(a), S(b))) <==> (Strict(op) || a.hi != b.hi || Rel(op, a.lo, b.lo))
  {
    Rel(op, Int32(a.hi), Int32(b.hi)) || (a.hi == b.hi && Rel(op, a.lo, b.lo))
  }

  /** `jlong_UCMP(a, op, b)`: the same, unsigned. */
  predicate UCmp(a: Dword, op: Relop, b: Dword)
    ensures op == Lt ==> (UCmp(a, op, b) <==> U(a) < U(b))
    ensures op == Gt ==> (UCmp(a, op, b) <==> U(a) > U(b))
    ensures op == Le ==> (UCmp(a, op, b) <==> U(a) <= U(b) || a.hi == b.hi)
    ensures op == Ge ==> (UCmp(a, op, b) <==> U(a) >= U(b) || a.hi == b.hi)
    ensures (UCmp(a, op, b) <==> Rel(op, U(a), U(b))) <==> (Strict(op) || a.hi != b.hi || Rel(op, a.lo, b.lo))
  {
    Rel(op, a.hi, b.hi) || (a.hi == b.hi && Rel(op, a.lo, b.lo))
  }

  predicate Eq(a: Dword, b: Dword)
    ensures Eq(a, b) <==> U(a) == U(b)
    ensures Eq(a, b) <==> S(a) == S(b)
  {
    a.hi == b.hi && a.lo == b.lo
  }

  predicate GeZero(a: Dword)
    ensures GeZero(a) <==> S(a) >= 0
  {
    Pow2Is32();
    ShrW(a.hi, 31) == 0
  }

  /** Each comparison is a strict total order, with the word-wise equality as its equality. */
  lemma StrictOrder(a: Dword, b: Dword, c: Dword)
    ensures !Cmp(a, Lt, a) && (Cmp(a, Lt, b) && Cmp(b, Lt, c) ==> Cmp(a, Lt, c))
    ensures Eq(a, b) <==> !Cmp(a, Lt, b) && !Cmp(b, Lt, a)
    ensures !(Cmp(a, Lt, b) && Cmp(b, Lt, a)) && (Cmp(a, Gt, b) <==> Cmp(b, Lt, a))
    ensures !UCmp(a, Lt, a) && (UCmp(a, Lt, b) && UCmp(b, Lt, c) ==> UCmp(a, Lt, c))
    ensures Eq(a, b) <==> !UCmp(a, Lt, b) && !UCmp(b, Lt, a)
    ensures !(UCmp(a, Lt, b) && UCmp(b, Lt, a)) && (UCmp(a, Gt, b) <==> UCmp(b, Lt, a))
  {
  }

  // ----- words and values

  /** Congruent values are stored as the same words. */
  lemma Congruent(x: int, y: int, k: int)
    requires x == y + k * B64
    ensures x % B64 == y % B64
    ensures Long(x) == Long(y)
  {
  }

  /** The signed reading of words that hold x mod 2^64 is the native value of x. */
  lemma SignedReading(d: Dword, x: int)
    requires U(d) == x % B64
    ensures S(d) == Long(x)
  {
  }

  lemma SignedFits(d: Dword)
    ensures S(d) % B64 == U(d)
    ensures Long(S(d)) == S(d)
    ensures S(d) == U(d) || S(d) == U(d) - B64
  {
  }

  // ----- addition, subtraction, negation

  /** Two words with a carry or borrow c between them, each taken mod 2^32. */
  lemma CarryChain(h: int, l: int, lo: UInt32, hi: UInt32, c: int)
    requires lo == l % B32 && l == lo + c * B32
    requires hi == (h + c) % B32
    ensures U(Dword(hi, lo)) == (h * B32 + l) % B64
  {
  }

  lemma Nested(x: int, y: int)
    ensures (x % B32 + y) % B32 == (x + y) % B32
    ensures (x % B32 - y) % B32 == (x - y) % B32
  {
  }

  lemma SignsCancel(a: Dword, b: Dword)
    ensures Long(S(a) + S(b)) == Long(U(a) + U(b))
    ensures Long(S(a) - S(b)) == Long(U(a) - U(b))
    ensures Long(-S(a)) == Long(-U(a))
  {
    var i := if S(a) == U(a) then 0 else -1;
    var j := if S(b) == U(b) then 0 else -1;
    Congruent(S(a) + S(b), U(a) + U(b), i + j);
    Congruent(S(a) - S(b), U(a) - U(b), i - j);
    Congruent(-S(a), -U(a), -i);
  }

  method Neg(r: JLong, a: JLong)
    modifies r
    ensures U(r.Get()) == (-old(U(a.Get()))) % B64
    ensures S(r.Get()) == Long(-old(S(a.Get())))
  {
    ghost var x := a.Get();
    r.lo := UWord(-Int32(a.lo));
    r.hi := SubW(UWord(-Int32(a.hi)), Bit(r.lo != 0));
    NegWords(x, r.lo, r.hi);
    SignsCancel(x, x);
    SignedReading(r.Get(), -U(x));
  }

  lemma NegWords(x: Dword, lo: UInt32, hi: UInt32)
    requires lo == UWord(-Int32(x.lo)) && hi == SubW(UWord(-Int32(x.hi)), Bit(lo != 0))
    ensures U(Dword(hi, lo)) == (-U(x)) % B64
  {
    NegWord(x.lo);
    NegWord(x.hi);
    var c := -Bit(lo != 0);
    assert 0 - x.lo == lo + c * B32;
    Nested(0 - x.hi, Bit(lo != 0));
    CarryChain(0 - x.hi, 0 - x.lo, lo, hi, c);
  }

  lemma NegWord(x: UInt32)
    ensures UWord(-Int32(x)) == (0 - x) % B32 == if x == 0 then 0 else B32 - x
  {
  }

  method Add(r: JLong, a: JLong, b: JLong)
    modifies r
    ensures U(r.Get()) == (old(U(a.Get())) + old(U(b.Get()))) % B64
    ensures S(r.Get()) == Long(old(S(a.Get())) + old(S(b.Get())))
  {
    var a_, b_ := a.Get(), b.Get();
    r.lo := AddW(a_.lo, b_.lo);
    r.hi := AddW(AddW(a_.hi, b_.hi), Bit(r.lo < b_.lo));
    AddWords(a_, b_, r.lo, r.hi);
    SignsCancel(a_, b_);
    SignedReading(r.Get(), U(a_) + U(b_));
  }

  method Sub(r: JLong, a: JLong, b: JLong)
    modifies r
    ensures U(r.Get()) == (old(U(a.Get())) - old(U(b.Get()))) % B64
    ensures S(r.Get()) == Long(old(S(a.Get())) - old(S(b.Get())))
  {
    var a_, b_ := a.Get(), b.Get();
    r.lo := SubW(a_.lo, b_.lo);
    r.hi := SubW(SubW(a_.hi, b_.hi), Bit(a_.lo < b_.lo));
    SubWords(a_, b_, r.lo, r.hi);
    SignsCancel(a_, b_);
    SignedReading(r.Get(), U(a_) - U(b_));
  }

  /** Adding a common term keeps the signed order when neither sum overflows. */
  lemma AddKeepsOrder(a: Dword, b: Dword, c: Dword, x: Dword, y: Dword)
    requires U(x) == (U(a) + U(c)) % B64 && U(y) == (U(b) + U(c)) % B64
    requires Long(S(a) + S(c)) == S(a) + S(c) && Long(S(b) + S(c)) == S(b) + S(c)
    ensures Cmp(x, Lt, y) <==> Cmp(a, Lt, b)
  {
    SignsCancel(a, c);
    SignsCancel(b, c);
    SignedReading(x, U(a) + U(c));
    SignedReading(y, U(b) + U(c));
  }

  lemma AddWords(a: Dword, b: Dword, lo: UInt32, hi: UInt32)
    requires lo == AddW(a.lo, b.lo) && hi == AddW(AddW(a.hi, b.hi), Bit(lo < b.lo))
    ensures U(Dword(hi, lo)) == (U(a) + U(b)) % B64
  {
    var c := Bit(lo < b.lo);
    assert a.lo + b.lo == lo + c * B32;
    Nested(a.hi + b.hi, c);
    CarryChain(a.hi + b.hi, a.lo + b.lo, lo, hi, c);
  }

  lemma SubWords(a: Dword, b: Dword, lo: UInt32, hi: UInt32)
    requires lo == SubW(a.lo, b.lo) && hi == SubW(SubW(a.hi, b.hi), Bit(a.lo < b.lo))
    ensures U(Dword(hi, lo)) == (U(a) - U(b)) % B64
  {
    var c := Bit(a.lo < b.lo);
    assert a.lo - b.lo == lo - c * B32;
    Nested(a.hi - b.hi, c);
    CarryChain(a.hi - b.hi, a.lo - b.lo, lo, hi, -c);
  }

  // ----- multiplication

  /** Digit products y0 to y3 in base B, added up the way of `jlong_MUL32` in words below W: the
      first sum into the middle digit does not carry; the second carries exactly when the wrapped sum
      is below its second term; neither word of the result wraps; together they are v. */
  predicate AddUp(B: nat, W: nat, y0: nat, y1: nat, y2: nat, y3: nat, v: nat)
    requires B > 0 && W > 0
  {
    var m := y1 + y0 / B;
    var w := (m + y2) % W;
    var hi := y3 + (if w < y2 then B else 0) + w / B;
    var lo := (w % B) * B + y0 % B;
    && m < W
    && (m + y2 >= W <==> w < y2)
    && hi < W && lo < W && hi * W + lo == v
  }

  /** The product of two 2-digit numbers in any base, one digit product at a time. */
  lemma PolynomialProduct(B: nat, W: nat, a1: nat, a0: nat, b1: nat, b0: nat)
    requires 2 <= B && W == B * B && a1 < B && a0 < B && b1 < B && b0 < B
    ensures 0 <= a0 * b0 < W && 0 <= a0 * b1 < W && 0 <= a1 * b0 < W && 0 <= a1 * b1 < W
    ensures W > 0 && 0 <= (a1 * B + a0) * (b1 * B + b0)
    ensures AddUp(B, W, a0 * b0, a0 * b1, a1 * b0, a1 * b1, (a1 * B + a0) * (b1 * B + b0))
  {
    DigitProduct(B, a0, b0);
    DigitProduct(B, a0, b1);
    DigitProduct(B, a1, b0);
    DigitProduct(B, a1, b1);
    Expand(B, a1, a0, b1, b0);
    TwoDigits(B, a1, a0);
    TwoDigits(B, b1, b0);
    DigitProduct(W, a1 * B + a0, b1 * B + b0);
    SumDigits(B, W, a0 * b0, a0 * b1, a1 * b0, a1 * b1, (a1 * B + a0) * (b1 * B + b0));
  }

  /** The same for any four digit products of that size that add up to v. */
  lemma SumDigits(B: nat, W: nat, y0: nat, y1: nat, y2: nat, y3: nat, v: nat)
    requires 2 <= B && W == B * B && W > 0
    requires y0 <= W - 2 * B + 1 && y1 <= W - 2 * B + 1 && y2 <= W - 2 * B + 1
    requires v < W * W && v == y3 * W + (y1 + y2) * B + y0
    ensures AddUp(B, W, y0, y1, y2, y3, v)
  {
    var m := y1 + y0 / B;
    LowQuotient(B, W, y0);
    var carry := if m + y2 >= W then 1 else 0;
    var w := m + y2 - carry * W;
    DivModUnique(m + y2, W, carry, w);
    CarryOut(B, W, y0, y1, y2, y3, m, w, carry, v);
  }

  lemma LowQuotient(B: nat, W: nat, y0: nat)
    requires 2 <= B && W == B * B && y0 <= W - 2 * B + 1
    ensures 0 <= y0 / B <= B - 2
  {
    assert (B - 1) * B == W - B;
    DivLess(y0, B - 1, B);
  }

  lemma CarryOut(B: nat, W: nat, y0: nat, y1: nat, y2: nat, y3: nat, m: nat, w: nat, c: nat, v: nat)
    requires 2 <= B && W == B * B && v < W * W && w < W && c <= 1
    requires m == y1 + y0 / B && m + y2 == w + c * W
    requires v == y3 * W + (y1 + y2) * B + y0
    ensures var hi := y3 + c * B + w / B;
      var lo := (w % B) * B + y0 % B;
      0 <= hi < W && 0 <= lo < W && hi * W + lo == v
  {
    DivLess(w, B, B);
    TwoDigits(B, w % B, y0 % B);
    Recombine(B, W, y0, y1, y2, y3, m, w, c);
    HighFits(W, y3 + c * B + w / B, (w % B) * B + y0 % B, v);
  }

  lemma Recombine(B: nat, W: nat, y0: nat, y1: nat, y2: nat, y3: nat, m: nat, w: nat, c: nat)
    requires 2 <= B && W == B * B
    requires m == y1 + y0 / B && m + y2 == w + c * W
    ensures (y3 + c * B + w / B) * W + ((w % B) * B + y0 % B) == y3 * W + (y1 + y2) * B + y0
  {
  }

  lemma DigitProduct(B: nat, x: nat, y: nat)
    requires 2 <= B && x < B && y < B
    ensures 0 <= x * y <= (B - 1) * (B - 1)
    ensures (B - 1) * (B - 1) == B * B - 2 * B + 1
    ensures (B - 1) * (B - 1) < (B - 1) * B
  {
    MulMono(x, B - 1, y);
    MulMono(y, B - 1, B - 1);
  }

  lemma Expand(B: int, a1: int, a0: int, b1: int, b0: int)
    ensures (a1 * B + a0) * (b1 * B + b0)
         == (a1 * b1) * (B * B) + (a0 * b1 + a1 * b0) * B + a0 * b0
  {
  }

  lemma TwoDigits(B: nat, h: nat, l: nat)
    requires h < B && l < B
    ensures 0 <= h * B + l < B * B
  {
    MulMono(h, B - 1, B);
  }

  lemma HighFits(W: nat, hi: nat, lo: nat, v: nat)
    requires W > 0 && lo < W && v < W * W && hi * W + lo == v
    ensures hi < W
  {
  }

  /** `_jlong_hi16`, `_jlong_lo16` and `x << 16`. */
  function Hi16(x: UInt32): UInt32 { x / B16 }
  function Lo16(x: UInt32): UInt32 { x % B16 }
  function Up16(x: UInt32): UInt32 { (x * B16) % B32 }

  lemma HalvesAreShifts(x: UInt32)
    ensures Hi16(x) == ShrW(x, 16)
    ensures Lo16(x) == AndW(x, 0xffff)
    ensures Up16(x) == ShlW(x, 16)
  {
    Pow2Is32();
    MaskIsMod(x, 16);
  }

  /** `jlong_MUL32`: the exact 64-bit product of two words. */
  method Mul32(r: JLong, a: UInt32, b: UInt32)
    modifies r
    ensures U(r.Get()) == a * b
  {
    var a1, a0 := Hi16(a), Lo16(a);
    var b1, b0 := Hi16(b), Lo16(b);
    var y0 := MulW(a0, b0);
    var y1 := MulW(a0, b1);
    var y2 := MulW(a1, b0);
    var y3 := MulW(a1, b1);
    WordProduct(a, b, y0, y1, y2, y3);
    ghost var p3 := y3;
    y1 := AddW(y1, Hi16(y0));
    y1 := AddW(y1, y2);
    if y1 < y2 {
      y3 := AddW(y3, 0x1_0000);
    }
    r.lo := AddW(Up16(Lo16(y1)), Lo16(y0));
    r.hi := AddW(y3, Hi16(y1));
    NoWrap(y0, y1, y2, p3, y3, r.lo, r.hi);
  }

  /** The product of half-words, an instance of the general theorem: no digit product wraps, the
      first sum into the middle digit does not carry, the second carries exactly when the macro's
      test says so, and neither word of the result overflows. */
  lemma HalfWordProduct(a1: UInt32, a0: UInt32, b1: UInt32, b0: UInt32,
                        y0: UInt32, y1: UInt32, y2: UInt32, y3: UInt32, v: nat)
    requires a1 < B16 && a0 < B16 && b1 < B16 && b0 < B16
    requires y0 == MulW(a0, b0) && y1 == MulW(a0, b1) && y2 == MulW(a1, b0) && y3 == MulW(a1, b1)
    requires v == (a1 * B16 + a0) * (b1 * B16 + b0)
    ensures y0 == a0 * b0 && y1 == a0 * b1 && y2 == a1 * b0 && y3 == a1 * b1
    ensures WordsAddUp(y0, y1, y2, y3, v)
  {
    HalfProduct(a0, b0);
    HalfProduct(a0, b1);
    HalfProduct(a1, b0);
    HalfProduct(a1, b1);
    PolynomialProduct(B16, B32, a1, a0, b1, b0);
    InWords(y0, y1, y2, y3, v);
  }

  lemma WordProduct(a: UInt32, b: UInt32, y0: UInt32, y1: UInt32, y2: UInt32, y3: UInt32)
    requires y0 == MulW(Lo16(a), Lo16(b)) && y1 == MulW(Lo16(a), Hi16(b))
    requires y2 == MulW(Hi16(a), Lo16(b)) && y3 == MulW(Hi16(a), Hi16(b))
    ensures WordsAddUp(y0, y1, y2, y3, a * b)
  {
    assert a == Hi16(a) * B16 + Lo16(a);
    assert b == Hi16(b) * B16 + Lo16(b);
    var v := a * b;
    HalfWordProduct(Hi16(a), Lo16(a), Hi16(b), Lo16(b), y0, y1, y2, y3, v);
  }

  lemma HalfProduct(x: UInt32, y: UInt32)
    requires x < B16 && y < B16
    ensures MulW(x, y) == x * y
  {
    DigitProduct(B16, x, y);
  }

  /** Digit products that fit one word, in word arithmetic. */
  lemma InWords(y0: nat, y1: nat, y2: nat, y3: nat, v: nat)
    requires y0 < B32 && y1 < B32 && y2 < B32 && y3 < B32 && AddUp(B16, B32, y0, y1, y2, y3, v)
    ensures WordsAddUp(y0, y1, y2, y3, v)
  {
    assert AddW(y1, Hi16(y0)) == y1 + y0 / B16;
  }

  predicate WordsAddUp(y0: UInt32, y1: UInt32, y2: UInt32, y3: UInt32, v: int)
  {
    var w := AddW(AddW(y1, Hi16(y0)), y2);
    && y1 + Hi16(y0) < B32
    && (y1 + Hi16(y0) + y2 >= B32 <==> w < y2)
    && DigitsFit(w, y2, y3) && WholeProduct(w, y0, y2, y3) == v
  }

  /** The high word, the propagated carry included, is a word. */
  predicate DigitsFit(w: UInt32, y2: UInt32, y3: UInt32)
  {
    y3 + (if w < y2 then B16 else 0) + Hi16(w) < B32
  }

  function WholeProduct(w: UInt32, y0: UInt32, y2: UInt32, y3: UInt32): int
  {
    (y3 + (if w < y2 then B16 else 0) + Hi16(w)) * B32 + (Lo16(w) * B16 + Lo16(y0))
  }

  lemma NoWrap(y0: UInt32, w: UInt32, y2: UInt32, p3: UInt32, y3: UInt32, lo: UInt32, hi: UInt32)
    requires DigitsFit(w, y2, p3)
    requires y3 == if w < y2 then AddW(p3, 0x1_0000) else p3
    requires lo == AddW(Up16(Lo16(w)), Lo16(y0)) && hi == AddW(y3, Hi16(w))
    ensures U(Dword(hi, lo)) == WholeProduct(w, y0, y2, p3)
  {
    assert 0 <= Lo16(w) * B16 + Lo16(y0) < B32;
    assert Up16(Lo16(w)) == Lo16(w) * B16;
  }

  method Mul(r: JLong, a: JLong, b: JLong)
    modifies r
    ensures U(r.Get()) == (old(U(a.Get())) * old(U(b.Get()))) % B64
    ensures S(r.Get()) == Long(old(S(a.Get())) * old(S(b.Get())))
  {
    var a_, b_ := a.Get(), b.Get();
    Mul32(r, a_.lo, b_.lo);
    ghost var low := r.Get();
    r.hi := AddW(r.hi, AddW(MulW(a_.hi, b_.lo), MulW(a_.lo, b_.hi)));
    MulWords(a_, b_, low, r.hi);
    SignsCancelMul(a_, b_);
    SignedReading(r.Get(), U(a_) * U(b_));
  }

  lemma MulWords(a: Dword, b: Dword, low: Dword, hi: UInt32)
    requires U(low) == a.lo * b.lo
    requires hi == AddW(low.hi, AddW(MulW(a.hi, b.lo), MulW(a.lo, b.hi)))
    ensures U(Dword(hi, low.lo)) == (U(a) * U(b)) % B64
  {
    HighSum(low.hi, a.hi, b.lo, a.lo, b.hi, hi);
    ProductOf(a, b);
    CrossSum(low, a.hi * b.lo + a.lo * b.hi, hi, a.hi * b.hi, U(a) * U(b));
  }

  lemma HighSum(h: UInt32, p: UInt32, q: UInt32, r: UInt32, s: UInt32, hi: UInt32)
    requires hi == AddW(h, AddW(MulW(p, q), MulW(r, s)))
    ensures hi == (h + (p * q + r * s)) % B32
  {
    WrapSum(h, p * q, r * s);
  }

  lemma ProductOf(a: Dword, b: Dword)
    ensures U(a) * U(b) == (a.hi * b.hi) * B64 + (a.hi * b.lo + a.lo * b.hi) * B32 + a.lo * b.lo
  {
  }

  /** The outer and inner products only reach the high word; the product of the high words falls
      off the top. */
  lemma CrossSum(low: Dword, s: int, hi: UInt32, z: int, v: int)
    requires v == z * B64 + s * B32 + U(low)
    requires hi == (low.hi + s) % B32
    ensures U(Dword(hi, low.lo)) == v % B64
  {
  }

  lemma WrapSum(h: int, x: int, y: int)
    ensures (h + (x % B32 + y % B32) % B32) % B32 == (h + (x + y)) % B32
  {
  }

  lemma SignsCancelMul(a: Dword, b: Dword)
    ensures Long(S(a) * S(b)) == Long(U(a) * U(b))
  {
    var i := if S(a) == U(a) then 0 else -1;
    var j := if S(b) == U(b) then 0 else -1;
    var u, v := U(a), U(b);
    assert (u + i * B64) * (v + j * B64) == u * v + (i * v + j * u + i * j * B64) * B64;
    Congruent(S(a) * S(b), u * v, i * v + j * u + i * j * B64);
  }

  // ----- division

  /** What the header says of `jlong_udivmod`: unsigned quotient and remainder, either of which
      the caller may decline by passing null. */
  method UDivMod(qp: JLong?, rp: JLong?, a: Dword, b: Dword)
    requires U(b) != 0
    requires qp != rp || qp == null
    modifies qp, rp
    ensures qp != null ==> U(qp.Get()) == U(a) / U(b)
    ensures rp != null ==> U(rp.Get()) == U(a) % U(b)
  {
    DivBelow(U(a), U(b));
    if qp != null { qp.Set(OfU(U(a) / U(b))); }
    if rp != null { rp.Set(OfU(U(a) % U(b))); }
  }

  /** `jlong_DIV`: truncating division; the most negative value over -1 wraps to itself. */
  method Div(r: JLong, a: JLong, b: JLong)
    requires S(b.Get()) != 0
    modifies r
    ensures S(r.Get()) == Long(TruncDiv(old(S(a.Get())), old(S(b.Get()))))
  {
    ghost var x, y := a.Get(), b.Get();
    var a_, negative := Magnitude(a);
    var b_, negativeB := Magnitude(b);
    if negativeB { negative := !negative; }
    UDivMod(r, null, a_, b_);
    ghost var q := U(r.Get());
    QuotientSign(S(x), S(y), q, negative);
    GiveSign(r, negative);
  }

  lemma QuotientSign(x: int, y: int, q: int, negative: bool)
    requires y != 0 && q == Abs(x) / Abs(y) && negative == ((x < 0) != (y < 0))
    ensures TruncDiv(x, y) == if negative then -q else q
  {
  }

  /** The closing branch of DIV and MOD. */
  method GiveSign(r: JLong, negative: bool)
    modifies r
    ensures S(r.Get()) == Long(if negative then -old(U(r.Get())) else old(U(r.Get())))
  {
    ghost var m := U(r.Get());
    if negative {
      Neg(r, r);
      SignedReading(r.Get(), -m);
    } else {
      DivModUnique(m, B64, 0, m);
      SignedReading(r.Get(), m);
    }
  }

  /** `jlong_MOD`: the remainder, with the sign of the dividend. */
  method Mod(r: JLong, a: JLong, b: JLong)
    requires S(b.Get()) != 0
    modifies r
    ensures S(r.Get()) == TruncMod(old(S(a.Get())), old(S(b.Get())))
  {
    var a_, negative := Magnitude(a);
    var b_, negativeB := Magnitude(b);
    UDivMod(null, r, a_, b_);
    ghost var m := U(r.Get());
    RemainderBelow(U(a_), U(b_));
    LongFits(-m);
    LongFits(m);
    GiveSign(r, negative);
  }

  lemma RemainderBelow(a: nat, b: nat)
    requires 0 < b <= B64 / 2
    ensures 0 <= a % b < B64 / 2
  {
  }

  /** The opening branch of DIV and MOD: the operand's sign, and its absolute value as an unsigned
      number (the most negative value is its own negation). */
  method Magnitude(a: JLong) returns (m: Dword, negative: bool)
    ensures negative <==> S(a.Get()) < 0
    ensures U(m) == Abs(S(a.Get()))
  {
    negative := Int32(a.hi) < 0;
    if negative {
      var t := new JLong(a.Get());
      Neg(t, a);
      DivModUnique(-U(a.Get()), B64, -1, B64 - U(a.Get()));
      m := t.Get();
    } else {
      m := a.Get();
    }
  }

  /** Division and remainder belong together, for every nonzero divisor: the remainder is smaller
      than the divisor and has the dividend's sign. */
  lemma DivModAgree(x: int, y: int)
    requires y != 0
    ensures x == TruncDiv(x, y) * y + TruncMod(x, y)
    ensures Abs(TruncMod(x, y)) < Abs(y)
    ensures x >= 0 ==> TruncMod(x, y) >= 0
    ensures x <= 0 ==> TruncMod(x, y) <= 0
  {
  }

  /** The stored quotient satisfies the division equation mod 2^64 without exception, the most
      negative value over -1 included; only there does the quotient itself not fit. */
  lemma WrappedDivision(x: int, y: int)
    requires -B64 / 2 <= x < B64 / 2 && -B64 / 2 <= y < B64 / 2 && y != 0
    ensures Long(Long(TruncDiv(x, y)) * y + TruncMod(x, y)) == x
    ensures Long(TruncDiv(x, y)) == TruncDiv(x, y) <==> !(x == -B64 / 2 && y == -1)
  {
    DivModAgree(x, y);
    WrappedEquation(x, y, TruncDiv(x, y), TruncMod(x, y));
    QuotientFits(x, y, Abs(x) / Abs(y));
  }

  lemma WrappedEquation(x: int, y: int, d: int, m: int)
    requires -B64 / 2 <= x < B64 / 2 && x == d * y + m
    ensures Long(Long(d) * y + m) == x
  {
    var k := LongIsCongruent(d);
    assert (d + k * B64) * y == d * y + (k * y) * B64;
    Congruent(Long(d) * y + m, x, k * y);
    LongFits(x);
  }

  lemma LongIsCongruent(x: int) returns (k: int)
    ensures Long(x) == x + k * B64
  {
    assert x == (x / B64) * B64 + x % B64;
    k := -(x / B64) - if x % B64 < B64 / 2 then 0 else 1;
  }

  lemma LongFits(x: int)
    ensures Long(x) == x <==> -B64 / 2 <= x < B64 / 2
  {
  }

  lemma QuotientFits(x: int, y: int, q: int)
    requires -B64 / 2 <= x < B64 / 2 && -B64 / 2 <= y < B64 / 2 && y != 0
    requires q == Abs(x) / Abs(y)
    ensures Long(TruncDiv(x, y)) == TruncDiv(x, y) <==> !(x == -B64 / 2 && y == -1)
  {
    LongFits(TruncDiv(x, y));
    QuotientBelow(Abs(x), Abs(y));
  }

  lemma QuotientBelow(n: nat, d: nat)
    requires d > 0
    ensures 0 <= n / d <= n
    ensures d == 1 ==> n / d == n
    ensures d > 1 ==> 2 * (n / d) <= n
  {
    DivBelow(n, d);
    assert n == (n / d) * d + n % d;
    if d > 1 { MulMono(2, d, n / d); }
  }
}
