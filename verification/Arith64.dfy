// 64-bit division and shifts for a 32-bit machine (src/lib/arch64.c).
// Words are naturals below 2^64; every wrap-around is written out as a remainder by 2^64.
module Arith64 {
  import opened Words
  import opened BitCounts

  // The value of a two's complement 64-bit word.
  function Signed(w: Word64): int {
    if w < TWO63 then w else w - TWO64
  }

  // The arithmetic shift by 63: all ones for a negative word, else zero.
  function SignFill(w: Word64): Word64 {
    (Signed(w) / TWO63) % TWO64
  }

  // ----- the comparison trick of the division loop

  // The sign of b - rem - 1, spread over all bits.
  function Wrap(b: Word64, rem: Word64): Word64 {
    SignFill((b - rem - 1) % TWO64)
  }

  // The trick decides rem >= b exactly when the difference fits a signed word: it is wrong, for
  // example, for rem = 0 and b = 2^63 + 1.
  lemma WrapComparesIff(b: Word64, rem: Word64)
    ensures Wrap(b, rem) == TWO64 - 1 || Wrap(b, rem) == 0
    ensures (Wrap(b, rem) != 0 <==> rem >= b) <==> b - rem <= TWO63 && rem - b < TWO63
  {
    var d := b - rem - 1;
    var w := d % TWO64;
    assert w == if d >= 0 then d else d + TWO64;
  }

  // ----- the numerator register: the unread bits of a, left-aligned

  lemma ShrStep(a: nat, m: nat)
    requires m > 0
    ensures Shr(a, m - 1) / 2 == Shr(a, m)
  {
    if m > 1 {
      ShrStep(a / 2, m - 1);
    }
  }

  lemma AlignLeft(a: nat, q: nat, p: nat) returns (low: nat)
    requires q > 0 && p * q == TWO63
    ensures a * p == a / q * TWO63 + low && low <= TWO63 - p
  {
    var hi, lo := a / q, a % q;
    low := lo * p;
    assert a == hi * q + lo;
    assert (hi * q + lo) * p == hi * (p * q) + low;
    MulMonotone(lo + 1, q, p);
    assert (lo + 1) * p == low + p && q * p == p * q;
  }

  // Shifted left by 64 - m, bit m - 1 of a is the top bit, and the 64 - m low bits are clear.
  lemma TopBit(a: nat, m: nat, p: nat) returns (low: nat)
    requires 1 <= m <= 64 && p == Pow2(64 - m)
    ensures Shl(a, 64 - m) == Shr(a, m - 1) * TWO63 + low && low <= TWO63 - p
  {
    hide Shl, Shr, Pow2;
    Pow2Values();
    Pow2Add(64 - m, m - 1);
    ShlIsMul(a, 64 - m);
    ShrIsDiv(a, m - 1);
    low := AlignLeft(a, Pow2(m - 1), p);
  }

  // Shifting a word that holds x = hi * 2^63 + low, and h in the clear bits of low.
  lemma ShiftOut(hi: nat, low: nat, h: nat)
    requires low + h < TWO63
    ensures var reg := (hi * TWO63 + low) % TWO64 + h;
            && reg < TWO64 && reg / TWO63 == hi % 2 && 2 * reg % TWO64 == 2 * low + 2 * h
    ensures 2 * (hi * TWO63 + low) % TWO64 == 2 * low
  {
    var x, y := hi * TWO63 + low, hi % 2 * TWO63 + low;
    DivUnique(x, TWO64, hi / 2, y);
    DivUnique(y + h, TWO63, hi % 2, low + h);
    DivUnique(2 * (y + h), TWO64, hi % 2, 2 * low + 2 * h);
    DivUnique(2 * x, TWO64, hi, 2 * low);
  }

  // One shift of the register, which also holds the quotient bits q read so far except the last.
  lemma RegisterStep(a: Word64, m: nat, q: nat, reg: nat)
    requires 1 <= m <= 63 && q < Pow2(64 - m)
    requires reg == Shl(a, 64 - m) % TWO64 + q / 2
    ensures reg < TWO64 && Shr(reg, 63) == Shr(a, m - 1) % 2
    ensures Shl(reg, 1) % TWO64 == Shl(a, 65 - m) % TWO64 + 2 * (q / 2)
  {
    hide Shr, Shl, Pow2;
    var low := TopBit(a, m, Pow2(64 - m));
    ShiftOut(Shr(a, m - 1), low, q / 2);
    ShrIsDiv(reg, 63);
    Pow2Values();
    ShlOne(a, 64 - m);
    ShlOne(reg, 0);
    ShlZero(reg);
  }

  lemma ShlOne(x: nat, k: nat)
    ensures Shl(x, k + 1) == 2 * Shl(x, k)
  {
  }

  lemma OrBit(v: nat, y: nat)
    requires v % 2 == 0 && y <= 1
    ensures Or(v, y) == v + y
  {
    hide Or;
    OrEven(v / 2, y);
    OrZero(v / 2);
  }

  lemma AndFill(b: Word64, bit: nat)
    requires bit <= 1
    ensures var wrap := if bit == 1 then TWO64 - 1 else 0;
            And(b, wrap) == (if bit == 1 then b else 0) && And(wrap, 1) == bit
  {
    hide And, Pow2;
    Pow2Values();
    if bit == 1 {
      AndMask(b, 64);
      AndMask(TWO64 - 1, 1);
    } else {
      AndZero(b);
      AndMask(0, 1);
    }
  }

  // ----- one iteration of the division loop

  // With m bits of num unread, q * b + rem is what has been read and rem is below b.
  ghost predicate Divided(num: Word64, b: Word64, n: nat, m: nat, q: nat, rem: nat) {
    && 0 < b <= num && m <= n && 1 <= n <= 63
    && Shr(num, m) == q * b + rem && rem < b && q < Pow2(n - m)
    && (b >= TWO63 ==> n == 1)
  }

  lemma MulStep(q: nat, b: nat, bit: nat)
    requires bit <= 1
    ensures (2 * q + bit) * b == 2 * (q * b) + if bit == 1 then b else 0
    ensures q * b >= 0
  {
  }

  // The remainder shifted by the next bit t fits in a word, and the trick decides the subtraction.
  lemma NextBit(num: Word64, b: Word64, n: nat, m: nat, q: nat, rem: nat)
    requires Divided(num, b, n, m, q, rem) && m > 0
    ensures var x := 2 * rem + Shr(num, m - 1) % 2;
            var bit := if x >= b then 1 else 0;
            && x < TWO64 && Wrap(b, x) == (if bit == 1 then TWO64 - 1 else 0)
            && Divided(num, b, n, m - 1, 2 * q + bit, if bit == 1 then x - b else x)
  {
    hide Shr, Wrap, Pow2;
    var t := Shr(num, m - 1) % 2;
    var x := 2 * rem + t;
    var bit := if x >= b then 1 else 0;
    ShrStep(num, m);
    ShrShrinks(num, m - 1);
    MulStep(q, b, bit);
    if b >= TWO63 {
      Pow2Values();
      ShrZero(num);
      assert q == 0;
    }
    WrapComparesIff(b, x);
    Pow2Doubles(n - m);
  }

  lemma Pow2Doubles(k: nat)
    ensures Pow2(k + 1) == 2 * Pow2(k)
  {
  }

  lemma DoubleMod(x: nat)
    ensures 2 * x % TWO64 == 2 * (x % TWO63)
  {
    DivUnique(2 * x, TWO64, x / TWO63, 2 * (x % TWO63));
  }

  // Shifting in a bit y from the right.
  lemma ShiftIn(x: nat, y: nat)
    requires y <= 1
    ensures Or(Shl(x, 1) % TWO64, y) == Shl(x, 1) % TWO64 + y < TWO64
    ensures x < TWO63 ==> Shl(x, 1) % TWO64 == 2 * x
  {
    hide Or;
    ShlOne(x, 0);
    ShlZero(x);
    DoubleMod(x);
    OrBit(2 * (x % TWO63), y);
  }

  // What the two shift lines of the loop body compute.
  lemma Registers(num: Word64, m: nat, q: nat, rem: nat, a: Word64)
    requires 1 <= m <= 63 && q < Pow2(64 - m) && rem < TWO63
    requires a == Shl(num, 64 - m) % TWO64 + q / 2
    ensures Or(Shl(rem, 1) % TWO64, Shr(a, 63)) == 2 * rem + Shr(num, m - 1) % 2
    ensures Or(Shl(a, 1) % TWO64, q % 2) == Shl(num, 65 - m) % TWO64 + q < TWO64
  {
    hide *;
    RegisterStep(num, m, q, a);
    var t, b := Shr(a, 63), q % 2;
    assert t <= 1 && b <= 1 && q == 2 * (q / 2) + b;
    ShiftIn(rem, t);
    ShiftIn(a, b);
  }

  ghost predicate AtLoopHead(
    num: Word64, b: Word64, n: nat, m: nat, q: nat, rem: nat, a: nat, wrap: nat) {
    && Divided(num, b, n, m, q, rem)
    && a == Shl(num, 64 - m) % TWO64 + q / 2 < TWO64
    && wrap == if q % 2 == 1 then TWO64 - 1 else 0
  }

  lemma Unread(num: Word64, b: Word64, n: nat, m: nat, q: nat, rem: nat)
    requires Divided(num, b, n, m, q, rem)
    ensures m <= 63 && q < Pow2(64 - m)
  {
    Pow2Monotone(n - m, 64 - m);
  }

  lemma Iteration(num: Word64, b: Word64, n: nat, m: nat, q: nat, rem: nat, a: nat, wrap: nat)
    returns (q': nat)
    requires AtLoopHead(num, b, n, m, q, rem, a, wrap) && m > 0
    ensures var rem' := Or(Shl(rem, 1) % TWO64, Shr(a, 63));
            var a' := Or(Shl(a, 1) % TWO64, And(wrap, 1));
            && rem' < TWO64
            && AtLoopHead(num, b, n, m - 1, q', (rem' - And(b, Wrap(b, rem'))) % TWO64, a', Wrap(b, rem'))
  {
    hide And, Or, Shl, Shr, Pow2, Wrap, Divided;
    NextBit(num, b, n, m, q, rem);
    Unread(num, b, n, m, q, rem);
    Registers(num, m, q, rem, a);
    AndFill(b, q % 2);
    var rem' := Or(Shl(rem, 1) % TWO64, Shr(a, 63));
    var bit := if rem' >= b then 1 else 0;
    q' := 2 * q + bit;
    assert q' / 2 == q && q' % 2 == bit;
    AndFill(b, bit);
    var d := if bit == 1 then rem' - b else rem';
    SmallMod(d, TWO64);
    assert 64 - (m - 1) == 65 - m;
  }

  // With no bits left the register holds the quotient without its last bit.
  lemma Finish(num: Word64, b: Word64, n: nat, q: nat, rem: nat, a: Word64)
    requires Divided(num, b, n, 0, q, rem) && a == Shl(num, 64) % TWO64 + q / 2
    ensures Or(Shl(a, 1) % TWO64, q % 2) == q < TWO64 && num == q * b + rem
  {
    hide Shl, Shr, Or, Pow2;
    ShrZero(num);
    Pow2Values();
    ShlIsMul(num, 64);
    DivUnique(Shl(num, 64), TWO64, num, 0);
    Pow2Monotone(n, 63);
    ShiftIn(a, q % 2);
  }

  // Aligning the leading bits of b and num leaves between 1 and 63 bits, and a first remainder
  // below b. Divisor 1 must be excluded: it could need 64.
  lemma Start(num: Word64, b: Word64)
    requires 2 <= b <= num
    ensures var n := BitLen(num) - BitLen(b) + 1; n >= 0 && Divided(num, b, n, n, 0, Shr(num, n))
  {
    hide Shr, Pow2, BitLen;
    var k := BitLen(b);
    BitLenAtMost(num, BitLen(num));
    BitLenAtMost(num, 64);
    BitLenAtMost(b, k);
    BitLenAtMost(b, 1);
    Pow2Values();
    BitLenAtMost(b, k - 1);
    BitLenAtMost(b, 63);
    BitLenAtMost(b, BitLen(num));
    var n := BitLen(num) - k + 1;
    ShrBounds(num, n, k - 1);
    assert 0 * b == 0;
  }

  // ----- long division

  method DivModDi4(num: Word64, b: Word64) returns (quot: Word64, r: Word64)
    requires b != 0
    ensures num == quot * b + r && r < b
  {
    hide And, Or, Shl, Shr, BitLen, Pow2, Wrap;
    if b > num {
      return 0, num;
    }
    if Shr(b, 32) == 0 {
      if b == 1 {
        return num, 0;
      }
      if Shr(num, 32) == 0 {
        return num / b, num % b;
      }
    }
    ShrIsDiv(b, 32);
    Pow2Values();
    Start(num, b);
    var cb := Clzdi2(b);
    var ca := Clzdi2(num);
    var bits: nat := cb - ca + 1;
    ghost var n: nat, q: nat := bits, 0;
    var rem: nat, a: nat, wrap: nat := Shr(num, bits), Shl(num, 64 - bits) % TWO64, 0;
    while bits > 0
      invariant AtLoopHead(num, b, n, bits, q, rem, a, wrap)
    {
      q := Iteration(num, b, n, bits, q, rem, a, wrap);
      bits := bits - 1;
      rem := Or(Shl(rem, 1) % TWO64, Shr(a, 63));
      a := Or(Shl(a, 1) % TWO64, And(wrap, 1));
      wrap := Wrap(b, rem);
      rem := (rem - And(b, wrap)) % TWO64;
    }
    AndFill(b, q % 2);
    Finish(num, b, n, q, rem, a);
    quot := Or(Shl(a, 1) % TWO64, And(wrap, 1));
    r := rem;
  }

  // ----- signed division

  // Negate a if b is negative: complement and increment, modulo 2^64.
  function Neg(a: Word64, b: Word64): Word64 {
    var nonNegative, negative := if Signed(b) >= 0 then 1 else 0, if Signed(b) < 0 then 1 else 0;
    (Xor(a, (nonNegative - 1) % TWO64) + negative) % TWO64
  }

  lemma NegNegates(a: Word64, b: Word64)
    ensures Neg(a, b) == if b < TWO63 then a else (TWO64 - a) % TWO64
  {
    hide Xor, Pow2;
    Pow2Values();
    XorZero(a);
    XorOnes(a, 64);
  }

  function Magnitude(x: int): nat {
    if x < 0 then -x else x
  }

  // Division truncated toward zero, as C defines it.
  function TruncQuot(a: int, b: int): int
    requires b != 0
  {
    var q := Magnitude(a) / Magnitude(b);
    if (a < 0) != (b < 0) then -q else q
  }

  function TruncRem(a: int, b: int): int
    requires b != 0
  {
    var r := Magnitude(a) % Magnitude(b);
    if a < 0 then -r else r
  }

  // Section 6.5.5 of C99: the quotient and remainder recombine, the remainder is smaller than the
  // divisor and has the sign of the dividend.
  lemma TruncDivides(a: int, b: int)
    requires b != 0
    ensures var q, r := TruncQuot(a, b), TruncRem(a, b);
            a == q * b + r && Magnitude(r) < Magnitude(b) && (r == 0 || (r < 0) == (a < 0))
  {
    var q, r := Magnitude(a) / Magnitude(b), Magnitude(a) % Magnitude(b);
    assert Magnitude(a) == q * Magnitude(b) + r;
    assert (-q) * b == q * (-b) == -(q * b);
    if a < 0 {
      assert TruncRem(a, b) == -r && TruncQuot(a, b) == if b < 0 then q else -q;
    }
  }

  // ... and they are the only such pair.
  lemma TruncUnique(a: int, b: int, q: int, r: int)
    requires b != 0 && a == q * b + r && Magnitude(r) < Magnitude(b)
    requires r == 0 || (r < 0) == (a < 0)
    ensures q == TruncQuot(a, b) && r == TruncRem(a, b)
  {
    var m, d, k := Magnitude(a), Magnitude(b), if (a < 0) == (b < 0) then q else -q;
    assert (-q) * b == q * (-b) == -(q * b);
    assert m == k * d + Magnitude(r);
    DivUnique(m, d, k, Magnitude(r));
  }

  method AbsvDi2(a: Word64) returns (r: Word64)
    ensures r == Magnitude(Signed(a))
  {
    NegNegates(a, a);
    r := Neg(a, a);
  }

  // The quotient is the truncated one exactly when that fits: -2^63 / -1 does not.
  method DivDi3(a: Word64, b: Word64) returns (q: Word64)
    requires b != 0
    ensures Signed(q) == TruncQuot(Signed(a), Signed(b)) <==> !(Signed(a) == -0x8000_0000_0000_0000 && Signed(b) == -1)
    ensures a == TWO63 && b == TWO64 - 1 ==> q == TWO63
  {
    hide Xor, Neg;
    var x := AbsvDi2(a);
    var y := AbsvDi2(b);
    var uq, ur := DivModDi4(x, y);
    DivUnique(x, y, uq, ur);
    SignsDiffer(a, b);
    NegNegates(uq, Xor(a, b));
    QuotientFits(x, y, uq, ur);
    q := Neg(uq, Xor(a, b));
  }

  lemma SignsDiffer(a: Word64, b: Word64)
    ensures Xor(a, b) < TWO64 && (Xor(a, b) >= TWO63 <==> (Signed(a) < 0) != (Signed(b) < 0))
  {
    Pow2Values();
    XorTop(a, b, 63);
  }

  lemma QuotientFits(x: nat, y: nat, q: nat, r: nat)
    requires y > 0 && x == q * y + r && r < y && x <= TWO63
    ensures q <= x && (q == TWO63 <==> x == TWO63 && y == 1)
  {
    MulMonotone(1, y, q);
    if y >= 2 {
      MulMonotone(2, y, q);
    }
  }

  method ModDi3(a: Word64, b: Word64) returns (r: Word64)
    requires b != 0
    ensures Signed(r) == TruncRem(Signed(a), Signed(b))
  {
    hide Xor, Neg;
    var x := AbsvDi2(a);
    var y := AbsvDi2(b);
    var uq, ur := DivModDi4(x, y);
    DivUnique(x, y, uq, ur);
    NegNegates(ur, a);
    r := Neg(ur, a);
  }

  method UdivDi3(a: Word64, b: Word64) returns (q: Word64)
    requires b != 0
    ensures q == a / b
  {
    var r;
    q, r := DivModDi4(a, b);
    DivUnique(a, b, q, r);
  }

  method UmodDi3(a: Word64, b: Word64) returns (r: Word64)
    requires b != 0
    ensures r == a % b
  {
    var q;
    q, r := DivModDi4(a, b);
    DivUnique(a, b, q, r);
  }

  // ----- shifts built from two 32-bit halves

  // For p * q = 2^32, multiplying a 32-bit word by p keeps its low part and carries out its high part.
  lemma ScaleHalf(x: int, p: nat, q: nat)
    requires p * q == TWO32
    ensures p > 0 && q > 0
    ensures x * p == x / q * TWO32 + x % q * p && 0 <= x % q * p <= TWO32 - p
    ensures x * p / TWO32 == x / q && x * p % TWO32 == x % q * p
  {
    var hi, lo := x / q, x % q;
    assert x == hi * q + lo;
    assert (hi * q + lo) * p == hi * (p * q) + lo * p;
    MulMonotone(lo + 1, q, p);
    assert (lo + 1) * p == lo * p + p && q * p == p * q;
    DivUnique(x * p, TWO32, hi, lo * p);
  }

  // The two powers on either side of a shift by s.
  lemma Powers(s: nat) returns (p: nat, q: nat)
    requires 0 < s < 32
    ensures p == Pow2(s) && q == Pow2(32 - s) && p > 0 && q > 0 && p * q == TWO32
  {
    p, q := Pow2(s), Pow2(32 - s);
    Pow2Add(s, 32 - s);
    Pow2Values();
  }

  // The bits that a shift right by s and a shift left by 32 - s leave in one half.
  lemma JoinHalves(up: Word, down: Word, s: nat, p: nat, q: nat)
    requires 0 < s < 32 && p == Pow2(s) && q == Pow2(32 - s) && p * q == TWO32
    ensures up % q * p + down / q < TWO32
    ensures Or(Shl(up, s) % TWO32, Shr(down, 32 - s)) == up % q * p + down / q
    ensures Or(Shr(down, 32 - s), Shl(up, s) % TWO32) == up % q * p + down / q
    ensures Shl(up, s) % TWO32 == up % q * p && Shr(down, 32 - s) == down / q
  {
    hide Or, Shl, Shr, Pow2;
    ShrIsDiv(down, 32 - s);
    ShlIsMul(up, s);
    ScaleHalf(up, p, q);
    ShlIsMul(up % q, s);
    DivBelow(down, q, p);
    OrDisjoint(up % q, s, down / q);
  }

  lemma LeftArithmetic(hi: Word, lo: Word, p: nat, q: nat)
    requires p * q == TWO32
    ensures q > 0
    ensures (hi % q * p + lo / q) * TWO32 + lo % q * p == (hi * TWO32 + lo) * p % TWO64
  {
    ScaleHalf(hi, p, q);
    ScaleHalf(lo, p, q);
    DivBelow(lo, q, p);
    var mid, low, hp, lp := hi % q * p, lo % q * p, hi * p, lo * p;
    assert (hi * TWO32 + lo) * p == hp * TWO32 + lp;
    DivUnique(hp * TWO32 + lp, TWO64, hi / q, (mid + lo / q) * TWO32 + low);
  }

  // Left: the bits leaving the low half enter the bottom of the high half.
  lemma LeftHalves(hi: Word, lo: Word, s: nat)
    requires 0 < s < 32
    ensures var hi' := Or(Shr(lo, 32 - s), Shl(hi, s) % TWO32);
            hi' < TWO32 && hi' * TWO32 + Shl(lo, s) % TWO32 == (hi * TWO32 + lo) * Pow2(s) % TWO64
  {
    hide Or, Shl, Shr, Pow2;
    var p, q := Powers(s);
    JoinHalves(hi, lo, s, p, q);
    JoinHalves(lo, lo, s, p, q);
    LeftArithmetic(hi, lo, p, q);
  }

  lemma DivBelow(x: nat, q: nat, p: nat)
    requires q > 0 && x < p * q
    ensures x / q < p
  {
    if x / q >= p {
      MulMonotone(p, x / q, q);
    }
  }

  // Right: the bits leaving the high half enter the top of the low half. The high half is read as
  // the signed or unsigned number h; only its remainder by 2^32 is stored.
  lemma RightHalves(h: int, hi: Word, lo: Word, s: nat)
    requires 0 < s < 32 && hi == h % TWO32
    ensures var lo' := Or(Shl(hi, 32 - s) % TWO32, Shr(lo, s));
            lo' < TWO32 && h / Pow2(s) * TWO32 + lo' == (h * TWO32 + lo) / Pow2(s)
  {
    hide Or, Shl, Shr, Pow2;
    var p, q := Powers(s);
    JoinHalves(hi, lo, 32 - s, q, p);
    LowSame(h, hi, p, q);
    RightArithmetic(h, lo, p, q);
  }

  lemma RightArithmetic(h: int, lo: Word, p: nat, q: nat)
    requires p * q == TWO32
    ensures p > 0 && h / p * TWO32 + h % p * q + lo / p == (h * TWO32 + lo) / p
  {
    ScaleHalf(h, q, p);
    var hq, k := h * q, lo / p;
    assert lo == k * p + lo % p;
    assert hq * p == h * (p * q) by {
      assert h * q * p == h * (p * q);
    }
    assert (hq + k) * p == hq * p + k * p;
    DivUnique(h * TWO32 + lo, p, hq + k, lo % p);
  }

  lemma LowSame(h: int, hi: nat, p: nat, q: nat)
    requires p * q == TWO32 && hi == h % TWO32
    ensures p > 0 && hi % p == h % p
  {
    ScaleHalf(h, q, p);
    var k, j := h / TWO32, hi / p;
    assert h == k * TWO32 + hi && hi == j * p + hi % p;
    assert k * (p * q) == k * q * p;
    assert (k * q + j) * p == k * q * p + j * p;
    DivUnique(h, p, k * q + j, hi % p);
  }

  // Shifting by 32 or more keeps one half only.
  lemma ShiftByHalf(h: int, lo: Word, s: nat)
    requires 32 <= s < 64
    ensures (h * TWO32 + lo) / Pow2(s) == h / Pow2(s - 32)
    ensures (h * TWO32 + lo) * Pow2(s) % TWO64 == lo * Pow2(s - 32) % TWO32 * TWO32
  {
    hide Pow2;
    Pow2Values();
    Pow2Add(s - 32, 32);
    var p := Pow2(s - 32);
    var x, hq, hr := h * TWO32 + lo, h / p, h % p;
    assert Pow2(s) == p * TWO32;
    assert x == hq * (p * TWO32) + (hr * TWO32 + lo) by {
      assert h == hq * p + hr;
    }
    DivUnique(x, p * TWO32, hq, hr * TWO32 + lo);
    var lp := lo * p;
    assert x * (p * TWO32) == (h * p + lp / TWO32) * TWO64 + lp % TWO32 * TWO32 by {
      assert x * (p * TWO32) == h * p * TWO64 + lp * TWO32;
    }
    DivUnique(x * (p * TWO32), TWO64, h * p + lp / TWO32, lp % TWO32 * TWO32);
  }

  lemma ShiftAmount(b: int)
    ensures And(b % TWO32, 63) == b % 64
  {
    hide And, Pow2;
    Pow2Values();
    var w := b % TWO32;
    AndMask(w, 6);
    DivUnique(b, 64, b / TWO32 * 0x400_0000 + w / 64, w % 64);
  }

  method AshlDi3(a: Word64, b: int) returns (r: Word64)
    ensures r == a * Pow2(b % 64) % TWO64
  {
    hide And, Or, Shl, Shr, Pow2;
    var hi, lo := a / TWO32, a % TWO32;
    assert a == hi * TWO32 + lo;
    var s := And(b % TWO32, 63);
    ShiftAmount(b);
    Pow2Values();
    if s >= 32 {
      ShiftByHalf(hi, lo, s);
      ShlIsMul(lo, s - 32);
      hi, lo := Shl(lo, s - 32) % TWO32, 0;
    } else if s != 0 {
      LeftHalves(hi, lo, s);
      hi := Or(Shr(lo, 32 - s), Shl(hi, s) % TWO32);
      lo := Shl(lo, s) % TWO32;
    }
    r := hi * TWO32 + lo;
  }

  method LshrDi3(a: Word64, b: int) returns (r: Word64)
    ensures r == a / Pow2(b % 64)
  {
    hide And, Or, Shl, Shr, Pow2;
    var hi, lo := a / TWO32, a % TWO32;
    var s := And(b % TWO32, 63);
    ShiftAmount(b);
    Pow2Values();
    if s >= 32 {
      ShiftByHalf(hi, lo, s);
      ShrIsDiv(hi, s - 32);
      ShrShrinks(hi, s - 32);
      hi, lo := 0, Shr(hi, s - 32);
    } else if s != 0 {
      RightHalves(hi, hi, lo, s);
      ShrIsDiv(hi, s);
      ShrShrinks(hi, s);
      lo := Or(Shl(hi, 32 - s) % TWO32, Shr(lo, s));
      hi := Shr(hi, s);
    }
    r := hi * TWO32 + lo;
  }

  // The value of a two's complement 32-bit word.
  function Signed32(w: Word): int {
    if w < 0x8000_0000 then w else w - TWO32
  }

  // The arithmetic shift of a signed half.
  function Sar32(w: Word, k: nat): Word {
    Signed32(w) / Pow2(k) % TWO32
  }

  lemma DivKeepsSign(h: int, p: nat)
    requires p > 0 && -0x8000_0000 <= h < 0x8000_0000
    ensures -0x8000_0000 <= h / p < 0x8000_0000 && (h / p < 0 <==> h < 0)
  {
    var q, r := h / p, h % p;
    assert h == q * p + r;
    if q >= 0 {
      MulMonotone(1, p, q);
      assert q * p >= 0;
    } else {
      MulMonotone(1, p, -q - 1);
      assert (-q - 1) * p == -(q * p) - p;
    }
  }

  lemma JoinSigned(h: int, lo: Word)
    requires -0x8000_0000 <= h < 0x8000_0000
    ensures Signed(h % TWO32 * TWO32 + lo) == h * TWO32 + lo
  {
  }

  lemma SarSign(hi: Word)
    ensures Sar32(hi, 31) == if Signed32(hi) < 0 then TWO32 - 1 else 0
  {
    hide Pow2;
    HighPowers();
  }

  // Shift counts from 32 up: the sign fills the high half.
  lemma SarHigh(hi: Word, lo: Word, s: nat)
    requires 32 <= s < 64
    ensures Signed(Sar32(hi, 31) * TWO32 + Sar32(hi, s - 32)) == (Signed32(hi) * TWO32 + lo) / Pow2(s)
  {
    hide Pow2, Signed;
    var h := Signed32(hi);
    var n, fill := h / Pow2(s - 32), if h < 0 then -1 else 0;
    DivKeepsSign(h, Pow2(s - 32));
    DivUnique(n, TWO32, fill, n - fill * TWO32);
    SarSign(hi);
    JoinSigned(fill, n % TWO32);
    ShiftByHalf(h, lo, s);
  }

  lemma SarLow(hi: Word, lo: Word, s: nat)
    requires 0 < s < 32
    ensures var lo' := Or(Shl(hi, 32 - s) % TWO32, Shr(lo, s));
            lo' < TWO32 && Signed(Sar32(hi, s) * TWO32 + lo') == (Signed32(hi) * TWO32 + lo) / Pow2(s)
  {
    hide Or, Shl, Shr, Pow2, Signed;
    var h := Signed32(hi);
    RightHalves(h, hi, lo, s);
    DivKeepsSign(h, Pow2(s));
    JoinSigned(h / Pow2(s), Or(Shl(hi, 32 - s) % TWO32, Shr(lo, s)));
  }

  method AshrDi3(a: Word64, b: int) returns (r: Word64)
    ensures Signed(r) == Signed(a) / Pow2(b % 64)
  {
    var hi, lo := a / TWO32, a % TWO32;
    JoinSigned(Signed32(hi), lo);
    hide And, Or, Shl, Shr, Pow2, Signed, Signed32, Sar32;
    var s := And(b % TWO32, 63);
    ShiftAmount(b);
    Pow2Values();
    if s >= 32 {
      SarHigh(hi, lo, s);
      lo := Sar32(hi, s - 32);
      hi := Sar32(hi, 31);
    } else if s != 0 {
      SarLow(hi, lo, s);
      lo := Or(Shl(hi, 32 - s) % TWO32, Shr(lo, s));
      hi := Sar32(hi, s);
    }
    r := hi * TWO32 + lo;
  }
}
