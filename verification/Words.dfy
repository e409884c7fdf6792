// Unsigned machine words as natural numbers: the shifts and bitwise operators of C defined
// one bit at a time, with the facts that turn them into multiplication, division and remainder.
module Words {
  const TWO16: nat := 0x1_0000
  const TWO32: nat := 0x1_0000_0000
  const TWO63: nat := 0x8000_0000_0000_0000
  const TWO64: nat := 0x1_0000_0000_0000_0000

  type Word = w: nat | w < 0x1_0000_0000
  type Word64 = w: nat | w < 0x1_0000_0000_0000_0000

  function Pow2(n: nat): (r: nat)
    ensures r > 0
  {
    if n == 0 then 1 else 2 * Pow2(n - 1)
  }

  // Left shift without truncation; a fixed-width shift is its remainder by 2^32 or 2^64.
  function Shl(x: nat, k: nat): nat
    decreases k
  {
    if k == 0 then x else 2 * Shl(x, k - 1)
  }

  function Shr(x: nat, k: nat): nat
    decreases k
  {
    if k == 0 then x else Shr(x / 2, k - 1)
  }

  function And(x: nat, y: nat): nat
    decreases x
  {
    if x == 0 || y == 0 then 0
    else 2 * And(x / 2, y / 2) + (if x % 2 == 1 && y % 2 == 1 then 1 else 0)
  }

  function Or(x: nat, y: nat): nat
    decreases x + y
  {
    if x == 0 && y == 0 then 0
    else 2 * Or(x / 2, y / 2) + (if x % 2 == 1 || y % 2 == 1 then 1 else 0)
  }

  function Xor(x: nat, y: nat): nat
    decreases x + y
  {
    if x == 0 && y == 0 then 0
    else 2 * Xor(x / 2, y / 2) + (if x % 2 != y % 2 then 1 else 0)
  }

  // ----- multiplication, division and powers of two

  lemma MulMonotone(a: int, b: int, c: nat)
    requires a <= b
    ensures a * c <= b * c
  {
    var k: nat := b - a;
    assert k * c >= 0;
    assert (b - a) * c == b * c - a * c;
  }

  lemma DivUnique(x: int, d: nat, q: int, r: nat)
    requires x == q * d + r && r < d
    ensures x / d == q && x % d == r
  {
    var q', r' := x / d, x % d;
    assert x == q' * d + r' && r' < d;
    assert (q + 1) * d == q * d + d && (q' + 1) * d == q' * d + d;
    if q' < q {
      MulMonotone(q' + 1, q, d);
    } else if q < q' {
      MulMonotone(q + 1, q', d);
    }
  }

  // Halving and then dividing by b is dividing by twice b.
  lemma HalfThenDiv(x: nat, b: nat)
    requires b > 0
    ensures x / (2 * b) == x / 2 / b && x % (2 * b) == 2 * (x / 2 % b) + x % 2
  {
    var hi, mid := x / 2 / b, x / 2 % b;
    assert x / 2 == hi * b + mid;
    DoubleRight(hi, b);
    DivUnique(x, 2 * b, hi, 2 * mid + x % 2);
  }

  lemma {:induction false} Pow2Add(m: nat, n: nat)
    ensures Pow2(m + n) == Pow2(m) * Pow2(n)
    decreases m
  {
    if m > 0 {
      Pow2Add(m - 1, n);
      assert 2 * (Pow2(m - 1) * Pow2(n)) == Pow2(m) * Pow2(n);
    } else {
      assert Pow2(0) * Pow2(n) == Pow2(n);
    }
  }

  lemma {:induction false} Pow2Monotone(m: nat, n: nat)
    requires m <= n
    ensures Pow2(m) <= Pow2(n)
    decreases n
  {
    if m < n {
      Pow2Monotone(m, n - 1);
    }
  }

  lemma Pow2Values()
    ensures Pow2(0) == 1 && Pow2(1) == 2 && Pow2(2) == 4 && Pow2(3) == 8 && Pow2(5) == 32 && Pow2(6) == 64 && Pow2(7) == 128
    ensures Pow2(4) == 16 && Pow2(8) == 256 && Pow2(16) == TWO16 && Pow2(32) == TWO32
    ensures Pow2(63) == TWO63 && Pow2(64) == TWO64
    ensures Pow2(10) == 1024 && Pow2(12) == 4096 && Pow2(20) == 0x10_0000 && Pow2(22) == 0x40_0000
  {
    Pow2Add(16, 16);
    Pow2Add(32, 32);
    assert Pow2(64) == 2 * Pow2(63);
  }

  // ----- shifts

  lemma {:induction false} ShlIsMul(x: nat, k: nat)
    ensures Shl(x, k) == x * Pow2(k)
  {
    if k > 0 {
      ShlIsMul(x, k - 1);
      DoubleRight(x, Pow2(k - 1));
    } else {
      assert x * Pow2(0) == x;
    }
  }

  lemma DoubleRight(x: nat, y: nat)
    ensures x * (2 * y) == 2 * (x * y)
  {
  }

  lemma {:induction false} ShrIsDiv(x: nat, k: nat)
    ensures Shr(x, k) == x / Pow2(k)
    decreases k
  {
    if k > 0 {
      ShrIsDiv(x / 2, k - 1);
      HalfThenDiv(x, Pow2(k - 1));
    }
  }

  // ----- masks

  lemma {:induction false} AndMask(x: nat, k: nat)
    ensures And(x, Pow2(k) - 1) == x % Pow2(k)
    decreases k
  {
    if k > 0 {
      var h := Pow2(k - 1);
      AndMask(x / 2, k - 1);
      AndOdd(x, h - 1);
      HalfThenDiv(x, h);
    }
  }

  lemma AndOdd(x: nat, y: nat)
    ensures And(x, 2 * y + 1) == 2 * And(x / 2, y) + x % 2
  {
  }

  lemma AndEven(x: nat, y: nat)
    ensures And(x, 2 * y) == 2 * And(x / 2, y)
  {
    var z := 2 * y;
    assert z / 2 == y && z % 2 == 0;
    assert And(x, z) == 2 * And(x / 2, z / 2);
  }

  // A mask shifted left by k selects from the word shifted right by k.
  lemma {:induction false} AndShifted(x: nat, m: nat, k: nat)
    ensures And(x, Shl(m, k)) == Shl(And(Shr(x, k), m), k)
    decreases k
  {
    if k > 0 {
      AndShifted(x / 2, m, k - 1);
      AndEven(x, Shl(m, k - 1));
    }
  }

  lemma {:induction false} OrCommutes(x: nat, y: nat)
    ensures Or(x, y) == Or(y, x)
    decreases x + y
  {
    if x != 0 || y != 0 {
      OrCommutes(x / 2, y / 2);
    }
  }

  lemma OrEven(x: nat, y: nat)
    ensures Or(2 * x, y) == 2 * Or(x, y / 2) + y % 2
  {
  }

  lemma OrZero(x: nat)
    ensures Or(x, 0) == x
  {
  }

  // A word shifted left by k, or-ed with a k-bit word, is their sum.
  lemma {:induction false} OrDisjoint(x: nat, k: nat, y: nat)
    requires y < Pow2(k)
    ensures Or(Shl(x, k), y) == Shl(x, k) + y == Or(y, Shl(x, k))
    decreases k
  {
    if k == 0 {
      OrZero(x);
    } else {
      OrDisjoint(x, k - 1, y / 2);
      OrEven(Shl(x, k - 1), y);
    }
    OrCommutes(Shl(x, k), y);
  }

  // Or with a k-bit word leaves the bits from k up alone.
  lemma {:induction false} OrLow(x: nat, k: nat, y: nat)
    requires y < Pow2(k)
    ensures Shr(Or(x, y), k) == Shr(x, k)
    decreases k
  {
    if k == 0 {
      OrZero(x);
    } else {
      OrLow(x / 2, k - 1, y / 2);
      OrHalves(x, y);
    }
  }

  lemma OrHalves(x: nat, y: nat)
    ensures Or(x, y) / 2 == Or(x / 2, y / 2)
    ensures Or(x, y) % 2 == if x % 2 == 1 || y % 2 == 1 then 1 else 0
  {
  }

  lemma XorOdd(x: nat, y: nat)
    ensures Xor(x, 2 * y + 1) == 2 * Xor(x / 2, y) + (1 - x % 2)
  {
  }

  lemma XorZero(x: nat)
    ensures Xor(x, 0) == x
  {
  }

  // Exclusive or with k ones complements a k-bit word.
  lemma {:induction false} XorOnes(x: nat, k: nat)
    requires x < Pow2(k)
    ensures Xor(x, Pow2(k) - 1) == Pow2(k) - 1 - x
    decreases k
  {
    if k > 0 {
      var h := Pow2(k - 1);
      XorOnes(x / 2, k - 1);
      XorOdd(x, h - 1);
    }
  }

  // The top bit of an exclusive or says whether the top bits differ.
  lemma {:induction false} XorTop(x: nat, y: nat, k: nat)
    requires x < Pow2(k + 1) && y < Pow2(k + 1)
    ensures Xor(x, y) < Pow2(k + 1)
    ensures Xor(x, y) >= Pow2(k) <==> ((x >= Pow2(k)) != (y >= Pow2(k)))
    decreases k
  {
    if k > 0 {
      XorTop(x / 2, y / 2, k - 1);
    } else {
      assert Pow2(1) == 2;
      assert x <= 1 && y <= 1;
      assert Xor(x / 2, y / 2) == 0;
    }
  }
}
