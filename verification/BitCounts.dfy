// Leading and trailing zeros and population count of 32- and 64-bit words (src/lib/arch64.c),
// each proved equal to a count taken one bit at a time.
module BitCounts {
  import opened Words

  // C's logical not.
  function Not(x: nat): nat {
    if x == 0 then 1 else 0
  }

  // ----- reference definitions of the bit counts

  function BitLen(a: nat): nat {
    if a == 0 then 0 else 1 + BitLen(a / 2)
  }

  function TrailingZeros(a: nat): nat
    requires a > 0
  {
    if a % 2 == 1 then 0 else 1 + TrailingZeros(a / 2)
  }

  function OnesCount(a: nat): nat {
    if a == 0 then 0 else a % 2 + OnesCount(a / 2)
  }

  // ----- leading zeros

  lemma {:induction false} BitLenAtMost(a: nat, k: nat)
    ensures BitLen(a) <= k <==> a < Pow2(k)
    decreases k
  {
    if a > 0 && k > 0 {
      BitLenAtMost(a / 2, k - 1);
    }
  }

  lemma {:induction false} BitLenShl(a: nat, k: nat)
    requires a > 0
    ensures Shl(a, k) > 0 && BitLen(Shl(a, k)) == BitLen(a) + k
  {
    if k > 0 {
      BitLenShl(a, k - 1);
      assert Shl(a, k) / 2 == Shl(a, k - 1);
    }
  }

  lemma {:induction false} ShrBounds(a: nat, j: nat, k: nat)
    ensures Shr(a, j) < Pow2(k) <==> a < Pow2(j + k)
    decreases j
  {
    if j > 0 {
      ShrBounds(a / 2, j - 1, k);
    }
  }

  lemma {:induction false} ShlPositive(x: nat, k: nat)
    ensures Shl(x, k) == 0 <==> x == 0
  {
    if k > 0 {
      ShlPositive(x, k - 1);
    }
  }

  lemma {:induction false} OnesShifted(k: nat, j: nat)
    ensures Shl(Pow2(k) - 1, j) == Pow2(j + k) - Pow2(j)
    decreases j
  {
    if j > 0 {
      OnesShifted(k, j - 1);
    }
  }

  lemma TopBitsClear(a: nat, w: nat, k: nat)
    requires a < Pow2(w) && k <= w
    ensures Pow2(w) >= Pow2(w - k)
    ensures And(a, Pow2(w) - Pow2(w - k)) == 0 <==> BitLen(a) <= w - k
  {
    hide *;
    var top := Shr(a, w - k);
    assert top < Pow2(k) by { ShrBounds(a, w - k, k); }
    assert And(top, Pow2(k) - 1) == top by { AndMask(top, k); }
    AndShifted(a, Pow2(k) - 1, w - k);
    OnesShifted(k, w - k);
    ShlPositive(top, w - k);
    Pow2Values();
    ShrBounds(a, w - k, 0);
    BitLenAtMost(a, w - k);
    Pow2Monotone(w - k, w);
  }

  lemma ShlNot(x: nat, k: nat)
    ensures Shl(Not(x), k) == if x == 0 then Pow2(k) else 0
  {
    ShlIsMul(Not(x), k);
  }

  // One line of the clz search: if the top 2^s of w bits are clear, shift them out.
  lemma ClzLine(a: nat, w: nat, s: nat, mask: nat)
    requires 0 < a < Pow2(w) && Pow2(s) <= w && mask == Pow2(w) - Pow2(w - Pow2(s))
    requires w - BitLen(a) < 2 * Pow2(s)
    ensures var b := Shl(Not(And(a, mask)), s);
            && 0 < Shl(a, b) < Pow2(w) && BitLen(Shl(a, b)) == BitLen(a) + b
            && 0 <= w - BitLen(Shl(a, b)) < Pow2(s)
  {
    hide *;
    var b := Shl(Not(And(a, mask)), s);
    ShlNot(And(a, mask), s);
    TopBitsClear(a, w, Pow2(s));
    BitLenAtMost(a, w);
    BitLenShl(a, b);
    BitLenAtMost(Shl(a, b), w);
  }

  lemma ShlZero(x: nat)
    ensures Shl(x, 0) == x
  {
  }

  lemma HighPowers()
    ensures Pow2(24) == 0x100_0000 && Pow2(28) == 0x1000_0000
    ensures Pow2(30) == 0x4000_0000 && Pow2(31) == 0x8000_0000
    ensures Pow2(48) == 0x1_0000_0000_0000 && Pow2(56) == 0x100_0000_0000_0000
    ensures Pow2(60) == 0x1000_0000_0000_0000 && Pow2(62) == 0x4000_0000_0000_0000
  {
    hide Pow2;
    Pow2Values();
    Pow2Add(12, 12); Pow2Add(4, 24); Pow2Add(2, 28); Pow2Add(1, 30);
    Pow2Add(16, 32); Pow2Add(8, 48); Pow2Add(4, 56); Pow2Add(2, 60);
  }

  method Clzsi2(x: Word) returns (n: nat)
    requires x != 0
    ensures n + BitLen(x) == 32
  {
    hide And, Shl, BitLen, Pow2, Not;
    Pow2Values();
    HighPowers();
    BitLenAtMost(x, 32);
    BitLenAtMost(x, 0);
    var a: nat, b: nat := x, 0;
    n := 0;
    ClzLine(a, 32, 4, 0xffff_0000);
    b := Shl(Not(And(a, 0xffff_0000)), 4); n := n + b; a := Shl(a, b) % TWO32;
    ClzLine(a, 32, 3, 0xff00_0000);
    b := Shl(Not(And(a, 0xff00_0000)), 3); n := n + b; a := Shl(a, b) % TWO32;
    ClzLine(a, 32, 2, 0xf000_0000);
    b := Shl(Not(And(a, 0xf000_0000)), 2); n := n + b; a := Shl(a, b) % TWO32;
    ClzLine(a, 32, 1, 0xc000_0000);
    b := Shl(Not(And(a, 0xc000_0000)), 1); n := n + b; a := Shl(a, b) % TWO32;
    ClzLine(a, 32, 0, 0x8000_0000);
    ShlZero(Not(And(a, 0x8000_0000)));
    n := n + Not(And(a, 0x8000_0000));
  }

  method Clzdi2(x: Word64) returns (n: nat)
    requires x != 0
    ensures n + BitLen(x) == 64
  {
    hide And, Shl, BitLen, Pow2, Not;
    Pow2Values();
    HighPowers();
    BitLenAtMost(x, 64);
    BitLenAtMost(x, 0);
    var a: nat, b: nat := x, 0;
    n := 0;
    ClzLine(a, 64, 5, 0xffff_ffff_0000_0000);
    b := Shl(Not(And(a, 0xffff_ffff_0000_0000)), 5); n := n + b; a := Shl(a, b) % TWO64;
    ClzLine(a, 64, 4, 0xffff_0000_0000_0000);
    b := Shl(Not(And(a, 0xffff_0000_0000_0000)), 4); n := n + b; a := Shl(a, b) % TWO64;
    ClzLine(a, 64, 3, 0xff00_0000_0000_0000);
    b := Shl(Not(And(a, 0xff00_0000_0000_0000)), 3); n := n + b; a := Shl(a, b) % TWO64;
    ClzLine(a, 64, 2, 0xf000_0000_0000_0000);
    b := Shl(Not(And(a, 0xf000_0000_0000_0000)), 2); n := n + b; a := Shl(a, b) % TWO64;
    ClzLine(a, 64, 1, 0xc000_0000_0000_0000);
    b := Shl(Not(And(a, 0xc000_0000_0000_0000)), 1); n := n + b; a := Shl(a, b) % TWO64;
    ClzLine(a, 64, 0, 0x8000_0000_0000_0000);
    ShlZero(Not(And(a, 0x8000_0000_0000_0000)));
    n := n + Not(And(a, 0x8000_0000_0000_0000));
  }
  // ----- trailing zeros

  lemma {:induction false} LowBitsClear(a: nat, k: nat)
    requires a > 0
    ensures And(a, Pow2(k) - 1) == 0 <==> TrailingZeros(a) >= k
    ensures TrailingZeros(a) >= k ==> Shr(a, k) > 0 && TrailingZeros(Shr(a, k)) == TrailingZeros(a) - k
    decreases k
  {
    hide And;
    AndZero(a);
    if k > 0 {
      AndOdd(a, Pow2(k - 1) - 1);
      if a % 2 == 0 {
        LowBitsClear(a / 2, k - 1);
      }
    }
  }

  lemma {:induction false} TrailingZerosBelow(a: nat, k: nat)
    requires 0 < a < Pow2(k)
    ensures TrailingZeros(a) < k
    decreases k
  {
    if a % 2 == 0 {
      TrailingZerosBelow(a / 2, k - 1);
    }
  }

  // One line of the ctz search: if the low 2^s bits are clear, shift them out.
  lemma CtzLine(a: nat, s: nat, mask: nat)
    requires a > 0 && mask == Pow2(Pow2(s)) - 1
    requires TrailingZeros(a) < 2 * Pow2(s)
    ensures var b := Shl(Not(And(a, mask)), s);
            && 0 < Shr(a, b) <= a && b <= TrailingZeros(a)
            && TrailingZeros(Shr(a, b)) == TrailingZeros(a) - b < Pow2(s)
  {
    hide *;
    var b := Shl(Not(And(a, mask)), s);
    ShlNot(And(a, mask), s);
    LowBitsClear(a, Pow2(s));
    ShrShrinks(a, b);
    ShrZero(a);
  }

  lemma {:induction false} ShrShrinks(a: nat, k: nat)
    ensures Shr(a, k) <= a
    decreases k
  {
    if k > 0 {
      ShrShrinks(a / 2, k - 1);
    }
  }

  lemma ShrZero(a: nat)
    ensures Shr(a, 0) == a
  {
  }

  method Ctzsi2(x: Word) returns (n: nat)
    requires x != 0
    ensures n == TrailingZeros(x)
  {
    hide And, Shl, Shr, TrailingZeros, Pow2, Not;
    Pow2Values();
    TrailingZerosBelow(x, 32);
    var a: nat, b: nat := x, 0;
    n := 0;
    CtzLine(a, 4, 0x0000_ffff);
    b := Shl(Not(And(a, 0x0000_ffff)), 4); n := n + b; a := Shr(a, b);
    CtzLine(a, 3, 0x0000_00ff);
    b := Shl(Not(And(a, 0x0000_00ff)), 3); n := n + b; a := Shr(a, b);
    CtzLine(a, 2, 0x0000_000f);
    b := Shl(Not(And(a, 0x0000_000f)), 2); n := n + b; a := Shr(a, b);
    CtzLine(a, 1, 0x0000_0003);
    b := Shl(Not(And(a, 0x0000_0003)), 1); n := n + b; a := Shr(a, b);
    CtzLine(a, 0, 0x0000_0001);
    ShlZero(Not(And(a, 0x0000_0001)));
    n := n + Not(And(a, 0x0000_0001));
  }

  method Ctzdi2(x: Word64) returns (n: nat)
    requires x != 0
    ensures n == TrailingZeros(x)
  {
    hide And, Shl, Shr, TrailingZeros, Pow2, Not;
    Pow2Values();
    TrailingZerosBelow(x, 64);
    var a: nat, b: nat := x, 0;
    n := 0;
    CtzLine(a, 5, 0xffff_ffff);
    b := Shl(Not(And(a, 0xffff_ffff)), 5); n := n + b; a := Shr(a, b);
    CtzLine(a, 4, 0xffff);
    b := Shl(Not(And(a, 0xffff)), 4); n := n + b; a := Shr(a, b);
    CtzLine(a, 3, 0xff);
    b := Shl(Not(And(a, 0xff)), 3); n := n + b; a := Shr(a, b);
    CtzLine(a, 2, 0xf);
    b := Shl(Not(And(a, 0xf)), 2); n := n + b; a := Shr(a, b);
    CtzLine(a, 1, 0x3);
    b := Shl(Not(And(a, 0x3)), 1); n := n + b; a := Shr(a, b);
    CtzLine(a, 0, 0x1);
    ShlZero(Not(And(a, 0x1)));
    n := n + Not(And(a, 0x1));
  }

  // The index of the lowest set bit counted from one, or zero for the zero word.
  method Ffsdi2(x: Word64) returns (n: nat)
    ensures n == if x == 0 then 0 else TrailingZeros(x) + 1
  {
    if x != 0 {
      n := Ctzdi2(x);
      n := n + 1;
    } else {
      n := 0;
    }
  }

  // ----- population count by parallel sums

  // The masks 0x5..5, 0x3..3 and 0x0F..0F over n fields, and the byte mask 0x01..01.
  function Fives(n: nat): nat { if n == 0 then 0 else 4 * Fives(n - 1) + 1 }
  function Threes(n: nat): nat { if n == 0 then 0 else 16 * Threes(n - 1) + 3 }
  function Fifteens(n: nat): nat { if n == 0 then 0 else 256 * Fifteens(n - 1) + 15 }
  function ByteOnes(n: nat): nat { if n == 0 then 0 else 256 * ByteOnes(n - 1) + 1 }

  // The bit counts of the n low 2-bit, 4-bit and 8-bit fields of a, each in its own field.
  function PairCounts(a: nat, n: nat): nat
    decreases n
  {
    if n == 0 then 0 else 4 * PairCounts(a / 4, n - 1) + OnesCount(a % 4)
  }

  function NibbleCounts(a: nat, n: nat): nat
    decreases n
  {
    if n == 0 then 0 else 16 * NibbleCounts(a / 16, n - 1) + OnesCount(a % 16)
  }

  function ByteCounts(a: nat, n: nat): nat
    decreases n
  {
    if n == 0 then 0 else 256 * ByteCounts(a / 256, n - 1) + OnesCount(a % 256)
  }

  lemma OnesCountPair(a: nat)
    ensures OnesCount(a) == OnesCount(a / 4) + OnesCount(a % 4)
    ensures OnesCount(a % 4) == a % 4 - a / 2 % 2 <= 2
  {
    assert OnesCount(0) == 0 && OnesCount(1) == 1 && OnesCount(2) == 1 && OnesCount(3) == 2;
    var h := a / 2;
    assert OnesCount(a) == a % 2 + OnesCount(h) && OnesCount(h) == h % 2 + OnesCount(h / 2);
    assert h / 2 == a / 4 && a % 4 == 2 * (h % 2) + a % 2;
    var low := a % 4;
    assert low == 0 || low == 1 || low == 2 || low == 3;
  }

  lemma OnesCountNibble(a: nat)
    ensures OnesCount(a) == OnesCount(a / 16) + OnesCount(a % 16)
    ensures OnesCount(a % 16) == OnesCount(a % 4) + OnesCount(a / 4 % 4) <= 4
  {
    hide OnesCount;
    OnesCountPair(a);
    OnesCountPair(a / 4);
    OnesCountPair(a % 16);
    assert a / 4 / 4 == a / 16 && a % 16 / 4 == a / 4 % 4 && a % 16 % 4 == a % 4;
  }

  lemma OnesCountByte(a: nat)
    ensures OnesCount(a) == OnesCount(a / 256) + OnesCount(a % 256)
    ensures OnesCount(a % 256) == OnesCount(a % 16) + OnesCount(a / 16 % 16) <= 8
  {
    hide OnesCount;
    OnesCountNibble(a);
    OnesCountNibble(a / 16);
    OnesCountNibble(a % 256);
    assert a / 16 / 16 == a / 256 && a % 256 / 16 == a / 16 % 16 && a % 256 % 16 == a % 16;
  }

  // Subtracting the upper bit of each pair: no pair borrows from its neighbour.
  lemma {:induction false} PairStep(a: nat, n: nat)
    requires a < Pow2(2 * n)
    ensures a - And(Shr(a, 1), Fives(n)) == PairCounts(a, n)
    decreases n
  {
    hide And, OnesCount;
    if n > 0 {
      var m := Fives(n - 1);
      assert Pow2(2 * n) == 4 * Pow2(2 * (n - 1));
      PairStep(a / 4, n - 1);
      assert Shr(a, 1) == a / 2 && Shr(a / 4, 1) == a / 8;
      AndOdd(a / 2, 2 * m);
      AndEven(a / 4, m);
      OnesCountPair(a);
    } else {
      AndZero(Shr(a, 1));
    }
  }

  lemma AndZero(x: nat)
    ensures And(x, 0) == 0
  {
  }

  // Adding the masked halves of each nibble adds neighbouring pair counts.
  lemma {:induction false} NibbleStep(a: nat, n: nat)
    ensures var x := PairCounts(a, 2 * n);
            And(x / 4, Threes(n)) + And(x, Threes(n)) == NibbleCounts(a, n)
    decreases n
  {
    hide And, OnesCount;
    var x := PairCounts(a, 2 * n);
    if n > 0 {
      var m := Threes(n - 1);
      var x' := PairCounts(a / 16, 2 * (n - 1));
      NibbleStep(a / 16, n - 1);
      OnesCountNibble(a);
      OnesCountPair(a);
      OnesCountPair(a / 4);
      var p0, p1 := OnesCount(a % 4), OnesCount(a / 4 % 4);
      assert PairCounts(a / 4, 2 * n - 1) == 4 * x' + p1 by { assert a / 4 / 4 == a / 16; }
      var y := 4 * x' + p1;
      assert x == 4 * y + p0;
      DivUnique(x, 4, y, p0);
      DivUnique(x, 16, x', 4 * p1 + p0);
      DivUnique(y, 4, x', p1);
      DivUnique(y, 16, x' / 4, 4 * (x' % 4) + p1);
      AndNibble(x, m);
      AndNibble(y, m);
    } else {
      AndZero(x);
      AndZero(x / 4);
    }
  }

  lemma AndNibble(x: nat, m: nat)
    ensures And(x, 16 * m + 3) == 16 * And(x / 16, m) + x % 4
  {
    hide And;
    AndOdd(x, 2 * (4 * m) + 1);
    AndOdd(x / 2, 2 * (2 * m));
    AndEven(x / 2 / 2, 2 * m);
    AndEven(x / 2 / 2 / 2, m);
  }

  lemma NibbleUnroll(a: nat, n: nat) returns (n0: nat, n1: nat)
    requires n > 0
    ensures NibbleCounts(a, 2 * n) == 256 * NibbleCounts(a / 256, 2 * (n - 1)) + 16 * n1 + n0
    ensures n0 <= 4 && n1 <= 4 && OnesCount(a % 256) == n0 + n1
  {
    hide OnesCount;
    var h := a / 16;
    OnesCountByte(a);
    OnesCountNibble(a);
    OnesCountNibble(h);
    n0, n1 := OnesCount(a % 16), OnesCount(h % 16);
    assert NibbleCounts(a, 2 * n) == 16 * NibbleCounts(h, 2 * n - 1) + n0;
    assert NibbleCounts(h, 2 * n - 1) == 16 * NibbleCounts(h / 16, 2 * n - 2) + n1;
    assert h / 16 == a / 256;
  }

  // Folding each byte on itself adds neighbouring nibble counts; no nibble carries.
  lemma {:induction false} ByteStep(a: nat, n: nat)
    ensures var x := NibbleCounts(a, 2 * n);
            && And(x + x / 16, Fifteens(n)) == ByteCounts(a, n)
            && x + x / 16 <= 136 * ByteOnes(n) && x % 16 <= 4
    decreases n
  {
    hide And, OnesCount;
    if n > 0 {
      hide NibbleCounts;
      var n0, n1 := NibbleUnroll(a, n);
      ByteStep(a / 256, n - 1);
      var x, x' := NibbleCounts(a, 2 * n), NibbleCounts(a / 256, 2 * (n - 1));
      NibbleFold(x', n0, n1);
      AndByte(x + x / 16, Fifteens(n - 1));
    } else {
      AndZero(NibbleCounts(a, 2 * n) + NibbleCounts(a, 2 * n) / 16);
    }
  }

  lemma NibbleFold(x': nat, n0: nat, n1: nat)
    requires n0 <= 4 && n1 <= 4 && x' % 16 <= 4
    ensures var x := 256 * x' + 16 * n1 + n0;
            && x / 16 == 16 * x' + n1 && x % 16 == n0
            && (x + x / 16) / 256 == x' + x' / 16 && (x + x / 16) % 16 == n0 + n1
  {
    var x, y := 256 * x' + 16 * n1 + n0, 16 * x' + n1;
    var q, r := x' / 16, x' % 16;
    DivUnique(x, 16, y, n0);
    assert x + y == (x' + q) * 256 + (16 * r + 17 * n1 + n0);
    DivUnique(x + y, 256, x' + q, 16 * r + 17 * n1 + n0);
    DivUnique(x + y, 16, 17 * x' + n1, n0 + n1);
  }

  lemma AndByte(x: nat, m: nat)
    ensures And(x, 256 * m + 15) == 256 * And(x / 256, m) + x % 16
  {
    hide And;
    var q := x / 4;
    AndOdd(x, 128 * m + 7);
    AndOdd(x / 2, 64 * m + 3);
    AndNibble(q, 4 * m);
    AndEven(q / 16, 2 * m);
    AndEven(q / 16 / 2, m);
    assert x / 2 / 2 == q && q / 16 / 2 / 2 == x / 256;
    assert x % 16 == 4 * (q % 4) + 2 * (x / 2 % 2) + x % 2;
  }

  lemma FivesStep(n: nat)
    ensures Fives(n + 4) == 256 * Fives(n) + 0x55
  {
    assert Fives(n + 2) == 4 * Fives(n + 1) + 1;
    assert Fives(n + 4) == 4 * Fives(n + 3) + 1;
  }

  lemma FivesMasks()
    ensures Fives(16) == 0x5555_5555
  {
    assert Fives(8) == 0x5555;
    FivesStep(8);
    FivesStep(12);
  }

  lemma CountMasks()
    ensures Fives(16) == 0x5555_5555 && Fives(32) == 0x5555_5555_5555_5555
    ensures Threes(8) == 0x3333_3333 && Threes(16) == 0x3333_3333_3333_3333
    ensures Fifteens(4) == 0x0F0F_0F0F && Fifteens(8) == 0x0F0F_0F0F_0F0F_0F0F
    ensures ByteOnes(4) == 0x0101_0101 && ByteOnes(8) == 0x0101_0101_0101_0101
  {
    hide Fives;
    FivesMasks();
    FivesStep(16); FivesStep(20); FivesStep(24); FivesStep(28);
    assert Fives(16 + 4) == Fives(20) && Fives(20 + 4) == Fives(24);
    assert Fives(24 + 4) == Fives(28) && Fives(28 + 4) == Fives(32);
  }

  // Four byte counts c0..c3 below the count word hi: the two folds of the 32-bit code, and the
  // last two folds of the 64-bit code, leave the total in the low byte.
  lemma FoldBytes(c0: nat, c1: nat, c2: nat, c3: nat, hi: nat)
    requires c0 <= 16 && c1 <= 16 && c2 <= 16 && c3 <= 16
    ensures var s := c0 + 256 * c1 + 0x1_0000 * c2 + 0x100_0000 * c3 + TWO32 * hi;
            var t := s + s / 0x1_0000;
            && (hi == 0 ==> t + t / 256 < TWO32) && (hi <= 0x0808_0808 ==> t + t / 256 < TWO64)
            && (t + t / 256) % 128 == c0 + c1 + c2 + c3
            && (c0 + c1 + c2 + c3 <= 32 ==> (t + t / 256) % 64 == c0 + c1 + c2 + c3)
  {
    var s := c0 + 256 * c1 + 0x1_0000 * c2 + 0x100_0000 * c3 + TWO32 * hi;
    var up := c2 + 256 * c3 + 0x1_0000 * hi;
    DivUnique(s, 0x1_0000, up, c0 + 256 * c1);
    var t := s + up;
    var rest := up + hi;
    DivUnique(t, 256, c1 + c3 + 256 * rest, c0 + c2);
    var v, sum := t + t / 256, c0 + c1 + c2 + c3;
    var k := 2 * (c1 + c3) + 512 * rest + 2 * rest;
    assert v == k * 128 + sum == (2 * k) * 64 + sum;
    DivUnique(v, 128, k, sum);
    if sum <= 32 {
      DivUnique(v, 64, 2 * k, sum);
    }
  }

  // The counts of the four low bytes of a, and the rest.
  ghost predicate LowCounts(a: nat, c0: nat, c1: nat, c2: nat, c3: nat, n: nat) {
    && c0 <= 8 && c1 <= 8 && c2 <= 8 && c3 <= 8
    && OnesCount(a) == c0 + c1 + c2 + c3 + OnesCount(a / TWO32)
    && ByteCounts(a, n + 4)
       == c0 + 256 * c1 + 0x1_0000 * c2 + 0x100_0000 * c3 + TWO32 * ByteCounts(a / TWO32, n)
  }

  lemma SplitCounts(a: nat, n: nat) returns (c0: nat, c1: nat, c2: nat, c3: nat)
    ensures LowCounts(a, c0, c1, c2, c3, n)
  {
    hide OnesCount;
    var e1 := a / 256;
    var e2 := e1 / 256;
    var e3 := e2 / 256;
    OnesCountByte(a);
    OnesCountByte(e1);
    OnesCountByte(e2);
    OnesCountByte(e3);
    c0, c1 := OnesCount(a % 256), OnesCount(e1 % 256);
    c2, c3 := OnesCount(e2 % 256), OnesCount(e3 % 256);
    assert e3 / 256 == a / TWO32;
    assert ByteCounts(a, n + 4) == 256 * ByteCounts(e1, n + 3) + c0;
    assert ByteCounts(e1, n + 3) == 256 * ByteCounts(e2, n + 2) + c1;
    assert ByteCounts(e2, n + 2) == 256 * ByteCounts(e3, n + 1) + c2;
    assert ByteCounts(e3, n + 1) == 256 * ByteCounts(a / TWO32, n) + c3;
  }

  lemma NothingAbove(a: Word)
    ensures OnesCount(a / TWO32) == 0 && ByteCounts(a / TWO32, 0) == 0
  {
  }

  lemma ByteSum32(a: Word)
    ensures var s := ByteCounts(a, 4); var t := s + s / 0x1_0000;
            s <= 0x0808_0808 && t + t / 256 < TWO32 && (t + t / 256) % 64 == OnesCount(a)
  {
    hide OnesCount, ByteCounts;
    var c0, c1, c2, c3 := SplitCounts(a, 0);
    NothingAbove(a);
    FoldBytes(c0, c1, c2, c3, 0);
  }

  lemma ByteSum64(a: Word64)
    ensures var s := ByteCounts(a, 8); var u := s + s / TWO32; var t := u + u / 0x1_0000;
            && u < TWO64 && t + t / 256 < TWO64
            && (t + t / 256) % 128 == OnesCount(a)
  {
    hide OnesCount, ByteCounts;
    var h := a / TWO32;
    var c0, c1, c2, c3 := SplitCounts(a, 4);
    var d0, d1, d2, d3 := SplitCounts(h, 0);
    NothingAbove(h);
    var low := c0 + 256 * c1 + 0x1_0000 * c2 + 0x100_0000 * c3;
    var hi := d0 + 256 * d1 + 0x1_0000 * d2 + 0x100_0000 * d3;
    DivUnique(ByteCounts(a, 8), TWO32, hi, low);
    FoldBytes(c0 + d0, c1 + d1, c2 + d2, c3 + d3, hi);
  }

  lemma SmallMod(x: nat, w: nat)
    requires x < w
    ensures x % w == x
  {
  }

  // The first three lines, for a word of 8 * n bits with w = 2^(8 * n).
  lemma CountLines(x: nat, n: nat, w: nat)
    requires x < Pow2(8 * n) == w && 0x88 * ByteOnes(n) < w
    ensures var a1 := (x - And(Shr(x, 1), Fives(4 * n))) % w;
            var a2 := (And(Shr(a1, 2), Threes(2 * n)) + And(a1, Threes(2 * n))) % w;
            And((a2 + Shr(a2, 4)) % w, Fifteens(n)) == ByteCounts(x, n)
  {
    hide *;
    PairStep(x, 4 * n);
    var a1 := PairCounts(x, 4 * n);
    SmallMod(a1, w);
    Pow2Values();
    ShrIsDiv(a1, 2);
    NibbleStep(x, 2 * n);
    var a2 := NibbleCounts(x, 2 * n);
    ShrIsDiv(a2, 4);
    ByteStep(x, n);
    SmallMod(a2, w);
    SmallMod(a2 + Shr(a2, 4), w);
  }

  lemma LastLines32(x: Word)
    ensures var s := ByteCounts(x, 4); var t := (s + Shr(s, 16)) % TWO32;
            And((t + Shr(t, 8)) % TWO32, 63) == OnesCount(x)
  {
    hide And, Shr, OnesCount, ByteCounts, Pow2;
    Pow2Values();
    var s := ByteCounts(x, 4);
    ByteSum32(x);
    ShrIsDiv(s, 16);
    var t := s + s / 0x1_0000;
    ShrIsDiv(t, 8);
    var v := t + t / 256;
    AndMask(v, 6);
    SmallMod(t, TWO32);
    SmallMod(v, TWO32);
  }

  lemma LastLines64(x: Word64)
    ensures var s := ByteCounts(x, 8); var u := (s + Shr(s, 32)) % TWO64;
            var t := (u + Shr(u, 16)) % TWO64;
            And((t + Shr(t, 8)) % TWO64, 127) == OnesCount(x)
  {
    hide And, Shr, OnesCount, ByteCounts, Pow2;
    Pow2Values();
    var s := ByteCounts(x, 8);
    ByteSum64(x);
    ShrIsDiv(s, 32);
    var u := s + s / TWO32;
    ShrIsDiv(u, 16);
    var t := u + u / 0x1_0000;
    ShrIsDiv(t, 8);
    var v := t + t / 256;
    AndMask(v, 7);
    SmallMod(u, TWO64);
    SmallMod(t, TWO64);
    SmallMod(v, TWO64);
  }

  method Popcountsi2(x: Word) returns (n: nat)
    ensures n == OnesCount(x)
  {
    hide And, Shr, OnesCount, ByteCounts, Pow2, Fives, Threes, Fifteens, ByteOnes;
    Pow2Values();
    CountMasks();
    CountLines(x, 4, TWO32);
    LastLines32(x);
    var a: nat := x;
    a := (a - And(Shr(a, 1), 0x5555_5555)) % TWO32;
    a := (And(Shr(a, 2), 0x3333_3333) + And(a, 0x3333_3333)) % TWO32;
    a := And((a + Shr(a, 4)) % TWO32, 0x0F0F_0F0F);
    a := (a + Shr(a, 16)) % TWO32;
    n := And((a + Shr(a, 8)) % TWO32, 63);
  }

  method Popcountdi2(x: Word64) returns (n: nat)
    ensures n == OnesCount(x)
  {
    hide And, Shr, OnesCount, ByteCounts, Pow2, Fives, Threes, Fifteens, ByteOnes;
    Pow2Values();
    CountMasks();
    CountLines(x, 8, TWO64);
    LastLines64(x);
    var a: nat := x;
    a := (a - And(Shr(a, 1), 0x5555_5555_5555_5555)) % TWO64;
    a := (And(Shr(a, 2), 0x3333_3333_3333_3333) + And(a, 0x3333_3333_3333_3333)) % TWO64;
    a := And((a + Shr(a, 4)) % TWO64, 0x0F0F_0F0F_0F0F_0F0F);
    a := (a + Shr(a, 32)) % TWO64;
    a := (a + Shr(a, 16)) % TWO64;
    n := And((a + Shr(a, 8)) % TWO64, 127);
  }
}
