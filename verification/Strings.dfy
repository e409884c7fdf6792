// Memory copies and fills, and the integer parser (src/lib/string.c).
module Strings {
  import opened Words

  type byte = b: nat | b < 256

  // ----- memcpy and memmove

  // The buffer after copying len cells from src to dst one by one, lowest first.
  function CopiedForward<T>(s: seq<T>, dst: nat, src: nat, len: nat): (t: seq<T>)
    requires dst + len <= |s| && src + len <= |s|
    ensures |t| == |s|
  {
    if len == 0 then s
    else
      var t := CopiedForward(s, dst, src, len - 1);
      t[dst + len - 1 := t[src + len - 1]]
  }

  // What a move must do: the cells of src as they were, at dst.
  function Moved<T>(s: seq<T>, dst: nat, src: nat, len: nat): (t: seq<T>)
    requires dst + len <= |s| && src + len <= |s|
    ensures |t| == |s|
  {
    s[..dst] + s[src..src + len] + s[dst + len..]
  }

  method Memcpy<T>(a: array<T>, dst: nat, src: nat, len: nat)
    requires dst + len <= a.Length && src + len <= a.Length
    modifies a
    ensures a[..] == CopiedForward(old(a[..]), dst, src, len)
  {
    for i := 0 to len
      invariant a[..] == CopiedForward(old(a[..]), dst, src, i)
    {
      a[dst + i] := a[src + i];
    }
  }

  // memmove is memcpy.
  method Memmove<T>(a: array<T>, dst: nat, src: nat, len: nat)
    requires dst + len <= a.Length && src + len <= a.Length
    modifies a
    ensures a[..] == CopiedForward(old(a[..]), dst, src, len)
    ensures dst <= src || src + len <= dst ==> a[..] == Moved(old(a[..]), dst, src, len)
  {
    Memcpy(a, dst, src, len);
    if dst <= src || src + len <= dst {
      ForwardMoves(old(a[..]), dst, src, len);
    }
  }

  // The cell of the original buffer that ends up i cells into the destination: a destination that
  // starts d cells inside the source repeats the first d cells.
  function Origin(dst: nat, src: nat, i: nat): nat {
    if src < dst && dst <= src + i then src + i % (dst - src) else src + i
  }

  lemma {:induction false} CopyCell<T>(s: seq<T>, dst: nat, src: nat, len: nat, k: nat)
    requires dst + len <= |s| && src + len <= |s| && k < |s|
    ensures dst <= k < dst + len ==> Origin(dst, src, k - dst) < |s|
    ensures CopiedForward(s, dst, src, len)[k] ==
            s[if dst <= k < dst + len then Origin(dst, src, k - dst) else k]
    decreases len, k
  {
    if dst <= k < dst + len {
      OriginInside(dst, src, len, k - dst);
    }
    if len > 0 {
      if k != dst + len - 1 {
        CopyCell(s, dst, src, len - 1, k);
      } else {
        CopyCell(s, dst, src, len - 1, src + len - 1);
        OriginRepeats(dst, src, len - 1);
      }
    }
  }

  lemma OriginInside(dst: nat, src: nat, len: nat, i: nat)
    requires i < len
    ensures Origin(dst, src, i) < src + len
  {
    if src < dst && dst <= src + i {
      var d := dst - src;
      assert i % d < d;
    }
  }

  lemma OriginRepeats(dst: nat, src: nat, n: nat)
    ensures src < dst && dst <= src + n ==> Origin(dst, src, src + n - dst) == Origin(dst, src, n)
  {
    if src < dst && dst <= src + n {
      var d, j := dst - src, n - (dst - src);
      DivUnique(n, d, j / d + 1, j % d);
      if j < d {
        DivUnique(j, d, 0, j);
      }
    }
  }

  lemma ForwardMoves<T>(s: seq<T>, dst: nat, src: nat, len: nat)
    requires dst + len <= |s| && src + len <= |s| && (dst <= src || src + len <= dst)
    ensures CopiedForward(s, dst, src, len) == Moved(s, dst, src, len)
  {
    forall k | 0 <= k < |s|
      ensures CopiedForward(s, dst, src, len)[k] == Moved(s, dst, src, len)[k]
    {
      CopyCell(s, dst, src, len, k);
    }
  }

  // The forward copy is a move of every buffer exactly when the destination does not start inside
  // the source.
  lemma ForwardMovesIff(n: nat, dst: nat, src: nat, len: nat)
    requires dst + len <= n && src + len <= n
    ensures (forall s: seq<byte> :: |s| == n ==> CopiedForward(s, dst, src, len) == Moved(s, dst, src, len))
            <==> (dst <= src || src + len <= dst)
  {
    if dst <= src || src + len <= dst {
      forall s: seq<byte> | |s| == n
        ensures CopiedForward(s, dst, src, len) == Moved(s, dst, src, len)
      {
        ForwardMoves(s, dst, src, len);
      }
    } else {
      var s := MisplacedBuffer(n, dst, src, len);
    }
  }

  lemma MisplacedBuffer(n: nat, dst: nat, src: nat, len: nat) returns (s: seq<byte>)
    requires dst + len <= n && src + len <= n && src < dst < src + len
    ensures |s| == n && CopiedForward(s, dst, src, len) != Moved(s, dst, src, len)
  {
    hide CopiedForward, Origin;
    s := seq(n, k => if k == src then 1 else 0);
    var k := dst + (dst - src);
    CopyCell(s, dst, src, len, k);
    OriginAtPeriod(dst, src);
    assert Moved(s, dst, src, len)[k] == s[src..src + len][dst - src] == s[dst] == 0;
  }

  lemma OriginAtPeriod(dst: nat, src: nat)
    requires src < dst
    ensures Origin(dst, src, dst - src) == src
  {
    DivUnique(dst - src, dst - src, 1, 0);
  }

  // ----- memset

  // Byte i of the mask: the bytes of the int c, in turn.
  function MaskByte(c: int, i: nat): byte {
    c / Pow2(8 * (i % 4)) % 256
  }

  method Memset(a: array<byte>, dst: nat, c: int, len: nat)
    requires dst + len <= a.Length
    modifies a
    ensures forall i :: 0 <= i < len ==> a[dst + i] == MaskByte(c, i)
    ensures forall k :: 0 <= k < a.Length && !(dst <= k < dst + len) ==> a[k] == old(a[k])
  {
    hide MaskByte;
    if len == 0 {
      return;
    }
    var mask: array<byte> := new byte[4](i requires 0 <= i => MaskByte(c, i));
    for i := 0 to len
      invariant forall j :: 0 <= j < i ==> a[dst + j] == MaskByte(c, j)
      invariant forall k :: 0 <= k < a.Length && !(dst <= k < dst + i) ==> a[k] == old(a[k])
      invariant forall j :: 0 <= j < 4 ==> mask[j] == MaskByte(c, j)
    {
      MaskPeriod(c, i);
      a[dst + i] := mask[i % 4];
    }
  }

  lemma MaskPeriod(c: int, i: nat)
    ensures MaskByte(c, i % 4) == MaskByte(c, i)
  {
    hide Pow2;
    assert i % 4 % 4 == i % 4;
  }

  lemma FirstBytes(c: int)
    ensures MaskByte(c, 0) == c % 256 && MaskByte(c, 1) == c / 0x100 % 256
    ensures MaskByte(c, 2) == c / 0x1_0000 % 256 && MaskByte(c, 3) == c / 0x100_0000 % 256
  {
    hide Pow2;
    Pow2Values();
    Pow2Add(8, 16);
  }

  // The fill is the low byte of c everywhere, as section 7.21.6.1 of C99 has it, exactly when the
  // other bytes of c that are reached equal it.
  lemma MemsetIsC99Iff(c: int, len: nat)
    ensures (forall i :: 0 <= i < len ==> MaskByte(c, i) == c % 256) <==>
            && (len > 1 ==> c / 0x100 % 256 == c % 256)
            && (len > 2 ==> c / 0x1_0000 % 256 == c % 256)
            && (len > 3 ==> c / 0x100_0000 % 256 == c % 256)
  {
    hide MaskByte;
    FirstBytes(c);
    if (len > 1 ==> c / 0x100 % 256 == c % 256) && (len > 2 ==> c / 0x1_0000 % 256 == c % 256)
       && (len > 3 ==> c / 0x100_0000 % 256 == c % 256) {
      forall i | 0 <= i < len
        ensures MaskByte(c, i) == c % 256
      {
        MaskPeriod(c, i);
        var r := i % 4;
        assert r == 0 || r == 1 || r == 2 || r == 3;
      }
    }
  }

  // Read back as little-endian words, a filled region is the whole of c over and over.
  lemma MaskWord(c: Word, i: nat)
    ensures MaskByte(c, 4 * i) + 0x100 * MaskByte(c, 4 * i + 1) + 0x1_0000 * MaskByte(c, 4 * i + 2)
            + 0x100_0000 * MaskByte(c, 4 * i + 3) == c
  {
    hide MaskByte;
    FirstBytes(c);
    MaskRepeats(c, i, 0);
    MaskRepeats(c, i, 1);
    MaskRepeats(c, i, 2);
    MaskRepeats(c, i, 3);
    FourBytes(c);
  }

  lemma MaskRepeats(c: int, i: nat, j: nat)
    requires j < 4
    ensures MaskByte(c, 4 * i + j) == MaskByte(c, j)
  {
    hide MaskByte;
    MaskPeriod(c, 4 * i + j);
  }

  lemma FourBytes(c: Word)
    ensures c == c % 0x100 + 0x100 * (c / 0x100 % 0x100) + 0x1_0000 * (c / 0x1_0000 % 0x100)
                 + 0x100_0000 * (c / 0x100_0000 % 0x100)
  {
    var q1 := c / 0x100;
    var q2 := q1 / 0x100;
    var q3 := q2 / 0x100;
    DivUnique(c, 0x1_0000, q2, q1 % 0x100 * 0x100 + c % 0x100);
    DivUnique(c, 0x100_0000, q3, q2 % 0x100 * 0x1_0000 + q1 % 0x100 * 0x100 + c % 0x100);
  }

  // ----- strtol

  ghost predicate Terminated(s: string) {
    |s| > 0 && s[|s| - 1] == '\0' && forall i :: 0 <= i < |s| - 1 ==> s[i] != '\0'
  }

  // A long is 32 bits; signed overflow is taken to wrap.
  function Wrap(x: int): int {
    var w := x % TWO32;
    if w < 0x8000_0000 then w else w - TWO32
  }

  // The value of a digit in any base up to 36, or -1.
  function DigitValue(c: char): int {
    if '0' <= c <= '9' then c as int - '0' as int
    else if 'a' <= c <= 'z' then c as int - 'a' as int + 10
    else if 'A' <= c <= 'Z' then c as int - 'A' as int + 10
    else -1
  }

  predicate IsDigit(c: char, base: int) {
    0 <= DigitValue(c) < base
  }

  // Where the run of digits from i ends, and where leading blanks end.
  function DigitsEnd(s: string, i: nat, base: int): (e: nat)
    requires Terminated(s) && i < |s|
    ensures i <= e < |s| && !IsDigit(s[e], base) && forall k :: i <= k < e ==> IsDigit(s[k], base)
    decreases |s| - i
  {
    if IsDigit(s[i], base) then DigitsEnd(s, i + 1, base) else i
  }

  function BlanksEnd(s: string, i: nat): (e: nat)
    requires Terminated(s) && i < |s|
    ensures i <= e < |s| && s[e] != ' ' && s[e] != '\t'
    ensures forall k :: i <= k < e ==> s[k] == ' ' || s[k] == '\t'
    decreases |s| - i
  {
    if s[i] == ' ' || s[i] == '\t' then BlanksEnd(s, i + 1) else i
  }

  // The number that a run of digits denotes.
  function Value(ds: string, base: int): int {
    if ds == [] then 0 else Value(ds[..|ds| - 1], base) * base + DigitValue(ds[|ds| - 1])
  }

  // The base and the start of the digits after the sign: a 0x prefix selects or confirms base 16,
  // and with base 0 a leading 0 selects 8.
  function Prefix(s: string, i: nat, base: int): (r: (nat, int))
    requires Terminated(s) && i < |s|
    ensures i <= r.0 < |s|
  {
    if (base == 0 || base == 16) && s[i] == '0' && s[i + 1] == 'x' then (i + 2, 16)
    else if base == 0 && s[i] == '0' then (i + 1, 8)
    else if base == 0 then (i, 10)
    else (i, base)
  }

  datatype Parsed = Parsed(value: int, end: nat)

  // What strtol means: blanks, a sign, a prefix, the longest run of digits, its value modulo 2^32.
  function Parse(s: string, base: int): Parsed
    requires Terminated(s)
  {
    var b := BlanksEnd(s, 0);
    var i := if s[b] == '+' || s[b] == '-' then b + 1 else b;
    var (j, base') := Prefix(s, i, base);
    var e := DigitsEnd(s, j, base');
    var v := Value(s[j..e], base');
    Parsed(Wrap(if s[b] == '-' then -v else v), e)
  }

  method Strtol(s: string, base0: int) returns (val: int, end: nat)
    requires Terminated(s)
    ensures Parsed(val, end) == Parse(s, base0)
  {
    hide Wrap, Value, DigitsEnd, DigitValue;
    var base, neg, i := base0, false, 0;
    while s[i] == ' ' || s[i] == '\t'
      invariant i < |s| && BlanksEnd(s, i) == BlanksEnd(s, 0)
      decreases |s| - i
    {
      i := i + 1;
    }
    if s[i] == '+' {
      i := i + 1;
    } else if s[i] == '-' {
      i, neg := i + 1, true;
    }
    ghost var start := i;
    if (base == 0 || base == 16) && s[i] == '0' && s[i + 1] == 'x' {
      i, base := i + 2, 16;
    } else if base == 0 && s[i] == '0' {
      i, base := i + 1, 8;
    } else if base == 0 {
      base := 10;
    }
    assert (i, base) == Prefix(s, start, base0);
    ghost var j := i;
    val, i := ReadDigits(s, i, base);
    NegateWrapped(Value(s[j..i], base));
    end := i;
    if neg {
      val := Wrap(-val);
    }
  }

  // The digit loop of strtol.
  method ReadDigits(s: string, j: nat, base: int) returns (val: int, i: nat)
    requires Terminated(s) && j < |s|
    ensures i == DigitsEnd(s, j, base) && val == Wrap(Value(s[j..i], base))
  {
    hide Wrap, Value, DigitValue;
    i, val := j, 0;
    NoDigits(s[j..i], base);
    while true
      invariant j <= i < |s| && DigitsEnd(s, i, base) == DigitsEnd(s, j, base)
      invariant val == Wrap(Value(s[j..i], base))
      decreases |s| - i
    {
      var dig := DigitValue(s[i]);
      if dig < 0 || dig >= base {
        break;
      }
      NextDigit(s, j, i, base);
      assert s[i] != '\0' by { NulIsNoDigit(); }
      i, val := i + 1, Wrap(val * base + dig);
    }
  }

  lemma NulIsNoDigit()
    ensures DigitValue('\0') == -1
  {
  }

  lemma NoDigits(ds: string, base: int)
    requires ds == []
    ensures Wrap(Value(ds, base)) == 0
  {
  }

  lemma NextDigit(s: string, j: nat, i: nat, base: int)
    requires j <= i < |s|
    ensures Wrap(Value(s[j..i + 1], base)) == Wrap(Wrap(Value(s[j..i], base)) * base + DigitValue(s[i]))
  {
    assert s[j..i + 1][..i - j] == s[j..i];
    WrapHorner(Value(s[j..i], base), base, DigitValue(s[i]));
  }

  lemma WrapCongruent(x: int, k: int)
    ensures Wrap(x + k * TWO32) == Wrap(x)
  {
    DivUnique(x + k * TWO32, TWO32, x / TWO32 + k, x % TWO32);
  }

  lemma WrapHorner(v: int, base: int, dig: int)
    ensures Wrap(Wrap(v) * base + dig) == Wrap(v * base + dig)
  {
    var k := (v - Wrap(v)) / TWO32;
    assert v == Wrap(v) + k * TWO32;
    assert v * base + dig == Wrap(v) * base + dig + (k * base) * TWO32;
    WrapCongruent(Wrap(v) * base + dig, k * base);
  }

  lemma NegateWrapped(v: int)
    ensures Wrap(-Wrap(v)) == Wrap(-v)
  {
    WrapHorner(v, -1, 0);
  }
}
