// What every conversion of the formatter's grammar puts, in terms of the argument and of the text of
// the conversion alone, and how conversions follow one another (src/lib/printfmt.c).
module FormatLaws {
  import opened Words
  import opened Strings
  import opened Printf
  import opened PrintParse

  // ----- the grammar

  // A width or a precision: none, a number, or an argument.
  datatype Field = Absent | Fixed(n: nat) | Star

  // %, a padding flag, #, a width, a point and a precision, some l, and the conversion.
  datatype Conversion = Conversion(pad: char, alt: bool, width: Field, precision: Field, longs: nat, c: char)

  predicate Legal(v: Conversion) {
    && v.pad in {' ', '0', '-'} && v.c in {'c', 'e', 's', 'd', 'u', 'o', 'p', 'x', '%'}
    && (v.width.Fixed? ==> v.width.n > 0) && (v.precision.Fixed? ==> v.precision.n > 0)
  }

  function FieldText(f: Field): string {
    match f
    case Absent => ""
    case Fixed(n) => Digits(n, 10)
    case Star => "*"
  }

  function PadText(pad: char): string {
    if pad == ' ' then "" else [pad]
  }

  function AfterPrecision(v: Conversion): string {
    Run('l', v.longs) + [v.c]
  }

  function AfterWidth(v: Conversion): string {
    (if v.precision.Absent? then "" else "." + FieldText(v.precision)) + AfterPrecision(v)
  }

  function AfterFlags(v: Conversion): string {
    FieldText(v.width) + AfterWidth(v)
  }

  function AltText(alt: bool): string {
    if alt then "#" else ""
  }

  function Spelled(v: Conversion): string {
    "%" + Body(v)
  }

  function Body(v: Conversion): string {
    PadText(v.pad) + (AltText(v.alt) + AfterFlags(v))
  }

  // How many arguments its stars take, and how many it takes in all.
  function Stars(v: Conversion): nat {
    (if v.width.Star? then 1 else 0) + if v.precision.Star? then 1 else 0
  }

  function Takes(v: Conversion): nat {
    Stars(v) + if v.c == 'o' || v.c == '%' then 0 else 1
  }

  // The argument is the int n, or the long long n if there are two l or more.
  ghost predicate IntArg(a: Arg, n: int, longs: nat) {
    if longs < 2 then -0x8000_0000 <= n < 0x8000_0000 && a.bits % 0x1_0000_0000 == n % 0x1_0000_0000
    else -0x8000_0000_0000_0000 <= n < 0x8000_0000_0000_0000 && a.bits == n % 0x1_0000_0000_0000_0000
  }

  lemma IntArgIs(a: Arg, n: int, longs: nat)
    requires IntArg(a, n, longs)
    ensures GetInt(a, longs) == n
  {
    var b: int := a.bits;
    if longs < 2 {
      var q := n / TWO32;
      assert n % TWO32 == if n < 0 then n + TWO32 else n;
    } else {
      assert n % TWO64 == if n < 0 then n + TWO64 else n;
    }
  }

  // The value that a width or a precision has: w where it is an argument.
  function FieldValue(f: Field, w: int, none: int): int {
    match f
    case Absent => none
    case Fixed(n) => n
    case Star => w
  }

  // ----- reading an escape

  // At e, the format goes on with text.
  ghost predicate At(fmt: string, e: Escape, text: string) {
    Terminated(fmt) && e.i < |fmt| && fmt[e.i..] == text
  }

  // From e, reading flags comes to the same as from e', where the format goes on with text.
  ghost predicate Reads(fmt: string, e: Escape, e': Escape, text: string, args: Args) {
    && Terminated(fmt) && e.i < |fmt| && At(fmt, e', text) && Flags(fmt, e, args) == Flags(fmt, e', args)
  }

  lemma Advance(fmt: string, e: Escape, piece: string, rest: string)
    requires At(fmt, e, piece + rest) && rest != ""
    ensures At(fmt, e.(i := e.i + |piece|), rest)
    ensures forall k :: 0 <= k < |piece| ==> fmt[e.i + k] == piece[k]
    ensures fmt[e.i + |piece|] == rest[0]
  {
    forall k | 0 <= k < |piece|
      ensures fmt[e.i + k] == piece[k]
    {
      assert fmt[e.i..][k] == (piece + rest)[k];
    }
    assert fmt[e.i..][|piece|] == (piece + rest)[|piece|];
    assert fmt[e.i + |piece|..] == fmt[e.i..][|piece|..];
  }

  lemma ReadPad(fmt: string, e: Escape, pad: char, rest: string, args: Args)
    requires At(fmt, e, PadText(pad) + rest) && rest != "" && pad in {' ', '0', '-'} && e.padc == ' '
    ensures Reads(fmt, e, e.(padc := pad, i := e.i + |PadText(pad)|), rest, args)
  {
    Advance(fmt, e, PadText(pad), rest);
  }

  lemma ReadAlt(fmt: string, e: Escape, alt: bool, rest: string, args: Args)
    requires At(fmt, e, AltText(alt) + rest) && rest != "" && !e.alt
    ensures Reads(fmt, e, e.(alt := alt, i := e.i + |AltText(alt)|), rest, args)
  {
    Advance(fmt, e, AltText(alt), rest);
  }

  lemma ReadDot(fmt: string, e: Escape, rest: string, args: Args)
    requires At(fmt, e, "." + rest) && rest != ""
    ensures Reads(fmt, e, e.(width := if e.width < 0 then 0 else e.width, i := e.i + 1), rest, args)
  {
    Advance(fmt, e, ".", rest);
  }

  lemma ReadLong(fmt: string, e: Escape, rest: string, args: Args)
    requires At(fmt, e, "l" + rest) && rest != ""
    ensures Reads(fmt, e, e.(lflag := e.lflag + 1, i := e.i + 1), rest, args)
  {
    Advance(fmt, e, "l", rest);
  }

  lemma {:induction false} ReadLongs(fmt: string, e: Escape, n: nat, rest: string, args: Args)
    requires At(fmt, e, Run('l', n) + rest) && rest != ""
    ensures Reads(fmt, e, e.(lflag := e.lflag + n, i := e.i + n), rest, args)
    decreases n
  {
    hide Run, At, Reads;
    if n == 0 {
      LongsEnd(rest);
      ReadsNothing(fmt, e, rest, args);
    } else {
      LongsFront(n, rest);
      var e1, e2 := e.(lflag := e.lflag + 1, i := e.i + 1), e.(lflag := e.lflag + n, i := e.i + n);
      ReadLong(fmt, e, Run('l', n - 1) + rest, args);
      ReadsAt(fmt, e, e1, Run('l', n - 1) + rest, args);
      ReadLongs(fmt, e1, n - 1, rest, args);
      ReadsThen(fmt, e, e1, Run('l', n - 1) + rest, e2, rest, args);
    }
  }

  lemma LongsEnd(rest: string)
    ensures Run('l', 0) + rest == rest
  {
  }

  lemma LongsFront(n: nat, rest: string)
    requires n > 0
    ensures Run('l', n) + rest == "l" + (Run('l', n - 1) + rest)
  {
    RunFront('l', n);
  }

  lemma ReadsNothing(fmt: string, e: Escape, text: string, args: Args)
    requires At(fmt, e, text)
    ensures Reads(fmt, e, e, text, args)
  {
    hide Flags;
  }

  lemma ReadsAt(fmt: string, e: Escape, e': Escape, text: string, args: Args)
    requires Reads(fmt, e, e', text, args)
    ensures At(fmt, e', text)
  {
    hide Flags;
  }

  lemma ReadsThen(fmt: string, e: Escape, e': Escape, text: string, e'': Escape, text': string, args: Args)
    requires Reads(fmt, e, e', text, args) && Reads(fmt, e', e'', text', args)
    ensures Reads(fmt, e, e'', text', args)
  {
    hide Flags;
  }

  lemma {:induction false} RunFront(c: char, n: nat)
    requires n > 0
    ensures Run(c, n) == [c] + Run(c, n - 1)
  {
    if n > 1 {
      RunFront(c, n - 1);
    }
  }

  // ----- numbers in a format

  lemma {:induction false} LeadingDigit(n: nat, base: nat)
    requires 2 <= base <= 16 && n > 0
    ensures Digits(n, base)[0] != '0'
  {
    var q, r := DigitsStep(n, base);
    if q > 0 {
      LeadingDigit(q, base);
    }
  }

  lemma DecimalDigit(c: char)
    ensures IsDigit(c, 10) <==> '0' <= c <= '9'
    ensures '0' <= c <= '9' ==> DigitValue(c) == c as int - '0' as int
  {
  }

  lemma {:induction false} NumberReads(fmt: string, i: nat, a: string, b: string, rest: string)
    requires Terminated(fmt) && i < |fmt| && fmt[i..] == b + rest && rest != "" && !('0' <= rest[0] <= '9')
    requires AllDigits(b, 10)
    ensures Number(fmt, i, Value(a, 10)) == (Value(a + b, 10), i + |b|)
    decreases |b|
  {
    hide Value, AllDigits, IsDigit, DigitValue;
    if b == "" {
      assert a + b == a;
      assert fmt[i..][0] == rest[0];
    } else {
      DigitThere(b, 10);
      DecimalDigit(b[0]);
      assert fmt[i] == fmt[i..][0] == b[0];
      assert fmt[i + 1..] == b[1..] + rest by {
        assert fmt[i + 1..] == fmt[i..][1..];
      }
      assert i + 1 < |fmt| by {
        assert |fmt[i + 1..]| > 0;
      }
      ValueAppend(a, b[0], 10);
      NumberReads(fmt, i + 1, a + [b[0]], b[1..], rest);
      assert a + [b[0]] + b[1..] == a + b;
    }
  }

  lemma DigitThere(ds: string, base: int)
    requires ds != "" && AllDigits(ds, base)
    ensures IsDigit(ds[0], base) && AllDigits(ds[1..], base)
  {
  }

  lemma ReadNumberField(fmt: string, e: Escape, n: nat, rest: string, args: Args)
    requires At(fmt, e, Digits(n, 10) + rest) && rest != "" && !('0' <= rest[0] <= '9') && n > 0
    ensures Reads(fmt, e, ProcessPrecision(e, n).(i := e.i + |Digits(n, 10)|), rest, args)
  {
    hide Digits, AllDigits, IsDigit, DigitValue, Value, Number, Terminated, Flags;
    var ds := Digits(n, 10);
    DigitsRound(n, 10);
    LeadingDigit(n, 10);
    DigitThere(ds, 10);
    DecimalDigit(ds[0]);
    Advance(fmt, e, ds, rest);
    NumberAtStart(fmt, e.i, ds, rest);
    assert fmt[e.i + 0] == ds[0];
    NumberFlag(fmt, e, n, e.i + |ds|, args);
  }

  lemma NumberAtStart(fmt: string, i: nat, ds: string, rest: string)
    requires Terminated(fmt) && i < |fmt| && fmt[i..] == ds + rest && rest != "" && !('0' <= rest[0] <= '9')
    requires AllDigits(ds, 10)
    ensures Number(fmt, i, 0) == (Value(ds, 10), i + |ds|)
  {
    NumberReads(fmt, i, "", ds, rest);
    assert "" + ds == ds && Value("", 10) == 0;
  }

  lemma NumberFlag(fmt: string, e: Escape, n: int, j: nat, args: Args)
    requires Terminated(fmt) && e.i < |fmt| && '1' <= fmt[e.i] <= '9' && Number(fmt, e.i, 0) == (n, j)
    ensures j < |fmt| && Flags(fmt, e, args) == Flags(fmt, ProcessPrecision(e, n).(i := j), args)
  {
    hide Number;
  }

  lemma ReadStar(fmt: string, e: Escape, w: int, rest: string, args: Args)
    requires At(fmt, e, "*" + rest) && rest != "" && IntArg(args(e.k), w, 0)
    ensures Reads(fmt, e, ProcessPrecision(e, w).(i := e.i + 1, k := e.k + 1), rest, args)
  {
    Advance(fmt, e, "*", rest);
    IntArgIs(args(e.k), w, 0);
    hide GetInt, IntArg;
  }

  // A field in front of something that is no figure; e' is what comes of it.
  lemma ReadField(fmt: string, e: Escape, f: Field, w: int, rest: string, args: Args) returns (e': Escape)
    requires At(fmt, e, FieldText(f) + rest) && rest != "" && !('0' <= rest[0] <= '9')
    requires (f.Star? ==> IntArg(args(e.k), w, 0)) && (f.Fixed? ==> f.n > 0)
    ensures Reads(fmt, e, e', rest, args)
    ensures e'.i == e.i + |FieldText(f)| && e'.k == e.k + if f.Star? then 1 else 0
    ensures e'.padc == e.padc && e'.lflag == e.lflag && e'.alt == e.alt
    ensures f.Absent? ==> e'.width == e.width && e'.precision == e.precision
    ensures !f.Absent? && e.width < 0 ==> e'.width == FieldValue(f, w, 0) && e'.precision == -1
    ensures !f.Absent? && e.width >= 0 ==> e'.width == e.width && e'.precision == FieldValue(f, w, 0)
  {
    hide Digits, Flags, IntArg, Terminated;
    match f {
      case Absent =>
        assert "" + rest == rest;
        e' := e;
      case Fixed(n) =>
        ReadNumberField(fmt, e, n, rest, args);
        e' := ProcessPrecision(e, n).(i := e.i + |Digits(n, 10)|);
      case Star =>
        ReadStar(fmt, e, w, rest, args);
        e' := ProcessPrecision(e, w).(i := e.i + 1, k := e.k + 1);
    }
  }

  // ----- reading a conversion

  ghost predicate StarsAre(v: Conversion, args: Args, k: nat, w: int, p: int) {
    && (v.width.Star? ==> IntArg(args(k), w, 0))
    && (v.precision.Star? ==> IntArg(args(k + if v.width.Star? then 1 else 0), p, 0))
  }

  // The width counts from zero once there is a point.
  function WidthOf(v: Conversion, w: int): int {
    var x := FieldValue(v.width, w, -1);
    if !v.precision.Absent? && x < 0 then 0 else x
  }

  // What the flags of v leave when they are read from position i with the k-th argument next.
  function FlagsOf(v: Conversion, i: nat, k: nat, w: int, p: int): Escape {
    Escape(i + |Spelled(v)| - 1, v.pad, WidthOf(v, w), FieldValue(v.precision, p, -1), v.longs, v.alt, k + Stars(v))
  }

  lemma NoFigure(v: Conversion)
    requires Legal(v)
    ensures AfterPrecision(v) != "" && !('0' <= AfterPrecision(v)[0] <= '9')
    ensures AfterWidth(v) != "" && !('0' <= AfterWidth(v)[0] <= '9')
  {
    if v.longs > 0 {
      RunFront('l', v.longs);
    }
  }

  lemma ReadPrecision(fmt: string, e: Escape, v: Conversion, p: int, rest: string, args: Args) returns (e': Escape)
    requires Legal(v) && At(fmt, e, AfterWidth(v) + rest) && rest != ""
    requires v.precision.Star? ==> IntArg(args(e.k), p, 0)
    requires e.precision == -1
    ensures Reads(fmt, e, e', AfterPrecision(v) + rest, args)
    ensures e'.i == e.i + |AfterWidth(v)| - |AfterPrecision(v)| && e'.k == e.k + if v.precision.Star? then 1 else 0
    ensures e'.padc == e.padc && e'.lflag == e.lflag && e'.alt == e.alt
    ensures e'.precision == FieldValue(v.precision, p, -1)
    ensures e'.width == if !v.precision.Absent? && e.width < 0 then 0 else e.width
  {
    NoFigure(v);
    hide At, Reads, AfterPrecision, FieldText, IntArg;
    var after := AfterPrecision(v) + rest;
    if v.precision.Absent? {
      assert AfterWidth(v) + rest == after;
      e' := e;
      ReadsNothing(fmt, e, after, args);
    } else {
      assert AfterWidth(v) + rest == "." + (FieldText(v.precision) + after);
      var e1 := e.(width := if e.width < 0 then 0 else e.width, i := e.i + 1);
      ReadDot(fmt, e, FieldText(v.precision) + after, args);
      ReadsAt(fmt, e, e1, FieldText(v.precision) + after, args);
      e' := ReadField(fmt, e1, v.precision, p, after, args);
      ReadsThen(fmt, e, e1, FieldText(v.precision) + after, e', after, args);
    }
  }

  lemma ReadWidth(fmt: string, e: Escape, v: Conversion, w: int, rest: string, args: Args) returns (e': Escape)
    requires Legal(v) && At(fmt, e, AfterFlags(v) + rest) && rest != ""
    requires v.width.Star? ==> IntArg(args(e.k), w, 0)
    requires e.width == -1 && e.precision == -1
    ensures Reads(fmt, e, e', AfterWidth(v) + rest, args)
    ensures e'.i == e.i + |FieldText(v.width)| && e'.k == e.k + if v.width.Star? then 1 else 0
    ensures e'.padc == e.padc && e'.lflag == e.lflag && e'.alt == e.alt
    ensures e'.precision == -1 && e'.width == FieldValue(v.width, w, -1)
  {
    NoFigure(v);
    hide At, Reads, AfterWidth, FieldText, IntArg;
    assert AfterFlags(v) + rest == FieldText(v.width) + (AfterWidth(v) + rest);
    e' := ReadField(fmt, e, v.width, w, AfterWidth(v) + rest, args);
  }

  lemma ReadConversion(fmt: string, i: nat, v: Conversion, rest: string, args: Args, k: nat, w: int, p: int)
    requires Terminated(fmt) && i < |fmt| && fmt[i..] == Spelled(v) + rest && rest != "" && Legal(v)
    requires StarsAre(v, args, k, w, p)
    ensures i + |Spelled(v)| < |fmt| && fmt[i] == '%' && fmt[i + |Spelled(v)| - 1] == v.c
    ensures Flags(fmt, Start(i + 1, k), args) == FlagsOf(v, i, k, w, p)
  {
    hide At, Reads, Body, AfterFlags, AfterPrecision, IntArg, Terminated, Flags;
    var e0 := Start(i + 1, k);
    AfterPercent(fmt, i, k, Body(v), rest);
    var e2 := ReadHead(fmt, e0, v, rest, args);
    ReadsAt(fmt, e0, e2, AfterFlags(v) + rest, args);
    var e4 := ReadTail(fmt, e2, v, rest, args, w, p);
    ReadsThen(fmt, e0, e2, AfterFlags(v) + rest, e4, AfterPrecision(v) + rest, args);
    ReadEnd(fmt, e0, e4, v, rest, args);
    Lengths(v);
  }

  lemma BodyParts(v: Conversion, rest: string)
    ensures Body(v) + rest == PadText(v.pad) + (AltText(v.alt) + (AfterFlags(v) + rest))
  {
    hide PadText, AltText, AfterFlags;
  }

  lemma ReadHead(fmt: string, e: Escape, v: Conversion, rest: string, args: Args) returns (e': Escape)
    requires Legal(v) && At(fmt, e, Body(v) + rest) && rest != "" && e.padc == ' ' && !e.alt
    ensures Reads(fmt, e, e', AfterFlags(v) + rest, args)
    ensures e' == e.(padc := v.pad, alt := v.alt, i := e.i + |PadText(v.pad)| + |AltText(v.alt)|)
  {
    NotEmpty(v);
    hide At, Reads, AfterFlags, PadText, AltText, Body;
    var t1, t2 := AltText(v.alt) + (AfterFlags(v) + rest), AfterFlags(v) + rest;
    BodyParts(v, rest);
    var e1 := e.(padc := v.pad, i := e.i + |PadText(v.pad)|);
    e' := e1.(alt := v.alt, i := e1.i + |AltText(v.alt)|);
    ReadPad(fmt, e, v.pad, t1, args);
    ReadsAt(fmt, e, e1, t1, args);
    ReadAlt(fmt, e1, v.alt, t2, args);
    ReadsThen(fmt, e, e1, t1, e', t2, args);
  }

  lemma ReadTail(fmt: string, e: Escape, v: Conversion, rest: string, args: Args, w: int, p: int) returns (e': Escape)
    requires Legal(v) && At(fmt, e, AfterFlags(v) + rest) && rest != "" && StarsAre(v, args, e.k, w, p)
    requires e.width == -1 && e.precision == -1
    ensures Reads(fmt, e, e', AfterPrecision(v) + rest, args)
    ensures e'.padc == e.padc && e'.lflag == e.lflag && e'.alt == e.alt && e'.k == e.k + Stars(v)
    ensures e'.width == WidthOf(v, w) && e'.precision == FieldValue(v.precision, p, -1)
    ensures e'.i == e.i + |AfterFlags(v)| - |AfterPrecision(v)|
  {
    hide At, Reads, AfterFlags, AfterWidth, AfterPrecision, IntArg;
    Lengths(v);
    var e1 := ReadWidth(fmt, e, v, w, rest, args);
    ReadsAt(fmt, e, e1, AfterWidth(v) + rest, args);
    e' := ReadPrecision(fmt, e1, v, p, rest, args);
    ReadsThen(fmt, e, e1, AfterWidth(v) + rest, e', AfterPrecision(v) + rest, args);
  }

  lemma AfterPercent(fmt: string, i: nat, k: nat, body: string, rest: string)
    requires Terminated(fmt) && i < |fmt| && fmt[i..] == "%" + body + rest && rest != ""
    ensures fmt[i] == '%' && i + 1 + |body| < |fmt| && At(fmt, Start(i + 1, k), body + rest)
  {
    assert fmt[i] == fmt[i..][0];
    assert fmt[i + 1..] == fmt[i..][1..] == body + rest;
  }

  lemma NotEmpty(v: Conversion)
    requires Legal(v)
    ensures AfterFlags(v) != ""
  {
    NoFigure(v);
  }

  lemma Lengths(v: Conversion)
    ensures |AfterPrecision(v)| == v.longs + 1 && |AfterFlags(v)| == |FieldText(v.width)| + |AfterWidth(v)|
    ensures |Spelled(v)| == 1 + |PadText(v.pad)| + |AltText(v.alt)| + |AfterFlags(v)| == 1 + |Body(v)|
  {
  }

  // The last of it: the l flags, and the conversion itself.
  lemma ReadEnd(fmt: string, e0: Escape, e: Escape, v: Conversion, rest: string, args: Args)
    requires Legal(v) && Reads(fmt, e0, e, AfterPrecision(v) + rest, args) && rest != "" && e.lflag == 0
    ensures e0.i < |fmt| && Terminated(fmt) && e.i + v.longs < |fmt| && fmt[e.i + v.longs] == v.c
    ensures Flags(fmt, e0, args) == e.(lflag := v.longs, i := e.i + v.longs)
  {
    hide AfterPrecision, Run, At, Reads, Flags, Terminated, Legal, IsFlag;
    var t, e' := [v.c] + rest, e.(lflag := v.longs, i := e.i + v.longs);
    LastPart(v, rest);
    NoFlag(v);
    ReadsAt(fmt, e0, e, Run('l', v.longs) + t, args);
    ReadLongs(fmt, e, v.longs, t, args);
    ReadsThen(fmt, e0, e, Run('l', v.longs) + t, e', t, args);
    FlagsStop(fmt, e0, e', t, args);
  }

  lemma NoFlag(v: Conversion)
    requires Legal(v)
    ensures !IsFlag(v.c)
  {
  }

  lemma LastPart(v: Conversion, rest: string)
    ensures AfterPrecision(v) + rest == Run('l', v.longs) + ([v.c] + rest)
  {
  }

  lemma FlagsStop(fmt: string, e0: Escape, e: Escape, text: string, args: Args)
    requires text != "" && Reads(fmt, e0, e, text, args) && !IsFlag(text[0])
    ensures Terminated(fmt) && e0.i < |fmt| && e.i < |fmt| && fmt[e.i] == text[0] && Flags(fmt, e0, args) == e
  {
    assert fmt[e.i] == fmt[e.i..][0];
  }

  // A conversion puts its text and the format goes on after it.
  lemma FormatConversion(fmt: string, i: nat, v: Conversion, rest: string, args: Args, k: nat, w: int, p: int)
    requires Terminated(fmt) && i < |fmt| && fmt[i..] == Spelled(v) + rest && rest != "" && Legal(v)
    requires StarsAre(v, args, k, w, p)
    ensures IsConversion(v.c) && i + |Spelled(v)| < |fmt|
    ensures Format(fmt, i, args, k)
            == ConversionText(v.c, FlagsOf(v, i, k, w, p), args(k + Stars(v)))
               + Format(fmt, i + |Spelled(v)|, args, k + Takes(v))
  {
    hide Format, ConversionText, Flags, Spelled;
    ReadConversion(fmt, i, v, rest, args, k, w, p);
    EscapeText(fmt, i, args, k);
  }

  // ----- sequences

  function Shift(args: Args, k: nat): Args {
    (j: nat) => args(j + k)
  }

  // What v puts on its own, with the first argument next.
  function Alone(v: Conversion, args: Args): seq<Word>
    requires Terminated(Spelled(v) + "\0")
  {
    Format(Spelled(v) + "\0", 0, args, 0)
  }

  lemma {:induction false} DigitsAreCharacters(n: nat, base: nat)
    requires 2 <= base <= 16
    ensures forall i :: 0 <= i < |Digits(n, base)| ==> Digits(n, base)[i] in "0123456789abcdef"
  {
    var q, r := DigitsStep(n, base);
    if q > 0 {
      DigitsAreCharacters(q, base);
    }
  }

  lemma FieldTextPlain(f: Field)
    ensures '\0' !in FieldText(f)
  {
    if f.Fixed? {
      DigitsAreCharacters(f.n, 10);
    }
  }

  lemma SpelledTerminated(v: Conversion)
    requires Legal(v)
    ensures Terminated(Spelled(v) + "\0") && '\0' !in Spelled(v)
  {
    FieldTextPlain(v.width);
    FieldTextPlain(v.precision);
    hide FieldText;
    assert '\0' !in AfterPrecision(v);
    assert '\0' !in AfterWidth(v);
    assert '\0' !in Body(v);
  }

  // Anywhere in a format, a conversion puts what it puts alone, given the arguments from the next one
  // on; after it the next argument is the one after those it takes.
  lemma Sequence(fmt: string, i: nat, v: Conversion, rest: string, args: Args, k: nat, w: int, p: int)
    requires Terminated(fmt) && i < |fmt| && fmt[i..] == Spelled(v) + rest && rest != "" && Legal(v)
    requires StarsAre(v, args, k, w, p)
    ensures Terminated(Spelled(v) + "\0") && i + |Spelled(v)| < |fmt|
    ensures Format(fmt, i, args, k)
            == Alone(v, Shift(args, k)) + Format(fmt, i + |Spelled(v)|, args, k + Takes(v))
  {
    hide Format, ConversionText, Spelled, IntArg, Terminated, FlagsOf, Legal, Alone, Takes, Stars;
    SpelledTerminated(v);
    FormatConversion(fmt, i, v, rest, args, k, w, p);
    StarsShifted(v, args, k, w, p);
    AloneText(v, Shift(args, k), w, p);
    FlagsMoved(v, i, k, w, p);
    SameConversionText(v.c, FlagsOf(v, i, k, w, p), FlagsOf(v, 0, 0, w, p), args(k + Stars(v)));
  }

  lemma StarsShifted(v: Conversion, args: Args, k: nat, w: int, p: int)
    requires StarsAre(v, args, k, w, p)
    ensures StarsAre(v, Shift(args, k), 0, w, p) && Shift(args, k)(Stars(v)) == args(k + Stars(v))
  {
    hide IntArg;
  }

  lemma FlagsMoved(v: Conversion, i: nat, k: nat, w: int, p: int)
    ensures var e, e' := FlagsOf(v, i, k, w, p), FlagsOf(v, 0, 0, w, p); e' == e.(i := e'.i, k := e'.k)
  {
    hide Spelled, Stars, WidthOf, FieldValue;
  }

  lemma AloneText(v: Conversion, args: Args, w: int, p: int)
    requires Legal(v) && StarsAre(v, args, 0, w, p)
    ensures Terminated(Spelled(v) + "\0") && IsConversion(v.c)
    ensures Alone(v, args) == ConversionText(v.c, FlagsOf(v, 0, 0, w, p), args(Stars(v)))
  {
    SpelledTerminated(v);
    hide ConversionText, Spelled, IntArg, Format;
    var fmt := Spelled(v) + "\0";
    assert fmt[0..] == fmt;
    FormatConversion(fmt, 0, v, "\0", args, 0, w, p);
    PlainCharacter(fmt, |Spelled(v)|, args, Takes(v));
  }

  // So in a format of two conversions the second takes the arguments that the first has left.
  lemma TwoConversions(v: Conversion, u: Conversion, args: Args, w: int, p: int, w': int, p': int)
    requires Legal(v) && Legal(u) && StarsAre(v, args, 0, w, p) && StarsAre(u, args, Takes(v), w', p')
    ensures Terminated(Spelled(v) + "\0") && Terminated(Spelled(u) + "\0")
    ensures var fmt := Spelled(v) + Spelled(u) + "\0";
            && Terminated(fmt)
            && Format(fmt, 0, args, 0) == Alone(v, args) + Alone(u, Shift(args, Takes(v)))
  {
    hide Format, Spelled, IntArg, Legal, Takes;
    SpelledTerminated(v);
    SpelledTerminated(u);
    var fmt := Spelled(v) + Spelled(u) + "\0";
    assert Terminated(fmt);
    hide Terminated;
    assert fmt[0..] == Spelled(v) + (Spelled(u) + "\0") && fmt[|Spelled(v)|..] == Spelled(u) + "\0";
    Sequence(fmt, 0, v, Spelled(u) + "\0", args, 0, w, p);
    Sequence(fmt, |Spelled(v)|, u, "\0", args, Takes(v), w', p');
    PlainCharacter(fmt, |Spelled(v)| + |Spelled(u)|, args, Takes(v) + Takes(u));
    ShiftNothing(args);
    AloneText(v, args, w, p);
    AloneText(v, Shift(args, 0), w, p);
  }

  lemma ShiftNothing(args: Args)
    ensures forall j: nat :: Shift(args, 0)(j) == args(j)
  {
  }

  // The text depends on the flags, not on where they were read.
  lemma SameConversionText(c: char, e: Escape, e': Escape, a: Arg)
    requires IsConversion(c) && e' == e.(i := e'.i, k := e'.k)
    ensures ConversionText(c, e, a) == ConversionText(c, e', a)
  {
    hide NumberText, SignedText, Codes, Run, Visible, Shown;
  }

  // ----- what each conversion puts

  // Padding up to a width in front of a text.
  function Padded(pad: char, width: int, text: string): string {
    Run(pad, width - |text|) + text
  }

  lemma SamePadding(pad: char, a: int, b: int, text: string)
    requires text != "" && (a == b || (a <= 0 && b <= 0))
    ensures Padded(pad, a, text) == Padded(pad, b, text)
    ensures |Padded(pad, a, text)| == if a > |text| then a else |text|
  {
    NoRun();
  }

  lemma WidthIs(v: Conversion, w: int)
    ensures var a, b := WidthOf(v, w), FieldValue(v.width, w, 0); a == b || (a <= 0 && b <= 0)
  {
  }

  // %d, %ld, %lld: the sign, then padding up to the width, then the digits of the magnitude. A
  // precision is read and ignored.
  lemma SignedLaw(v: Conversion, args: Args, n: int, w: int, p: int)
    requires Legal(v) && v.c == 'd' && StarsAre(v, args, 0, w, p) && IntArg(args(Stars(v)), n, v.longs)
    ensures var ds := Digits(if n < 0 then -n else n, 10);
            var width := FieldValue(v.width, w, 0);
            && Terminated(Spelled(v) + "\0")
            && Alone(v, args) == Codes((if n < 0 then "-" else "") + Padded(v.pad, width, ds))
            && |Alone(v, args)| == (if n < 0 then 1 else 0) + (if width > |ds| then width else |ds|)
  {
    hide Digits, Spelled, Padded, Alone, IntArg, GetInt, WidthOf, FieldValue, Terminated;
    SpelledTerminated(v);
    AloneText(v, args, w, p);
    IntArgIs(args(Stars(v)), n, v.longs);
    WidthIs(v, w);
    SamePadding(v.pad, WidthOf(v, w), FieldValue(v.width, w, 0), Digits(if n < 0 then -n else n, 10));
    PaddedNumber(if n < 0 then -n else n, 10, WidthOf(v, w), v.pad);
  }

  lemma PaddedNumber(n: nat, base: nat, width: int, pad: char)
    requires 2 <= base <= 16
    ensures NumberText(n, base, width, pad) == Padded(pad, width, Digits(n, base))
  {
  }

  // %u and %x, with l and ll: the argument as an unsigned word, in base 10 or 16.
  lemma UnsignedLaw(v: Conversion, args: Args, n: nat, w: int, p: int)
    requires Legal(v) && (v.c == 'u' || v.c == 'x') && StarsAre(v, args, 0, w, p)
    requires n == if v.longs < 2 then args(Stars(v)).bits % 0x1_0000_0000 else args(Stars(v)).bits
    ensures var ds := Digits(n, if v.c == 'u' then 10 else 16);
            var width := FieldValue(v.width, w, 0);
            && Terminated(Spelled(v) + "\0")
            && Alone(v, args) == Codes(Padded(v.pad, width, ds))
            && |Alone(v, args)| == if width > |ds| then width else |ds|
  {
    hide Digits, Spelled, Padded, Alone, WidthOf, FieldValue, Terminated;
    var base := if v.c == 'u' then 10 else 16;
    SpelledTerminated(v);
    AloneText(v, args, w, p);
    WidthIs(v, w);
    SamePadding(v.pad, WidthOf(v, w), FieldValue(v.width, w, 0), Digits(n, base));
    PaddedNumber(n, base, WidthOf(v, w), v.pad);
  }

  // %p: 0x, then padding, then the low 32 bits in base 16.
  lemma PointerLaw(v: Conversion, args: Args, w: int, p: int)
    requires Legal(v) && v.c == 'p' && StarsAre(v, args, 0, w, p)
    ensures var ds := Digits(args(Stars(v)).bits % 0x1_0000_0000, 16);
            var width := FieldValue(v.width, w, 0);
            && Terminated(Spelled(v) + "\0")
            && Alone(v, args) == Codes("0x" + Padded(v.pad, width, ds))
            && |Alone(v, args)| == 2 + if width > |ds| then width else |ds|
  {
    hide Digits, Spelled, Padded, Alone, WidthOf, FieldValue, Terminated;
    var n := args(Stars(v)).bits % 0x1_0000_0000;
    SpelledTerminated(v);
    AloneText(v, args, w, p);
    WidthIs(v, w);
    SamePadding(v.pad, WidthOf(v, w), FieldValue(v.width, w, 0), Digits(n, 16));
    PaddedNumber(n, 16, WidthOf(v, w), v.pad);
  }

  // %c puts the int itself; %% and %o take no argument, and put a percent sign and three X.
  lemma CharacterLaw(v: Conversion, args: Args, w: int, p: int)
    requires Legal(v) && v.c in {'c', '%', 'o'} && StarsAre(v, args, 0, w, p)
    ensures Terminated(Spelled(v) + "\0")
    ensures v.c == 'c' ==> Alone(v, args) == [args(Stars(v)).bits % 0x1_0000_0000] && Takes(v) == Stars(v) + 1
    ensures v.c == '%' ==> Alone(v, args) == [0x25] && Takes(v) == Stars(v)
    ensures v.c == 'o' ==> Alone(v, args) == [0x58, 0x58, 0x58] && Takes(v) == Stars(v)
  {
    hide Spelled, Alone, Terminated;
    SpelledTerminated(v);
    AloneText(v, args, w, p);
  }

  // What # makes of a character of a string.
  function Printable(s: string): string {
    seq(|s|, i requires 0 <= i < |s| => if ' ' <= s[i] <= '~' then s[i] else '?')
  }

  // %s: at most as many characters as a precision that is not negative, made printable by #. With the
  // flag - padding follows them; else it goes before them, reckoned from what is shown if there is a
  // precision, and from nothing if there is none. A null pointer reads as (null).
  lemma StringLaw(v: Conversion, args: Args, s: CString, w: int, p: int)
    requires Legal(v) && v.c == 's' && StarsAre(v, args, 0, w, p)
    requires args(Stars(v)).str == Some(s) || (args(Stars(v)).str == None && s == "(null)")
    ensures var most := FieldValue(v.precision, p, -1);
            var cut := if most < 0 || most > |s| then s else s[..most];
            var shown := if v.alt then Printable(cut) else cut;
            var width := FieldValue(v.width, w, 0);
            && Terminated(Spelled(v) + "\0")
            && Alone(v, args) == Codes(if v.pad == '-' then shown + Run(' ', width - |shown|)
                                       else if most < 0 then Run(v.pad, width) + shown
                                       else Padded(v.pad, width, shown))
  {
    hide Spelled, Alone, IntArg, FieldValue, Terminated, Stars;
    SpelledTerminated(v);
    AloneText(v, args, w, p);
    WidthIs(v, w);
    StringParts(s, FlagsOf(v, 0, 0, w, p), FieldValue(v.width, w, 0));
  }

  lemma StringParts(s: CString, e: Escape, width: int)
    requires e.width == width || (e.width <= 0 && width <= 0)
    ensures var cut := if e.precision < 0 || e.precision > |s| then s else s[..e.precision];
            var shown := if e.alt then Printable(cut) else cut;
            StringText(s, e) == if e.padc == '-' then shown + Run(' ', width - |shown|)
                                else if e.precision < 0 then Run(e.padc, width) + shown
                                else Padded(e.padc, width, shown)
  {
    hide Run, Shown, Visible, Printable;
    NoRun();
    CutIsShown(s, e.precision, e.alt);
    NothingAfter(Visible(Shown(s, e.precision), e.alt));
  }

  lemma CutIsShown(s: CString, precision: int, alt: bool)
    ensures var cut := if precision < 0 || precision > |s| then s else s[..precision];
            && Shown(s, precision) == cut && |Visible(cut, alt)| == |cut|
            && Visible(cut, alt) == if alt then Printable(cut) else cut
  {
    var cut := if precision < 0 || precision > |s| then s else s[..precision];
    assert Shown(s, precision) == cut;
    assert Visible(cut, alt) == if alt then Printable(cut) else cut;
  }

  lemma NothingAfter(s: string)
    ensures s + "" == s == "" + s
  {
  }

  // %e: the message for a code from 1 to 6 of either sign, else the code itself.
  lemma ErrorLaw(v: Conversion, args: Args, n: int, w: int, p: int)
    requires Legal(v) && v.c == 'e' && StarsAre(v, args, 0, w, p) && IntArg(args(Stars(v)), n, 0)
    ensures var code := if n < 0 then -n else n;
            && Terminated(Spelled(v) + "\0")
            && Alone(v, args) == Codes(
                 if code == 1 then "unspecified error"
                 else if code == 2 then "bad environment"
                 else if code == 3 then "invalid parameter"
                 else if code == 4 then "out of memory"
                 else if code == 5 then "out of environments"
                 else if code == 6 then "segmentation fault"
                 else "error " + Digits(code, 10))
  {
    hide Digits, Spelled, Alone, IntArg, GetInt, Terminated;
    SpelledTerminated(v);
    AloneText(v, args, w, p);
    IntArgIs(args(Stars(v)), n, 0);
    NoRun();
    var code := if n < 0 then -n else n;
    PaddedNumber(code, 10, -1, ' ');
  }

  // ----- and what strtol reads of it

  lemma StoredPadded(sign: string, pad: char, width: int, n: nat, base: nat)
    requires 2 <= base <= 16 && pad in {' ', '0', '-'} && sign in {"", "-", "0x"}
    ensures Stored(Codes(sign + Padded(pad, width, Digits(n, base)))) == sign + Padded(pad, width, Digits(n, base))
  {
    DigitsAreCharacters(n, base);
    var text := sign + Padded(pad, width, Digits(n, base));
    hide Digits;
    forall i | 0 <= i < |text|
      ensures text[i] as int < 0x100
    {
      assert text[i] in sign || text[i] == pad || text[i] in Digits(n, base);
    }
    StoredCodes(text);
  }

  // %u and %x, padded with blanks or zeros, are read back as the argument modulo 2^32.
  lemma UnsignedReadsBack(v: Conversion, args: Args, n: nat, w: int, p: int)
    requires Legal(v) && (v.c == 'u' || v.c == 'x') && StarsAre(v, args, 0, w, p) && v.pad != '-'
    requires n == if v.longs < 2 then args(Stars(v)).bits % 0x1_0000_0000 else args(Stars(v)).bits
    ensures Terminated(Spelled(v) + "\0")
    ensures var text := Stored(Alone(v, args));
            && Terminated(text + ['\0'])
            && Parse(text + ['\0'], if v.c == 'u' then 10 else 16) == Parsed(Wrap(n), |text|)
  {
    hide Digits, Spelled, Alone, Terminated, Parse, Stored, Codes, Padded, Wrap;
    var base := if v.c == 'u' then 10 else 16;
    UnsignedLaw(v, args, n, w, p);
    var width := FieldValue(v.width, w, 0);
    NoSign(Padded(v.pad, width, Digits(n, base)));
    StoredPadded("", v.pad, width, n, base);
    PaddedNumber(n, base, width, v.pad);
    PrintParse.PrintParse(n, base, width, v.pad);
  }

  lemma NoSign(s: string)
    ensures "" + s == s
  {
  }

  // %d of an int is read back exactly when no blanks come between its sign and its digits.
  lemma SignedReadsBackIff(v: Conversion, args: Args, n: int, w: int, p: int)
    requires Legal(v) && v.c == 'd' && StarsAre(v, args, 0, w, p) && v.pad != '-'
    requires v.longs < 2 && IntArg(args(Stars(v)), n, v.longs)
    ensures Terminated(Spelled(v) + "\0")
    ensures var text := Stored(Alone(v, args));
            && Terminated(text + ['\0'])
            && (Parse(text + ['\0'], 10) == Parsed(n, |text|) <==>
                (n >= 0 || v.pad == '0' || FieldValue(v.width, w, 0) <= |Digits(-n, 10)|))
  {
    hide Digits, Spelled, Alone, Terminated, Parse, Stored, Codes, Padded, Wrap, FieldValue, NumberText;
    SignedLaw(v, args, n, w, p);
    var width := FieldValue(v.width, w, 0);
    if n >= 0 {
      NoSign(Padded(v.pad, width, Digits(n, 10)));
      StoredPadded("", v.pad, width, n, 10);
      PaddedNumber(n, 10, width, v.pad);
      PrintParse.PrintParse(n, 10, width, v.pad);
    } else {
      StoredPadded("-", v.pad, width, -n, 10);
      PaddedNumber(-n, 10, width, v.pad);
      PrintParseNegativeIff(n, width, v.pad);
    }
  }

  // %p is read back with base 0 exactly when no blanks follow its prefix.
  lemma PointerReadsBackIff(v: Conversion, args: Args, w: int, p: int)
    requires Legal(v) && v.c == 'p' && StarsAre(v, args, 0, w, p) && v.pad != '-'
    ensures Terminated(Spelled(v) + "\0")
    ensures var text, n := Stored(Alone(v, args)), args(Stars(v)).bits % 0x1_0000_0000;
            && Terminated(text + ['\0'])
            && (Parse(text + ['\0'], 0) == Parsed(Wrap(n), |text|) <==>
                (v.pad == '0' || FieldValue(v.width, w, 0) <= |Digits(n, 16)|))
  {
    hide Digits, Spelled, Alone, Terminated, Parse, Stored, Codes, Padded, Wrap, FieldValue, NumberText;
    PointerLaw(v, args, w, p);
    var n, width := args(Stars(v)).bits % 0x1_0000_0000, FieldValue(v.width, w, 0);
    StoredPadded("0x", v.pad, width, n, 16);
    PaddedNumber(n, 16, width, v.pad);
    PointerParseIff(n, width, v.pad);
  }

  // ----- a precision of zero

  // The figure 0 after a point is read as the padding flag, so %.0s shows the whole string.
  lemma ZeroPrecision(s: CString, args: Args)
    requires args(0).str == Some(s)
    ensures Terminated("%.0s\0") && Format("%.0s\0", 0, args, 0) == Codes(s)
  {
    hide Format, ConversionText;
    var fmt := "%.0s\0";
    var e := Escape(3, '0', 0, -1, 0, false, 0);
    assert Flags(fmt, Start(1, 0), args) == e;
    EscapeText(fmt, 0, args, 0);
    PlainCharacter(fmt, 4, args, 1);
    WholeString(s, e, args(0));
  }

  lemma WholeString(s: CString, e: Escape, a: Arg)
    requires a.str == Some(s) && e.width == 0 && e.precision == -1 && !e.alt
    ensures ConversionText('s', e, a) == Codes(s)
  {
    StringParts(s, e, 0);
    NoRun();
  }
}
