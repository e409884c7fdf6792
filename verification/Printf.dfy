// The format interpreter, its number printer and its bounded sink (src/lib/printfmt.c).
module Printf {
  import opened Words
  import opened Strings

  type CString = s: string | '\0' !in s

  // One variadic argument: the 64 bits of an integer, and the string behind a pointer, if any.
  datatype Option<+T> = None | Some(value: T)
  datatype Arg = Arg(bits: Word64, str: Option<CString>)
  type Args = nat -> Arg

  // ----- sinks

  // What a char is as the int that putch takes: chars are signed bytes.
  function Code(c: char): Word {
    var u := c as int;
    if 0x80 <= u < 0x100 then u + 0xFFFF_FF00 else u
  }

  function Codes(s: string): (r: seq<Word>)
    ensures |r| == |s|
  {
    seq(|s|, i requires 0 <= i < |s| => Code(s[i]))
  }

  lemma CodesAppend(s: string, t: string)
    ensures Codes(s + t) == Codes(s) + Codes(t)
  {
  }

  lemma CodesPush(s: string, c: char)
    ensures Codes(s + [c]) == Codes(s) + [Code(c)]
  {
  }

  // The characters of a format are read as unsigned bytes.
  function Literal(s: string): (r: seq<Word>)
    ensures |r| == |s|
  {
    seq<Word>(|s|, i requires 0 <= i < |s| => s[i] as int)
  }

  // What is stored of such ints in a buffer of chars.
  function Stored(cs: seq<Word>): (s: string)
    ensures |s| == |cs|
  {
    seq(|cs|, i requires 0 <= i < |cs| => (cs[i] % 0x100) as char)
  }

  lemma StoredCodes(s: string)
    requires forall i :: 0 <= i < |s| ==> s[i] as int < 0x100
    ensures Stored(Codes(s)) == s == Stored(Literal(s))
  {
  }

  // What putch and putdat are together: a screen that takes everything, or the sprintbuf of
  // vsnprintf, which stores from start up to ebuf and counts the rest.
  class Sink {
    const bounded: bool
    const buf: array<char>
    const start: nat
    const ebuf: nat
    ghost const before: seq<char>     // buf as it was found
    var pos: nat
    var cnt: nat
    var screen: seq<Word>
    ghost var sent: seq<Word>         // everything that was put

    ghost predicate Valid()
      reads this, buf
    {
      && start <= pos <= ebuf && cnt == |sent| && |before| == buf.Length
      && (bounded ==>
            && ebuf < buf.Length && pos - start == Min(|sent|, ebuf - start)
            && buf[start..pos] == Stored(sent[..pos - start]))
      && (!bounded ==> screen == sent && pos == start)
      && (forall k :: 0 <= k < buf.Length && !(start <= k < pos) ==> buf[k] == before[k])
    }

    constructor (bounded: bool, buf: array<char>, n: nat)
      requires 1 <= n <= buf.Length
      ensures Valid() && this.bounded == bounded && this.buf == buf && start == 0 && ebuf == n - 1
      ensures before == buf[..] && sent == []
    {
      this.bounded, this.buf, start, ebuf := bounded, buf, 0, n - 1;
      before, pos, cnt, screen, sent := buf[..], 0, 0, [], [];
    }

    method Putch(ch: Word)
      requires Valid()
      modifies this, buf
      ensures Valid() && sent == old(sent) + [ch]
    {
      if bounded {
        Sprintputch(ch);
      } else {
        cnt, screen := cnt + 1, screen + [ch];
      }
      sent := sent + [ch];
    }

    method Sprintputch(ch: Word)
      requires bounded && pos <= ebuf < buf.Length
      modifies this`cnt, this`pos, buf
      ensures cnt == old(cnt) + 1
      ensures if old(pos) < ebuf then pos == old(pos) + 1 && buf[..] == old(buf[..])[old(pos) := (ch % 0x100) as char]
              else pos == old(pos) && buf[..] == old(buf[..])
    {
      cnt := cnt + 1;
      if pos < ebuf {
        buf[pos] := (ch % 0x100) as char;
        pos := pos + 1;
      }
    }

    // A run of the same character.
    method Repeat(ch: char, n: int)
      requires Valid()
      modifies this, buf
      ensures Valid() && sent == old(sent) + Codes(Run(ch, n))
    {
      hide Codes, Valid;
      var i := 0;
      assert Codes(Run(ch, 0)) == [];
      while i < n
        invariant Valid() && (i == 0 || 0 <= i <= n) && sent == old(sent) + Codes(Run(ch, i))
      {
        CodesPush(Run(ch, i), ch);
        Putch(Code(ch));
        i := i + 1;
      }
    }
  }

  function Min(a: nat, b: nat): nat {
    if a < b then a else b
  }

  function Run(ch: char, n: int): (s: string)
    ensures |s| == if n > 0 then n else 0
    ensures forall i :: 0 <= i < |s| ==> s[i] == ch
  {
    if n <= 0 then "" else Run(ch, n - 1) + [ch]
  }

  // ----- numbers

  function Digit(d: nat): char
    requires d < 16
  {
    "0123456789abcdef"[d]
  }

  function Digits(num: nat, base: nat): (s: string)
    requires 2 <= base <= 16
    ensures |s| > 0
  {
    if num < base then [Digit(num)]
    else
      DivShrinks(num, base);
      Digits(num / base, base) + [Digit(num % base)]
  }

  lemma DivShrinks(num: nat, base: nat)
    requires base >= 2 && num >= base
    ensures num / base < num
  {
    var q := num / base;
    assert num == q * base + num % base;
    MulMonotone(2, base, q);
  }

  // What printnum puts: padding up to the width, then the digits.
  function NumberText(num: nat, base: nat, width: int, padc: char): (s: string)
    requires 2 <= base <= 16
  {
    var ds := Digits(num, base);
    Run(padc, width - |ds|) + ds
  }

  lemma NumberLength(num: nat, base: nat, width: int, padc: char)
    requires 2 <= base <= 16
    ensures var n := |Digits(num, base)|; |NumberText(num, base, width, padc)| == if width > n then width else n
  {
  }

  lemma NumberStep(num: nat, base: nat, width: int, padc: char)
    requires 2 <= base <= 16
    ensures num % base < base
    ensures num < base ==> NumberText(num, base, width, padc) == Run(padc, width - 1) + [Digit(num % base)]
    ensures num >= base ==> num / base < num
    ensures num >= base ==>
              NumberText(num, base, width, padc) == NumberText(num / base, base, width - 1, padc) + [Digit(num % base)]
  {
    hide Run;
    if num < base {
      DivUnique(num, base, 0, num);
    } else {
      DivShrinks(num, base);
    }
  }

  // printnum: the padding is put by the innermost call, which has counted one digit per call.
  method PrintNum(sink: Sink, num: nat, base: nat, width: int, padc: char)
    requires sink.Valid() && 2 <= base <= 16
    modifies sink, sink.buf
    ensures sink.Valid() && sink.sent == old(sink.sent) + Codes(NumberText(num, base, width, padc))
    decreases num
  {
    hide NumberText, Digit, Run, Digits, Codes, Code, Sink.Valid;
    NumberStep(num, base, width, padc);
    if num >= base {
      CodesPush(NumberText(num / base, base, width - 1, padc), Digit(num % base));
      PrintNum(sink, num / base, base, width - 1, padc);
    } else {
      CodesPush(Run(padc, width - 1), Digit(num % base));
      sink.Repeat(padc, width - 1);
    }
    sink.Putch(Code(Digit(num % base)));
  }

  // ----- integer arguments (long is 32 bits)

  function GetUint(a: Arg, lflag: nat): Word64 {
    if lflag >= 2 then a.bits else a.bits % TWO32
  }

  function GetInt(a: Arg, lflag: nat): int {
    if lflag >= 2 then (if a.bits < TWO63 then a.bits else a.bits - TWO64) else Wrap(a.bits)
  }

  // ----- strings

  // The characters that %s shows, at most precision of them if that is not negative.
  function Shown(s: CString, precision: int): string {
    if precision < 0 then s else s[..Min(precision, |s|)]
  }

  function ShownAs(c: char, alt: bool): char {
    if alt && (c < ' ' || c > '~') then '?' else c
  }

  // With the alternate flag, unprintable characters become question marks.
  function Visible(s: string, alt: bool): string {
    seq(|s|, i requires 0 <= i < |s| => ShownAs(s[i], alt))
  }

  // What the %s case puts. The padding on the left is reckoned from a length that is counted only up
  // to the precision, so without a precision it is the whole width.
  function StringText(s: CString, q: Escape): string {
    var shown := Shown(s, q.precision);
    if q.width > 0 && q.padc != '-' then
      var pad := q.width - (if q.precision < 0 then 0 else |shown|);
      Run(q.padc, pad) + Visible(shown, q.alt) + Run(' ', Least(pad, 0) - |shown|)
    else Visible(shown, q.alt) + Run(' ', q.width - |shown|)
  }

  function Least(a: int, b: int): int {
    if a < b then a else b
  }

  // A string gets exactly its width when there is a precision, when it is left-justified, or when
  // there is nothing to show.
  lemma StringWidthIff(s: CString, q: Escape)
    requires q.width > 0
    ensures var n := |Shown(s, q.precision)|;
            |StringText(s, q)| == (if q.width > n then q.width else n) <==>
            (q.precision >= 0 || q.padc == '-' || s == "")
  {
  }

  // The %s case of vprintfmt.
  method PutString(sink: Sink, s: CString, q: Escape)
    requires sink.Valid()
    modifies sink, sink.buf
    ensures sink.Valid() && sink.sent == old(sink.sent) + Codes(StringText(s, q))
  {
    hide Run, Codes, Sink.Valid, Visible, Shown;
    var width := q.width;
    ghost var left := "";
    if width > 0 && q.padc != '-' {
      var len := ShownLength(s, q.precision);
      sink.Repeat(q.padc, width - len);
      left := Run(q.padc, width - len);
      width := Least(width - len, 0);
    } else {
      assert Codes(left) == [];
    }
    var n := PutCharacters(sink, s, q);
    sink.Repeat(' ', width - n);
    ghost var shown := Visible(Shown(s, q.precision), q.alt);
    CodesAppend(left, shown);
    CodesAppend(left + shown, Run(' ', width - n));
    assert StringText(s, q) == left + shown + Run(' ', width - n);
  }

  // The length loop of %s, which without a precision never runs.
  method ShownLength(s: CString, precision: int) returns (len: nat)
    ensures len == if precision < 0 then 0 else |Shown(s, precision)|
  {
    var p := s + ['\0'];
    len := 0;
    while len < precision && p[len] != '\0'
      invariant len <= |s| && (len == 0 || len <= precision)
      decreases |s| - len
    {
      len := len + 1;
    }
  }

  lemma ShowNext(s: string, n: nat, alt: bool)
    requires n < |s|
    ensures Codes(Visible(s[..n + 1], alt)) == Codes(Visible(s[..n], alt)) + [Code(ShownAs(s[n], alt))]
  {
    assert Visible(s[..n + 1], alt) == Visible(s[..n], alt) + [ShownAs(s[n], alt)];
    CodesPush(Visible(s[..n], alt), ShownAs(s[n], alt));
  }

  // The character loop of %s; it also counts the width down by n.
  method PutCharacters(sink: Sink, s: CString, q: Escape) returns (n: nat)
    requires sink.Valid()
    modifies sink, sink.buf
    ensures n == |Shown(s, q.precision)|
    ensures sink.Valid() && sink.sent == old(sink.sent) + Codes(Visible(Shown(s, q.precision), q.alt))
  {
    hide Sink.Valid, Codes, Code, Visible, ShownAs;
    NothingShown(q.alt);
    var p, precision := s + ['\0'], q.precision;
    n := 0;
    assert s[..n] == "";
    while true
      invariant n <= |Shown(s, q.precision)|
      invariant precision == if q.precision < 0 then q.precision else q.precision - n
      invariant sink.Valid() && sink.sent == old(sink.sent) + Codes(Visible(s[..n], q.alt))
      decreases |s| - n
    {
      var ch := p[n];
      if ch == '\0' {
        break;
      }
      if precision >= 0 {
        precision := precision - 1;
        if precision < 0 {
          break;
        }
      }
      ShowNext(s, n, q.alt);
      sink.Putch(Code(ShownAs(ch, q.alt)));
      n := n + 1;
    }
    assert Shown(s, q.precision) == s[..n];
  }

  lemma NothingShown(alt: bool)
    ensures Codes(Visible("", alt)) == []
  {
  }

  // ----- escapes

  // The state of an escape as it is read: the position, the flags and the next argument.
  datatype Escape = Escape(i: nat, padc: char, width: int, precision: int, lflag: nat, alt: bool, k: nat)

  function Number(s: string, i: nat, v: int): (r: (int, nat))
    requires Terminated(s) && i < |s|
    ensures i <= r.1 < |s| && !('0' <= s[r.1] <= '9') && forall j :: i <= j < r.1 ==> '0' <= s[j] <= '9'
    decreases |s| - i
  {
    if '0' <= s[i] <= '9' then Number(s, i + 1, v * 10 + (s[i] as int - '0' as int)) else (v, i)
  }

  // The first number is the width; one after it or after a point is the precision.
  function ProcessPrecision(e: Escape, precision: int): Escape {
    if e.width < 0 then e.(width := precision, precision := -1) else e.(precision := precision)
  }

  predicate IsFlag(c: char) {
    c == '-' || '0' <= c <= '9' || c == '*' || c == '.' || c == '#' || c == 'l'
  }

  // All flags from position e.i.
  function Flags(fmt: string, e: Escape, args: Args): (r: Escape)
    requires Terminated(fmt) && e.i < |fmt|
    ensures e.i <= r.i < |fmt| && !IsFlag(fmt[r.i]) && forall j :: e.i <= j < r.i ==> IsFlag(fmt[j])
    decreases |fmt| - e.i
  {
    var c, next := fmt[e.i], e.(i := e.i + 1);
    if c == '-' then Flags(fmt, next.(padc := '-'), args)
    else if c == '0' then Flags(fmt, next.(padc := '0'), args)
    else if '1' <= c <= '9' then
      var (v, j) := Number(fmt, e.i, 0);
      Flags(fmt, ProcessPrecision(e, v).(i := j), args)
    else if c == '*' then Flags(fmt, ProcessPrecision(next, GetInt(args(e.k), 0)).(k := e.k + 1), args)
    else if c == '.' then Flags(fmt, if e.width < 0 then next.(width := 0) else next, args)
    else if c == '#' then Flags(fmt, next.(alt := true), args)
    else if c == 'l' then Flags(fmt, next.(lflag := e.lflag + 1), args)
    else e
  }

  predicate IsConversion(c: char) {
    c in {'c', 'e', 's', 'd', 'u', 'o', 'p', 'x', '%'}
  }

  function ErrorString(err: int): Option<string> {
    if err == 1 then Some("unspecified error")
    else if err == 2 then Some("bad environment")
    else if err == 3 then Some("invalid parameter")
    else if err == 4 then Some("out of memory")
    else if err == 5 then Some("out of environments")
    else if err == 6 then Some("segmentation fault")
    else None
  }

  function SignedText(v: int, width: int, padc: char): string {
    if v < 0 then "-" + NumberText(-v, 10, width, padc) else NumberText(v, 10, width, padc)
  }

  // What a conversion puts, given its argument.
  function ConversionText(c: char, e: Escape, a: Arg): seq<Word>
    requires IsConversion(c)
  {
    if c == 'c' then [a.bits % TWO32]
    else if c == 'e' then
      var err := GetInt(a, 0);
      Codes(ErrorText(if err < 0 then -err else err))
    else if c == 's' then Codes(StringText(match a.str case Some(s) => s case None => "(null)", e))
    else if c == 'd' then Codes(SignedText(GetInt(a, e.lflag), e.width, e.padc))
    else if c == 'u' then Codes(NumberText(GetUint(a, e.lflag), 10, e.width, e.padc))
    else if c == 'o' then Codes("XXX")
    else if c == 'p' then Codes("0x" + NumberText(a.bits % TWO32, 16, e.width, e.padc))
    else if c == 'x' then Codes(NumberText(GetUint(a, e.lflag), 16, e.width, e.padc))
    else Codes("%")
  }

  function ErrorText(err: int): string {
    match ErrorString(err) case Some(text) => text case None => "error " + SignedText(err, -1, ' ')
  }

  function Consumed(c: char): nat {
    if c == 'o' || c == '%' then 0 else 1
  }

  function Start(i: nat, k: nat): Escape {
    Escape(i, ' ', -1, -1, 0, false, k)
  }

  // What vprintfmt puts from position i on, with the k-th argument next. An unknown escape puts its
  // percent sign and goes on right after it.
  function Format(fmt: string, i: nat, args: Args, k: nat): seq<Word>
    requires Terminated(fmt) && i < |fmt|
    decreases |fmt| - i
  {
    if fmt[i] == '\0' then []
    else if fmt[i] != '%' then Literal([fmt[i]]) + Format(fmt, i + 1, args, k)
    else
      var e := Flags(fmt, Start(i + 1, k), args);
      var c := fmt[e.i];
      if IsConversion(c)
      then ConversionText(c, e, args(e.k)) + Format(fmt, e.i + 1, args, e.k + Consumed(c))
      else Codes("%") + Format(fmt, i + 1, args, e.k)
  }

  // ----- the interpreter

  // The digit loop of a width or precision; it reads ahead and leaves fmt after the last digit.
  method ReadNumber(fmt: string, i: nat) returns (v: int, j: nat)
    requires Terminated(fmt) && i < |fmt| && '1' <= fmt[i] <= '9'
    ensures (v, j) == Number(fmt, i, 0)
  {
    var ch := fmt[i];
    j, v := i + 1, 0;
    while true
      invariant i < j < |fmt| && ch == fmt[j - 1] && '0' <= ch <= '9'
      invariant Number(fmt, j - 1, v) == Number(fmt, i, 0)
      decreases |fmt| - j
    {
      v := v * 10 + (ch as int - '0' as int);
      ch := fmt[j];
      if ch < '0' || ch > '9' {
        break;
      }
      j := j + 1;
    }
  }

  // The flag cases of the switch, until a character that is not one; fmt has moved past it.
  method ReadFlags(fmt: string, i: nat, args: Args, k: nat) returns (e: Escape)
    requires Terminated(fmt) && i < |fmt|
    ensures e == Flags(fmt, Start(i, k), args)
  {
    e := Start(i, k);
    while IsFlag(fmt[e.i])
      invariant e.i < |fmt| && Flags(fmt, e, args) == Flags(fmt, Start(i, k), args)
      decreases |fmt| - e.i
    {
      var c, next := fmt[e.i], e.(i := e.i + 1);
      if c == '-' || c == '0' {
        e := next.(padc := c);
      } else if '1' <= c <= '9' {
        var v, j := ReadNumber(fmt, e.i);
        e := ProcessPrecision(e, v).(i := j);
      } else if c == '*' {
        e := ProcessPrecision(next, GetInt(args(e.k), 0)).(k := e.k + 1);
      } else if c == '.' {
        e := if e.width < 0 then next.(width := 0) else next;
      } else if c == '#' {
        e := next.(alt := true);
      } else {
        e := next.(lflag := e.lflag + 1);
      }
    }
  }

  method PutSigned(sink: Sink, v: int, width: int, padc: char)
    requires sink.Valid()
    modifies sink, sink.buf
    ensures sink.Valid() && sink.sent == old(sink.sent) + Codes(SignedText(v, width, padc))
  {
    hide Sink.Valid, NumberText;
    var num := v;
    if num < 0 {
      sink.Putch(Code('-'));
      num := -num;
    }
    PrintNum(sink, num, 10, width, padc);
  }

  method PutText(sink: Sink, s: string)
    requires sink.Valid()
    modifies sink, sink.buf
    ensures sink.Valid() && sink.sent == old(sink.sent) + Codes(s)
  {
    for i := 0 to |s|
      invariant sink.Valid() && sink.sent == old(sink.sent) + Codes(s[..i])
    {
      CodesAppend(s[..i], [s[i]]);
      assert s[..i + 1] == s[..i] + [s[i]];
      sink.Putch(Code(s[i]));
    }
    assert s[..|s|] == s;
  }

  // The conversion cases of the switch.
  method Convert(sink: Sink, c: char, e: Escape, a: Arg)
    requires sink.Valid() && IsConversion(c)
    modifies sink, sink.buf
    ensures sink.Valid() && sink.sent == old(sink.sent) + ConversionText(c, e, a)
  {
    hide Sink.Valid, NumberText, SignedText, StringText, Codes;
    if c == 'c' {
      sink.Putch(a.bits % TWO32);
    } else if c == 'e' {
      var err := GetInt(a, 0);
      if err < 0 {
        err := -err;
      }
      match ErrorString(err) {
        case None =>
          CodesAppend("error ", SignedText(err, -1, ' '));
          PutText(sink, "error ");
          PutSigned(sink, err, -1, ' ');
        case Some(text) =>
          PutText(sink, text);
      }
    } else if c == 's' {
      PutString(sink, match a.str case Some(s) => s case None => "(null)", e);
    } else if c == 'd' {
      PutSigned(sink, GetInt(a, e.lflag), e.width, e.padc);
    } else if c == 'u' {
      PrintNum(sink, GetUint(a, e.lflag), 10, e.width, e.padc);
    } else if c == 'o' {
      PutText(sink, "XXX");
    } else if c == 'p' {
      CodesAppend("0x", NumberText(a.bits % TWO32, 16, e.width, e.padc));
      PutText(sink, "0x");
      PrintNum(sink, a.bits % TWO32, 16, e.width, e.padc);
    } else if c == 'x' {
      PrintNum(sink, GetUint(a, e.lflag), 16, e.width, e.padc);
    } else {
      PutText(sink, "%");
    }
  }

  // vprintfmt. The position never passes the terminator.
  method Vprintfmt(sink: Sink, fmt: string, args: Args)
    requires sink.Valid() && Terminated(fmt)
    modifies sink, sink.buf
    ensures sink.Valid() && sink.sent == old(sink.sent) + Format(fmt, 0, args, 0)
  {
    hide Sink.Valid, Format;
    var i: nat, k: nat := 0, 0;
    while fmt[i] != '\0'
      invariant i < |fmt| && sink.Valid()
      invariant sink.sent + Format(fmt, i, args, k) == old(sink.sent) + Format(fmt, 0, args, 0)
      decreases |fmt| - i
    {
      if fmt[i] != '%' {
        PlainCharacter(fmt, i, args, k);
        sink.Putch(fmt[i] as int);
        i := i + 1;
      } else {
        i, k := PutEscape(sink, fmt, i, args, k);
      }
    }
    PlainCharacter(fmt, i, args, k);
  }

  lemma PlainCharacter(fmt: string, i: nat, args: Args, k: nat)
    requires Terminated(fmt) && i < |fmt| && fmt[i] != '%'
    ensures fmt[i] == '\0' ==> Format(fmt, i, args, k) == []
    ensures fmt[i] != '\0' ==> Format(fmt, i, args, k) == [fmt[i] as int] + Format(fmt, i + 1, args, k)
  {
    hide Flags;
  }

  lemma EscapeText(fmt: string, i: nat, args: Args, k: nat)
    requires Terminated(fmt) && i < |fmt| && fmt[i] == '%'
    ensures i + 1 < |fmt|
    ensures var e := Flags(fmt, Start(i + 1, k), args);
            var c := fmt[e.i];
            if IsConversion(c) then
              && e.i + 1 < |fmt|
              && Format(fmt, i, args, k)
                 == ConversionText(c, e, args(e.k)) + Format(fmt, e.i + 1, args, e.k + Consumed(c))
            else Format(fmt, i, args, k) == [Code('%')] + Format(fmt, i + 1, args, e.k)
  {
    OnePercent();
    FlagsArePlain();
    hide Flags, ConversionText, Codes, Code, Literal, IsConversion;
    assert fmt[i] != '\0';
  }

  lemma OnePercent()
    ensures Codes("%") == [Code('%')]
  {
  }

  // One escape, from its percent sign. The rewind after an unknown one stops right after its own
  // percent sign.
  method PutEscape(sink: Sink, fmt: string, start: nat, args: Args, k: nat) returns (i: nat, k': nat)
    requires sink.Valid() && Terminated(fmt) && start < |fmt| && fmt[start] == '%'
    modifies sink, sink.buf
    ensures sink.Valid() && start < i < |fmt|
    ensures sink.sent + Format(fmt, i, args, k') == old(sink.sent) + Format(fmt, start, args, k)
  {
    hide Sink.Valid, ConversionText, IsFlag, Flags, Format;
    FlagsArePlain();
    EscapeText(fmt, start, args, k);
    var e := ReadFlags(fmt, start + 1, args, k);
    i, k' := e.i + 1, e.k;
    var ch := fmt[e.i];
    if IsConversion(ch) {
      Convert(sink, ch, e, args(k'));
      k' := k' + Consumed(ch);
    } else {
      sink.Putch(Code('%'));
      i := Rewind(fmt, i, start);
    }
  }

  lemma FlagsArePlain()
    ensures !IsFlag('%') && !IsConversion('\0') && forall c :: IsFlag(c) ==> c != '%' && c != '\0'
  {
  }

  // The rewind of an unknown escape steps back until the character before is a percent sign.
  method Rewind(fmt: string, i: nat, ghost start: nat) returns (j: nat)
    requires start + 1 < i <= |fmt| && fmt[start] == '%'
    requires forall n :: start < n < i - 1 ==> fmt[n] != '%'
    ensures j == start + 1
  {
    j := i - 1;
    while fmt[j - 1] != '%'
      invariant start + 1 <= j < i
      decreases j
    {
      j := j - 1;
    }
  }

  const E_INVAL: int := 3

  // vsnprintf, as section 7.19.6.5 of C99 asks: of the full output the first n - 1 characters and a
  // terminator are stored, nothing else in memory changes, and the full length is returned.
  method Vsnprintf(buf: array?<char>, n: int, fmt: string, args: Args) returns (r: int)
    requires Terminated(fmt) && (buf != null ==> n <= buf.Length)
    modifies buf
    ensures buf == null || n < 1 ==> r == -3 && (buf != null ==> buf[..] == old(buf[..]))
    ensures buf != null && n >= 1 ==>
              var text := Format(fmt, 0, args, 0);
              var m := Min(|text|, n - 1);
              && r == |text| && buf[..m] == Stored(text[..m]) && buf[m] == '\0'
              && forall k :: m < k < buf.Length ==> buf[k] == old(buf[k])
  {
    hide Format;
    if buf == null || n < 1 {
      return -E_INVAL;
    }
    var b := new Sink(true, buf, n);
    Vprintfmt(b, fmt, args);
    ghost var text := Format(fmt, 0, args, 0);
    ghost var m := Min(|text|, n - 1);
    assert b.sent == text && b.pos == m && buf[0..m] == Stored(text[..m]);
    b.buf[b.pos] := '\0';
    r := b.cnt;
    assert buf[..m] == Stored(text[..m]);
  }
}
