// What the format interpreter prints, strtol reads back; and what it makes of formats that are plain
// or broken (src/lib/printfmt.c, src/lib/string.c).
module PrintParse {
  import opened Words
  import opened Strings
  import opened Printf

  // ----- plain text and broken escapes

  // Without a percent sign a format is its own output.
  lemma {:induction false} PlainFormat(fmt: string, i: nat, args: Args, k: nat)
    requires Terminated(fmt) && i < |fmt| && forall j :: i <= j < |fmt| ==> fmt[j] != '%'
    ensures Format(fmt, i, args, k) == Literal(fmt[i..|fmt| - 1])
    decreases |fmt| - i
  {
    if i < |fmt| - 1 {
      PlainFormat(fmt, i + 1, args, k);
    }
  }

  // Characters that are neither percent signs nor the terminator are copied.
  lemma {:induction false} PlainPrefix(fmt: string, i: nat, j: nat, args: Args, k: nat)
    requires Terminated(fmt) && i <= j < |fmt| && forall n :: i <= n < j ==> fmt[n] != '%'
    ensures Format(fmt, i, args, k) == Literal(fmt[i..j]) + Format(fmt, j, args, k)
    decreases j - i
  {
    hide Flags, ConversionText;
    if i < j {
      PlainPrefix(fmt, i + 1, j, args, k);
    }
  }

  // An escape that ends in an unknown character, or is cut short by the terminator, is reproduced
  // literally up to that character, although its flags were read and its stars took arguments.
  lemma BrokenEscape(fmt: string, i: nat, args: Args, k: nat)
    requires Terminated(fmt) && i < |fmt| && fmt[i] == '%'
    requires var e := Flags(fmt, Start(i + 1, k), args); !IsConversion(fmt[e.i])
    ensures var e := Flags(fmt, Start(i + 1, k), args);
            && i < e.i < |fmt| && fmt[e.i] != '%'
            && Format(fmt, i, args, k) == Literal(fmt[i..e.i]) + Format(fmt, e.i, args, e.k)
  {
    hide Format, Flags;
    var e := Flags(fmt, Start(i + 1, k), args);
    FlagsArePlain();
    PlainPrefix(fmt, i + 1, e.i, args, e.k);
    EscapeText(fmt, i, args, k);
    assert Format(fmt, i, args, k) == Literal("%") + Format(fmt, i + 1, args, e.k);
    assert fmt[i..e.i] == "%" + fmt[i + 1..e.i];
  }

  predicate IsPlain(s: string) {
    '%' !in s && '\0' !in s
  }

  // A format with one conversion and no flags puts the text around it as it is.
  lemma SingleConversion(fmt: string, pre: string, c: char, post: string, args: Args)
    requires fmt == pre + "%" + [c] + post + "\0" && IsPlain(pre) && IsPlain(post) && IsConversion(c)
    ensures Terminated(fmt)
    ensures Format(fmt, 0, args, 0) == Literal(pre) + ConversionText(c, Start(|pre| + 1, 0), args(0)) + Literal(post)
  {
    hide ConversionText, Format;
    var n := |pre|;
    assert fmt[..n] == pre && fmt[n + 2..|fmt| - 1] == post;
    assert forall j :: n + 2 <= j < |fmt| - 1 ==> fmt[j] == post[j - n - 2];
    PlainPrefix(fmt, 0, n, args, 0);
    PlainFormat(fmt, n + 2, args, Consumed(c));
    EscapeText(fmt, n, args, 0);
    assert Flags(fmt, Start(n + 1, 0), args) == Start(n + 1, 0);
  }

  // A plain %s is the string itself.
  lemma StringConversion(s: CString, args: Args)
    requires args(0).str == Some(s)
    ensures Terminated("%s\0") && Format("%s\0", 0, args, 0) == Codes(s)
  {
    SingleConversion("%s\0", "", 's', "", args);
    assert Shown(s, -1) == s;
    assert Visible(s, false) == s;
  }

  lemma Ascii(s: string)
    requires forall i :: 0 <= i < |s| ==> s[i] as int < 0x80
    ensures Literal(s) == Codes(s)
  {
  }

  lemma CodeConversion(err: int, args: Args)
    requires GetInt(args(0), 0) == err
    ensures Terminated("error %d\0")
    ensures Format("error %d\0", 0, args, 0) == Codes("error " + SignedText(err, -1, ' '))
  {
    hide SignedText, Codes, Literal, Format;
    SingleConversion("error %d\0", "error ", 'd', "", args);
    Ascii("error ");
    CodesAppend("error ", SignedText(err, -1, ' '));
    assert Literal("") == [];
  }

  // The nested calls of the %e case put what that case is said to put.
  lemma ErrorConversion(err: int, e: Escape, a: Arg, args: Args)
    requires var v := GetInt(a, 0); err == if v < 0 then -v else v
    requires ErrorString(err) == None ==> GetInt(args(0), 0) == err
    requires ErrorString(err).Some? ==> args(0).str == ErrorString(err)
    ensures Terminated("error %d\0") && Terminated("%s\0")
    ensures Format(if ErrorString(err) == None then "error %d\0" else "%s\0", 0, args, 0) == ConversionText('e', e, a)
  {
    hide NumberText, StringText, SignedText, Codes, Format;
    match ErrorString(err) {
      case None => CodeConversion(err, args);
      case Some(text) => StringConversion(text, args);
    }
  }

  // ----- digits and their values

  lemma DigitRound(d: nat, base: int)
    requires d < 16 && d < base <= 16
    ensures DigitValue(Digit(d)) == d && IsDigit(Digit(d), base) && Digit(d) != '\0'
  {
  }

  predicate AllDigits(s: string, base: int) {
    forall i :: 0 <= i < |s| ==> IsDigit(s[i], base)
  }

  lemma ValueAppend(s: string, c: char, base: int)
    ensures Value(s + [c], base) == Value(s, base) * base + DigitValue(c)
  {
    assert (s + [c])[..|s|] == s;
  }

  lemma DigitsStep(num: nat, base: nat) returns (q: nat, r: nat)
    requires 2 <= base <= 16
    ensures r < base && num == q * base + r && (q < num || num == 0)
    ensures Digits(num, base) == (if q == 0 then "" else Digits(q, base)) + [Digit(r)]
  {
    q, r := num / base, num % base;
    assert num == q * base + r;
    if num < base {
      DivUnique(num, base, 0, num);
    } else {
      DivShrinks(num, base);
      assert num >= base ==> q * base != 0;
    }
  }

  lemma {:induction false} DigitsRound(num: nat, base: nat)
    requires 2 <= base <= 16
    ensures AllDigits(Digits(num, base), base) && Value(Digits(num, base), base) == num
  {
    var q, r := DigitsStep(num, base);
    hide Digits, DigitValue, Digit, IsDigit;
    DigitRound(r, base);
    if q == 0 {
      ValueAppend("", Digit(r), base);
      assert 0 * base == 0;
    } else {
      DigitsRound(q, base);
      ValueAppend(Digits(q, base), Digit(r), base);
    }
  }

  lemma {:induction false} LeadingZeros(n: int, ds: string, base: int)
    ensures Value(Run('0', n) + ds, base) == Value(ds, base)
    decreases |ds|, n
  {
    hide DigitValue;
    var s := Run('0', n) + ds;
    if ds != [] {
      LeadingZeros(n, ds[..|ds| - 1], base);
      assert s[..|s| - 1] == Run('0', n) + ds[..|ds| - 1];
    } else if n > 0 {
      LeadingZeros(n - 1, ds, base);
      assert s == Run('0', n) && Run('0', n - 1) + ds == Run('0', n - 1);
      assert s[..|s| - 1] == Run('0', n - 1);
      assert DigitValue('0') == 0 by { ZeroDigit(); }
      assert 0 * base == 0;
    } else {
      assert s == ds;
    }
  }

  lemma ZeroDigit()
    ensures DigitValue('0') == 0
  {
  }

  // ----- where the parser stops

  lemma {:induction false} DigitsEndAt(s: string, i: nat, base: int, e: nat)
    requires Terminated(s) && i <= e < |s|
    requires (forall k :: i <= k < e ==> IsDigit(s[k], base)) && !IsDigit(s[e], base)
    ensures DigitsEnd(s, i, base) == e
    decreases e - i
  {
    hide IsDigit;
    if i < e {
      DigitsEndAt(s, i + 1, base, e);
    }
  }

  lemma {:induction false} BlanksEndAt(s: string, i: nat, e: nat)
    requires Terminated(s) && i <= e < |s|
    requires (forall k :: i <= k < e ==> s[k] == ' ') && s[e] != ' ' && s[e] != '\t'
    ensures BlanksEnd(s, i) == e
    decreases e - i
  {
    if i < e {
      BlanksEndAt(s, i + 1, e);
    }
  }

  // A digit of a base up to 16 is none of the characters the parser treats specially.
  lemma DigitIsPlain(c: char, base: int)
    requires IsDigit(c, base) && base <= 16
    ensures c != ' ' && c != '\t' && c != '+' && c != '-' && c != 'x' && c != '\0'
  {
  }

  lemma NulNoDigit(base: int)
    ensures !IsDigit('\0', base) && !IsDigit(' ', base) && !IsDigit('-', base)
  {
  }

  // s is blanks, perhaps a minus sign at b, digits ds from j, and the terminator.
  ghost predicate NumberAt(s: string, b: nat, j: nat, ds: string) {
    && |s| == j + |ds| + 1 && (j == b || j == b + 1)
    && (forall i :: 0 <= i < b ==> s[i] == ' ')
    && (j == b + 1 ==> s[b] == '-')
    && (forall i :: 0 <= i < |ds| ==> s[j + i] == ds[i])
    && s[|s| - 1] == '\0'
  }

  // Digits that the parser cannot take for anything else.
  predicate PlainDigits(ds: string, base: int) {
    AllDigits(ds, base) && forall i :: 0 <= i < |ds| ==> ds[i] !in {' ', '\t', '+', '-', 'x', '\0'}
  }

  lemma DigitsArePlain(ds: string, base: int)
    requires AllDigits(ds, base) && base <= 16
    ensures PlainDigits(ds, base)
  {
    forall i | 0 <= i < |ds|
      ensures ds[i] !in {' ', '\t', '+', '-', 'x', '\0'}
    {
      DigitIsPlain(ds[i], base);
    }
  }

  lemma ParseAt(s: string, b: nat, j: nat, ds: string, base: int)
    requires 2 <= base <= 16 && ds != [] && PlainDigits(ds, base) && NumberAt(s, b, j, ds)
    ensures Terminated(s)
    ensures Parse(s, base) == Parsed(Wrap(if j > b then -Value(ds, base) else Value(ds, base)), |s| - 1)
  {
    hide IsDigit, DigitValue, Value, Wrap;
    NulNoDigit(base);
    forall i | j <= i < |s| - 1
      ensures s[i] == ds[i - j]
    {
      assert s[j + (i - j)] == ds[i - j];
    }
    assert Terminated(s);
    BlanksEndAt(s, 0, b);
    DigitsEndAt(s, j, base, |s| - 1);
    assert s[j..|s| - 1] == ds;
    hide BlanksEnd, DigitsEnd;
    assert s[j + 1] != 'x' by {
      if |ds| > 1 {
        assert s[j + 1] == ds[1];
      }
    }
    assert Prefix(s, j, base) == (j, base);
  }

  // Digits after blanks, and digits after a minus sign.
  lemma ParseBlanks(blanks: int, ds: string, base: int)
    requires 2 <= base <= 16 && ds != [] && AllDigits(ds, base)
    ensures var text := Run(' ', blanks) + ds;
            && Terminated(text + ['\0'])
            && Parse(text + ['\0'], base) == Parsed(Wrap(Value(ds, base)), |text|)
  {
    hide Run, IsDigit, DigitValue, Value, Wrap, Parse;
    var lead := Run(' ', blanks);
    DigitsArePlain(ds, base);
    ParseAt(lead + ds + ['\0'], |lead|, |lead|, ds, base);
  }

  lemma ParseMinus(ds: string, base: int)
    requires 2 <= base <= 16 && ds != [] && AllDigits(ds, base)
    ensures var text := "-" + ds;
            && Terminated(text + ['\0'])
            && Parse(text + ['\0'], base) == Parsed(Wrap(-Value(ds, base)), |text|)
  {
    hide IsDigit, DigitValue, Value, Wrap, Parse;
    DigitsArePlain(ds, base);
    ParseAt("-" + ds + ['\0'], 0, 1, ds, base);
  }

  // ----- round trips

  // strtol in the same base reads back every printed number modulo 2^32, whatever the width, with
  // blank or zero padding, and stops at the end. The number itself comes back exactly when it fits.
  lemma PrintParse(num: nat, base: nat, width: int, padc: char)
    requires 2 <= base <= 16 && (padc == ' ' || padc == '0')
    ensures var text := NumberText(num, base, width, padc);
            && Terminated(text + ['\0'])
            && Parse(text + ['\0'], base) == Parsed(Wrap(num), |text|)
    ensures num < TWO32 ==> (Wrap(num) == num <==> num <= 0x7FFF_FFFF)
  {
    hide Run, IsDigit, DigitValue, Value, Parse, Digits;
    var ds := Digits(num, base);
    DigitsRound(num, base);
    var pad := width - |ds|;
    if padc == ' ' {
      ParseBlanks(pad, ds, base);
    } else {
      ZeroPadded(pad, ds, base);
      NoRun();
      var zs := Run('0', pad) + ds;
      ParseBlanks(0, zs, base);
      assert Run(' ', 0) + zs == zs;
    }
  }

  lemma NoRun()
    ensures forall c, n :: n <= 0 ==> Run(c, n) == ""
  {
  }

  lemma ZeroPadded(n: int, ds: string, base: int)
    requires 2 <= base && AllDigits(ds, base)
    ensures AllDigits(Run('0', n) + ds, base) && Value(Run('0', n) + ds, base) == Value(ds, base)
  {
    LeadingZeros(n, ds, base);
    hide Run, Value;
    ZeroDigit();
  }

  // A negative number comes back exactly when blanks do not separate its sign from its digits.
  lemma PrintParseNegativeIff(v: int, width: int, padc: char)
    requires -0x8000_0000 <= v < 0 && (padc == ' ' || padc == '0')
    ensures var text := SignedText(v, width, padc);
            && Terminated(text + ['\0'])
            && (Parse(text + ['\0'], 10) == Parsed(v, |text|) <==>
                (padc == '0' || width <= |Digits(-v, 10)|))
  {
    hide Run, IsDigit, DigitValue, Value, Parse, Digits, Terminated;
    var ds := Digits(-v, 10);
    DigitsRound(-v, 10);
    NoRun();
    var pad := width - |ds|;
    assert Wrap(v) == v;
    if padc == '0' || pad <= 0 {
      ZeroPadded(pad, ds, 10);
      ParseMinus(Run('0', pad) + ds, 10);
      assert Run('0', pad) + ds == Run(padc, pad) + ds;
    } else {
      DigitsArePlain(ds, 10);
      BlankAfterPrefix("-", pad, ds, 10);
    }
  }

  // Blanks after a sign or a prefix end the number before it begins.
  lemma BlankAfterPrefix(prefix: string, pad: nat, ds: string, base: int)
    requires pad > 0 && PlainDigits(ds, if prefix == "-" then base else 16)
    requires (prefix == "-" && base == 10) || (prefix == "0x" && base == 0)
    ensures var s := prefix + (Run(' ', pad) + ds) + ['\0'];
            Terminated(s) && Parse(s, base) == Parsed(0, |prefix|)
  {
    hide IsDigit, DigitValue, Wrap;
    var blank := Run(' ', pad);
    var s := prefix + (blank + ds) + ['\0'];
    hide Run;
    var n := |prefix|;
    assert forall i :: 0 <= i < pad ==> s[n + i] == blank[i];
    assert forall i :: 0 <= i < |ds| ==> s[n + pad + i] == ds[i];
    assert s[n] == blank[0] == ' ';
    assert forall i :: n <= i < n + pad ==> s[i] == blank[i - n];
    assert forall i :: n + pad <= i < |s| - 1 ==> s[i] == ds[i - n - pad];
    assert Terminated(s);
    BlanksEndAt(s, 0, 0);
    NulNoDigit(10);
    NulNoDigit(16);
    DigitsEndAt(s, n, if prefix == "-" then 10 else 16, n);
    hide BlanksEnd, DigitsEnd;
    assert s[n..n] == [];
    NoDigits(s[n..n], 10);
    NoDigits(s[n..n], 16);
  }

  // The flag that should pad on the right puts minus signs on the left of a number. It is then read
  // back exactly when there is no padding, or one minus sign that does not change the value.
  lemma LeftJustifiedParseIff(num: nat, base: nat, width: int)
    requires 2 <= base <= 16
    ensures var text := NumberText(num, base, width, '-');
            && Terminated(text + ['\0'])
            && (Parse(text + ['\0'], base) == Parsed(Wrap(num), |text|) <==>
                (width <= |Digits(num, base)| || (width == |Digits(num, base)| + 1 && num % 0x8000_0000 == 0)))
  {
    var ds := Digits(num, base);
    DigitsRound(num, base);
    OneMinus();
    hide Run, IsDigit, DigitValue, Value, Parse, Digits, Wrap;
    NoRun();
    var pad := width - |ds|;
    NegationSame(num);
    if pad <= 0 {
      ParseBlanks(0, ds, base);
      assert Run(' ', 0) + ds == ds == Run('-', pad) + ds;
    } else if pad == 1 {
      ParseMinus(ds, base);
    } else {
      DigitsArePlain(ds, base);
      TwoMinuses(pad, ds, base);
    }
  }

  lemma OneMinus()
    ensures Run('-', 1) == "-"
  {
    assert Run('-', 0) == "";
  }

  lemma NegationSame(num: int)
    ensures Wrap(-num) == Wrap(num) <==> num % 0x8000_0000 == 0
  {
    var q: int, r: int := num / TWO32, num % TWO32;
    WrapCongruent(r, q);
    WrapCongruent(-r, -q);
    assert num == r + q * TWO32 && -num == -r + -q * TWO32;
    DivUnique(num, 0x8000_0000, 2 * q + r / 0x8000_0000, r % 0x8000_0000);
  }

  lemma TwoMinuses(pad: int, ds: string, base: int)
    requires pad >= 2 && ds != [] && PlainDigits(ds, base) && 2 <= base <= 16
    ensures var s := Run('-', pad) + ds + ['\0'];
            Terminated(s) && Parse(s, base).end == 1 < pad
  {
    hide IsDigit, DigitValue, Wrap, Value;
    var s := Run('-', pad) + ds + ['\0'];
    hide Run;
    assert s[0] == '-' && s[1] == '-';
    assert forall i :: pad <= i < |s| - 1 ==> s[i] == ds[i - pad];
    assert Terminated(s);
    NulNoDigit(base);
    BlanksEndAt(s, 0, 0);
    DigitsEndAt(s, 1, base, 1);
    hide BlanksEnd, DigitsEnd;
    assert Prefix(s, 1, base) == (1, base);
  }

  // %p output read with base 0: the prefix selects base 16 unless blanks follow it.
  lemma PointerParseIff(v: Word, width: int, padc: char)
    requires padc == ' ' || padc == '0'
    ensures var text := "0x" + NumberText(v, 16, width, padc);
            && Terminated(text + ['\0'])
            && (Parse(text + ['\0'], 0) == Parsed(Wrap(v), |text|) <==>
                (padc == '0' || width <= |Digits(v, 16)|))
  {
    hide Run, IsDigit, DigitValue, Value, Parse, Digits, Wrap, Terminated, AllDigits, PlainDigits;
    var ds := Digits(v, 16);
    DigitsRound(v, 16);
    NoRun();
    var pad := width - |ds|;
    if padc == '0' || pad <= 0 {
      ZeroPadded(pad, ds, 16);
      DigitsArePlain(Run('0', pad) + ds, 16);
      ParsePrefixed(Run('0', pad) + ds);
    } else {
      DigitsArePlain(ds, 16);
      BlankAfterPrefix("0x", pad, ds, 0);
    }
  }

  lemma ParsePrefixed(ds: string)
    requires ds != [] && PlainDigits(ds, 16)
    ensures var s := "0x" + ds + ['\0'];
            Terminated(s) && Parse(s, 0) == Parsed(Wrap(Value(ds, 16)), |s| - 1)
  {
    hide IsDigit, DigitValue, Wrap, Value;
    var s := "0x" + ds + ['\0'];
    assert forall i :: 2 <= i < |s| - 1 ==> s[i] == ds[i - 2];
    assert Terminated(s);
    NulNoDigit(16);
    BlanksEndAt(s, 0, 0);
    DigitsEndAt(s, 2, 16, |s| - 1);
    hide BlanksEnd, DigitsEnd;
    assert s[2..|s| - 1] == ds;
  }
}
