// What strtol makes of every text of its grammar, without reference to how it scans (src/lib/string.c).
module ParseLaws {
  import opened Words
  import opened Strings
  import PrintParse

  // The digits, in numbers: ten figures, then the letters of either case; nothing else is one.
  lemma DigitTable(c: char)
    ensures '0' <= c <= '9' ==> DigitValue(c) == c as int - 48
    ensures 'a' <= c <= 'z' ==> DigitValue(c) == c as int - 87
    ensures 'A' <= c <= 'Z' ==> DigitValue(c) == c as int - 55
    ensures DigitValue(c) >= 0 <==> '0' <= c <= '9' || 'a' <= c <= 'z' || 'A' <= c <= 'Z'
    ensures DigitValue(c) < 36
  {
  }

  // The same letter in the two cases has the same value.
  lemma CapitalDigits(k: nat)
    requires k < 26
    ensures DigitValue((97 + k) as char) == DigitValue((65 + k) as char) == 10 + k
  {
  }

  predicate Blanks(s: string) {
    forall i :: 0 <= i < |s| ==> s[i] == ' ' || s[i] == '\t'
  }

  // What may stand before the digits for a base, and the base it gives: an 0x for base 16 or 0, a
  // leading 0 for base 0, else nothing; rest is what follows the prefix.
  predicate PrefixFor(prefix: string, rest: string, base: int, used: int) {
    if prefix == "0x" then (base == 0 || base == 16) && used == 16
    else if prefix == "0" then base == 0 && used == 8 && !(rest != "" && rest[0] == 'x')
    else
      && prefix == "" && used == (if base == 0 then 10 else base)
      && (base == 0 ==> !(rest != "" && rest[0] == '0'))
      && (base == 16 ==> !(|rest| > 1 && rest[0] == '0' && rest[1] == 'x'))
  }

  // Blanks and tabs, a sign, a prefix and digits of the base it gives are read as the number the
  // digits denote, modulo 2^32, up to the first character that is no such digit.
  lemma ParseForm(s: string, blanks: string, sign: string, prefix: string, ds: string, rest: string, base: int, used: int)
    requires Terminated(s) && s == blanks + sign + prefix + ds + rest && rest != ""
    requires Blanks(blanks) && sign in {"", "+", "-"} && PrefixFor(prefix, ds + rest, base, used)
    requires PrintParse.AllDigits(ds, used) && !IsDigit(rest[0], used) && prefix + ds != ""
    ensures Parse(s, base) == Parsed(Wrap(if sign == "-" then -Value(ds, used) else Value(ds, used)), |s| - |rest|)
  {
    hide DigitValue, IsDigit, Value, Wrap, PrintParse.AllDigits, Blanks, PrefixFor;
    hide BlanksEnd, DigitsEnd, Prefix, Terminated, Parse;
    var b, n := |blanks|, |blanks| + |sign|;
    var j, e := n + |prefix|, n + |prefix| + |ds|;
    Layout(s, blanks, sign, prefix, ds, rest);
    PrefixIsOne(prefix, ds + rest, base, used);
    FirstCharacter(prefix, ds, rest, used);
    SignAt(s, b, sign);
    BlanksSkipped(s, 0, b);
    PrefixAt(s, n, prefix, ds + rest, base, used);
    DigitsAt(s, j, ds, used);
    PrintParse.DigitsEndAt(s, j, used, e);
    ParseSteps(s, b, sign, j, e, base, used);
  }

  lemma ParseSteps(s: string, b: nat, sign: string, j: nat, e: nat, base: int, used: int)
    requires Terminated(s) && b + |sign| <= j <= e < |s| && BlanksEnd(s, 0) == b && sign in {"", "+", "-"}
    requires (s[b] == '+' <==> sign == "+") && (s[b] == '-' <==> sign == "-")
    requires Prefix(s, b + |sign|, base) == (j, used) && DigitsEnd(s, j, used) == e
    ensures Parse(s, base) == Parsed(Wrap(if sign == "-" then -Value(s[j..e], used) else Value(s[j..e], used)), e)
  {
    hide Value, Wrap, BlanksEnd, DigitsEnd, Prefix;
  }

  // Where each part is.
  lemma Layout(s: string, blanks: string, sign: string, prefix: string, ds: string, rest: string)
    requires s == blanks + sign + prefix + ds + rest && rest != ""
    ensures var b, n := |blanks|, |blanks| + |sign|;
            var j, e := n + |prefix|, n + |prefix| + |ds|;
            && e < |s| && |s| - |rest| == e
            && s[0..b] == blanks && s[b..n] == sign && s[n..] == prefix + (ds + rest) && s[j..e] == ds
            && s[e] == rest[0] && s[n] == (prefix + ds + rest)[0]
  {
    var n := |blanks| + |sign|;
    assert s[n..] == prefix + ds + rest;
    assert s[n] == s[n..][0];
  }

  lemma PrefixIsOne(prefix: string, rest: string, base: int, used: int)
    requires PrefixFor(prefix, rest, base, used)
    ensures prefix in {"", "0", "0x"}
  {
  }

  lemma DigitsAt(s: string, j: nat, ds: string, base: int)
    requires j + |ds| <= |s| && s[j..j + |ds|] == ds && PrintParse.AllDigits(ds, base)
    ensures forall k :: j <= k < j + |ds| ==> IsDigit(s[k], base)
  {
    hide IsDigit;
    forall k | j <= k < j + |ds|
      ensures IsDigit(s[k], base)
    {
      assert s[k] == s[j..j + |ds|][k - j];
    }
  }

  lemma DigitAt(ds: string, k: nat, base: int)
    requires PrintParse.AllDigits(ds, base) && k < |ds|
    ensures IsDigit(ds[k], base)
  {
  }

  // The text after the sign starts with a digit or a letter.
  lemma FirstCharacter(prefix: string, ds: string, rest: string, used: int)
    requires prefix in {"", "0", "0x"} && prefix + ds != "" && PrintParse.AllDigits(ds, used)
    ensures (prefix + ds + rest)[0] !in {' ', '\t', '+', '-', '\0'}
  {
    if prefix == "" {
      DigitAt(ds, 0, used);
      assert (prefix + ds + rest)[0] == ds[0];
    }
  }

  lemma SignAt(s: string, b: nat, sign: string)
    requires b + |sign| < |s| && s[b..b + |sign|] == sign && sign in {"", "+", "-"}
    requires s[b + |sign|] !in {' ', '\t', '+', '-', '\0'}
    ensures s[b] != ' ' && s[b] != '\t'
    ensures sign == "" ==> s[b] != '+' && s[b] != '-'
    ensures sign == "+" ==> s[b] == '+'
    ensures sign == "-" ==> s[b] == '-'
  {
    if sign != "" {
      assert s[b] == s[b..b + |sign|][0];
    }
  }

  lemma {:induction false} BlanksSkipped(s: string, i: nat, b: nat)
    requires Terminated(s) && i <= b < |s| && Blanks(s[i..b]) && s[b] != ' ' && s[b] != '\t'
    ensures BlanksEnd(s, i) == b
    decreases b - i
  {
    if i < b {
      assert s[i] == s[i..b][0] && s[i + 1..b] == s[i..b][1..];
      BlanksSkipped(s, i + 1, b);
    }
  }

  lemma PrefixAt(s: string, n: nat, prefix: string, rest: string, base: int, used: int)
    requires Terminated(s) && n < |s| && s[n..] == prefix + rest && PrefixFor(prefix, rest, base, used)
    requires rest != ""
    ensures Prefix(s, n, base) == (n + |prefix|, used)
  {
    assert forall k :: n <= k < |s| ==> s[k] == (prefix + rest)[k - n];
    if prefix == "" {
      assert s[n] == rest[0];
      assert |rest| > 1 ==> s[n + 1] == rest[1];
      assert |rest| == 1 ==> n == |s| - 1;
    }
  }
}
