/** What strtoull with base 0 reads: the base by the prefix, the sign, the limit, and
    where it stops. */
module Numbers {
  import opened Basics
  import opened ConfBlanks
  import opened ConfGrammar
  import opened ConfText
  import opened Decimal

  function DigitChar(d: nat): char
    requires d < 16
  {
    if d < 10 then (48 + d) as char else (87 + d) as char
  }

  /** A number in a base, with small letters. */
  function InBase(n: nat, base: nat): string
    requires 2 <= base <= 16
  {
    if n < base then [DigitChar(n)] else InBase(n / base, base) + [DigitChar(n % base)]
  }

  /** The text goes on with no digit of this base. */
  predicate NoDigit(rest: string, base: nat) {
    rest == "" || DigitValue(rest[0]) >= base
  }

  predicate DigitsOf(s: string, base: nat) {
    forall c | c in s :: DigitValue(c) < base
  }

  lemma {:induction false} DigitsAppend(s: string, c: char, base: nat, acc: nat)
    requires DigitsOf(s, base) && DigitValue(c) < base
    ensures Digits(s + [c], base, acc) == Digits(s, base, acc) * base + DigitValue(c)
    decreases |s|
  {
    hide DigitValue;
    if s == "" {
      assert s + [c] == [c] && [c][1..] == "";
    } else {
      assert s[0] in s && (s + [c])[0] == s[0] && (s + [c])[1..] == s[1..] + [c];
      DigitsAppend(s[1..], c, base, acc * base + DigitValue(s[0]));
    }
  }

  lemma {:induction false} DigitsStop(s: string, rest: string, base: nat, acc: nat)
    requires DigitsOf(s, base) && NoDigit(rest, base)
    ensures Digits(s + rest, base, acc) == Digits(s, base, acc)
    decreases |s|
  {
    hide DigitValue;
    if s == "" {
      assert s + rest == rest;
    } else {
      assert s[0] in s && (s + rest)[0] == s[0] && (s + rest)[1..] == s[1..] + rest;
      DigitsStop(s[1..], rest, base, acc * base + DigitValue(s[0]));
    }
  }

  lemma DigitCharValue(d: nat)
    requires d < 16
    ensures DigitValue(DigitChar(d)) == d && DigitChar(d) != '\0' && (DigitChar(d) == '0' <==> d == 0)
  {
  }

  lemma OneDigit(c: char, base: nat)
    requires DigitValue(c) < base
    ensures Digits([c], base, 0) == DigitValue(c)
  {
    assert Digits([c][1..], base, DigitValue(c)) == DigitValue(c);
  }

  lemma {:induction false} InBaseReads(n: nat, base: nat)
    requires 2 <= base <= 16
    ensures var s := InBase(n, base);
            && s != "" && DigitsOf(s, base) && Digits(s, base, 0) == n && '\0' !in s
            && (s[0] == '0' <==> n == 0)
  {
    hide DigitValue, DigitChar, Digits;
    if n < base {
      DigitCharValue(n);
      OneDigit(DigitChar(n), base);
    } else {
      InBaseReads(n / base, base);
      DigitCharValue(n % base);
      DigitsAppend(InBase(n / base, base), DigitChar(n % base), base, 0);
      QuotientPositive(n, base);
    }
  }

  lemma QuotientPositive(n: nat, base: nat)
    requires 0 < base <= n
    ensures n / base > 0 && n / base * base + n % base == n
  {
  }

  /** What is returned for a number with a sign. */
  function Limited(n: nat, minus: bool): nat {
    if n > 0xffff_ffff_ffff_ffff then 0xffff_ffff_ffff_ffff
    else if minus && n > 0 then 0x1_0000_0000_0000_0000 - n
    else n
  }

  function Signed(minus: bool, plus: bool): string {
    if minus then "-" else if plus then "+" else ""
  }

  /** What strtoull sees behind white space and a sign. */
  lemma SignRead(left: string, minus: bool, plus: bool, u: string)
    requires AllWhite(left) && '\0' !in u && u != "" && !White(u[0]) && u[0] !in "+-"
    ensures var s := left + (Signed(minus, plus) + u);
            Strtoull(s)
            == Limited(if |u| > 2 && u[0] == '0' && u[1] in "xX" && DigitValue(u[2]) < 16 then Digits(u[2..], 16, 0)
                       else if u[0] == '0' then Digits(u, 8, 0) else Digits(u, 10, 0), minus)
  {
    hide DropLeading, Until, Digits, DigitValue;
    var t := Signed(minus, plus) + u;
    var s := left + t;
    assert '\0' !in s;
    UntilExact(s, '\0');
    assert !White(t[0]);
    LeadingWritten(left, t);
    assert (minus || plus) ==> t[1..] == u;
    assert !(minus || plus) ==> t == u;
  }

  /** Capital letters are the same digits. */
  lemma CapitalDigit(d: nat)
    requires 10 <= d < 36
    ensures DigitValue((87 + d) as char) == DigitValue((55 + d) as char) == d
  {
  }

  /** A number behind 0x or 0X is hexadecimal. */
  lemma HexRead(left: string, minus: bool, plus: bool, x: char, n: nat, rest: string)
    requires AllWhite(left) && x in "xX" && '\0' !in rest && NoDigit(rest, 16)
    ensures Strtoull(left + (Signed(minus, plus) + (['0', x] + (InBase(n, 16) + rest)))) == Limited(n, minus)
  {
    hide Digits, Strtoull, InBase, DigitValue, Limited, Signed;
    var d := InBase(n, 16);
    var u := ['0', x] + (d + rest);
    InBaseReads(n, 16);
    DigitsStop(d, rest, 16, 0);
    SignRead(left, minus, plus, u);
    assert u[2..] == d + rest && u[2] == d[0] && d[0] in d;
  }

  /** A number behind 0 is octal. */
  lemma OctalRead(left: string, minus: bool, plus: bool, n: nat, rest: string)
    requires AllWhite(left) && '\0' !in rest && NoDigit(rest, 8)
    ensures Strtoull(left + (Signed(minus, plus) + ("0" + (InBase(n, 8) + rest)))) == Limited(n, minus)
  {
    hide Digits, Strtoull, InBase, Limited, Signed;
    var d := InBase(n, 8);
    var u := "0" + (d + rest);
    InBaseReads(n, 8);
    DigitsStop(d, rest, 8, 0);
    SignRead(left, minus, plus, u);
    assert u[1] == d[0] && d[0] in d;
    ZeroFirst(d + rest);
  }

  lemma ZeroFirst(s: string)
    ensures Digits("0" + s, 8, 0) == Digits(s, 8, 0)
  {
    assert ("0" + s)[1..] == s;
  }

  lemma DigitPlain(c: char)
    requires DigitValue(c) < 10
    ensures !White(c) && c !in "+-"
  {
  }

  /** Any other number is decimal; none at all is 0. */
  lemma DecimalRead(left: string, minus: bool, plus: bool, n: nat, rest: string)
    requires AllWhite(left) && '\0' !in rest && NoDigit(rest, 10) && n > 0
    ensures Strtoull(left + (Signed(minus, plus) + (InBase(n, 10) + rest))) == Limited(n, minus)
  {
    hide Digits, Strtoull, InBase, Limited, Signed;
    var d := InBase(n, 10);
    var u := d + rest;
    InBaseReads(n, 10);
    DigitsStop(d, rest, 10, 0);
    assert u[0] == d[0] && d[0] in d;
    DigitPlain(d[0]);
    SignRead(left, minus, plus, u);
  }

  lemma NothingRead(left: string, rest: string)
    requires AllWhite(left) && '\0' !in rest && NoDigit(rest, 10)
    requires rest == "" || (rest[0] !in "+-" && !White(rest[0]))
    ensures Strtoull(left + rest) == 0
  {
    hide DropLeading, Until, DigitValue;
    assert '\0' !in left + rest;
    UntilExact(left + rest, '\0');
    LeadingWritten(left, rest);
    ZeroIsDigit();
  }

  lemma ZeroIsDigit()
    ensures DigitValue('0') == 0
  {
  }

  /** operator<< prints in base 10. */
  lemma {:induction false} PrintedDecimal(n: nat)
    ensures Printed(n) == InBase(n, 10)
  {
    if n >= 10 {
      PrintedDecimal(n / 10);
    }
  }
}
