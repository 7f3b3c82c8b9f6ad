/** Printing an unsigned number with operator<< and reading it with strtoull. */
module Decimal {
  import opened Basics
  import opened ConfText

  const U64_MAX := 0xffff_ffff_ffff_ffff
  type u64 = n: int | 0 <= n <= 0xffff_ffff_ffff_ffff

  function Digit(d: int): char
    requires 0 <= d < 10
  {
    ('0' as int + d) as char
  }

  function Printed(n: nat): string {
    if n < 10 then [Digit(n)] else Printed(n / 10) + [Digit(n % 10)]
  }

  /** The value of a character as a digit; 36 when it is none. */
  function DigitValue(c: char): (v: nat) {
    if '0' <= c <= '9' then c as int - '0' as int
    else if 'a' <= c <= 'z' then c as int - 'a' as int + 10
    else if 'A' <= c <= 'Z' then c as int - 'A' as int + 10
    else 36
  }

  /** The number that the longest run of digits in front of s continues. */
  function Digits(s: string, base: nat, acc: nat): nat {
    if s == "" || DigitValue(s[0]) >= base then acc
    else Digits(s[1..], base, acc * base + DigitValue(s[0]))
  }

  /** strtoull(s, NULL, 0): optional white space and sign, then hexadecimal
      after 0x, octal after 0, decimal otherwise; saturating. */
  function Strtoull(s: string): u64 {
    var t := DropLeading(Until(s, '\0'));
    var negative := t != "" && t[0] == '-';
    var u := if t != "" && (t[0] == '-' || t[0] == '+') then t[1..] else t;
    var n :=
      if |u| > 2 && u[0] == '0' && (u[1] == 'x' || u[1] == 'X') && DigitValue(u[2]) < 16 then Digits(u[2..], 16, 0)
      else if u != "" && u[0] == '0' then Digits(u, 8, 0)
      else Digits(u, 10, 0);
    if n > U64_MAX then U64_MAX
    else if negative && n > 0 then U64_MAX + 1 - n
    else n
  }

  predicate AllDigits(s: string) {
    forall c | c in s :: '0' <= c <= '9'
  }

  lemma {:induction false} DigitsSnoc(s: string, c: char, acc: nat)
    requires AllDigits(s + [c])
    ensures Digits(s + [c], 10, acc) == Digits(s, 10, acc) * 10 + DigitValue(c)
  {
    assert c in s + [c];
    if s == "" {
      assert s + [c] == [c];
    } else {
      assert s[0] in s + [c];
      assert (s + [c])[1..] == s[1..] + [c];
      forall x | x in s[1..] + [c] ensures '0' <= x <= '9' { assert x in s + [c]; }
      DigitsSnoc(s[1..], c, acc * 10 + DigitValue(s[0]));
    }
  }

  lemma {:induction false} PrintedSound(n: nat)
    ensures Printed(n) != "" && AllDigits(Printed(n))
    ensures Digits(Printed(n), 10, 0) == n
    ensures Printed(n)[0] == '0' <==> n == 0
  {
    if n >= 10 {
      PrintedSound(n / 10);
      DigitsSnoc(Printed(n / 10), Digit(n % 10), 0);
    }
  }

  /** strtoull with base detection reads back what operator<< printed: no printed
      number is taken for octal or hexadecimal. */
  lemma StrtoullPrinted(n: u64)
    ensures Strtoull(Printed(n)) == n
  {
    PrintedSound(n);
    var s := Printed(n);
    assert s[0] in s;
    assert '\0' !in s;
    UntilExact(s, '\0');
    assert DropLeading(Until(s, '\0')) == s;
    if n == 0 {
      assert s == "0" && s[1..] == "";
      assert Digits(s, 8, 0) == 0;
    }
  }
}
