/** What several parts share. */
module Basics {
  datatype Option<T> = None | Some(value: T)

  const U32: nat := 0x1_0000_0000
  const U64: nat := 0x1_0000_0000_0000_0000

  function Min(a: int, b: int): int {
    if a < b then a else b
  }

  predicate Distinct<T(==)>(r: seq<T>) {
    forall i, j | 0 <= i < j < |r| :: r[i] != r[j]
  }

  /** What a C string function sees of a text: everything before the first null. */
  function Until<T(==)>(s: seq<T>, terminator: T): seq<T> {
    if s == [] || s[0] == terminator then [] else [s[0]] + Until(s[1..], terminator)
  }

  lemma {:induction false} UntilExact<T>(s: seq<T>, terminator: T)
    ensures terminator !in Until(s, terminator) && Until(s, terminator) <= s
    ensures Until(s, terminator) == s <==> terminator !in s
  {
    if s != [] {
      UntilExact(s[1..], terminator);
      assert s == [s[0]] + s[1..];
      if s[0] != terminator {
        assert Until(s, terminator)[1..] == Until(s[1..], terminator);
      } else {
        assert terminator in s;
      }
    }
  }

  // ----- division -----

  lemma {:induction false} Multiple(b: int, d: int)
    requires b > 0
    ensures d > 0 ==> b * d >= b
    ensures d < 0 ==> b * d + b <= 0
    decreases if d > 0 then d else -d
  {
    if d > 1 {
      Multiple(b, d - 1);
      assert b * d == b * (d - 1) + b;
    } else if d < -1 {
      Multiple(b, d + 1);
      assert b * d == b * (d + 1) - b;
    }
  }

  /** Quotient and remainder. */
  lemma Euclid(x: nat, m: nat) returns (q: nat, r: nat)
    requires m > 0
    ensures q == x / m && x == m * q + r && r < m
  {
    q, r := x / m, x % m;
  }

  lemma QuotientOf(p: nat, q: nat, r: nat)
    requires r < p
    ensures (p * q + r) / p == q && (p * q + r) % p == r
  {
    var x := p * q + r;
    var d := x / p - q;
    assert p * d == r - x % p;
    Multiple(p, d);
  }
}
