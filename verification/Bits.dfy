/** Bit masks as natural numbers. */
module Bits {
  function Pow2(n: nat): (p: nat)
    ensures p > 0
  {
    if n == 0 then 1 else 2 * Pow2(n - 1)
  }

  predicate HasBit(x: nat, n: nat) {
    if n == 0 then x % 2 == 1 else HasBit(x / 2, n - 1)
  }

  function Or(a: nat, b: nat): nat
    decreases a + b
  {
    if a + b == 0 then 0 else (if a % 2 + b % 2 > 0 then 1 else 0) + 2 * Or(a / 2, b / 2)
  }

  function And(a: nat, b: nat): nat
    decreases a + b
  {
    if a + b == 0 then 0 else (a % 2) * (b % 2) + 2 * And(a / 2, b / 2)
  }

  lemma {:induction false} ZeroBit(n: nat)
    ensures !HasBit(0, n)
  {
    if n > 0 {
      ZeroBit(n - 1);
    }
  }

  lemma {:induction false} OrBit(a: nat, b: nat, n: nat)
    ensures HasBit(Or(a, b), n) <==> HasBit(a, n) || HasBit(b, n)
    decreases n
  {
    if a + b == 0 {
      ZeroBit(n);
    } else if n > 0 {
      assert Or(a, b) / 2 == Or(a / 2, b / 2);
      OrBit(a / 2, b / 2, n - 1);
    }
  }

  lemma {:induction false} AndBit(a: nat, b: nat, n: nat)
    ensures HasBit(And(a, b), n) <==> HasBit(a, n) && HasBit(b, n)
    decreases n
  {
    if a + b == 0 {
      ZeroBit(n);
    } else {
      Digits(a, b);
      if n > 0 {
        AndBit(a / 2, b / 2, n - 1);
      }
    }
  }

  lemma Digits(a: nat, b: nat)
    requires a + b > 0
    ensures And(a, b) / 2 == And(a / 2, b / 2)
    ensures And(a, b) % 2 == 1 <==> a % 2 == 1 && b % 2 == 1
  {
    var d := (a % 2) * (b % 2);
    if a % 2 == 0 {
      assert d == 0;
    } else {
      assert d == b % 2;
    }
  }

  ghost predicate SameBits(a: nat, b: nat) {
    forall n: nat :: HasBit(a, n) <==> HasBit(b, n)
  }

  /** A mask is determined by its bits. */
  lemma {:induction false} Extensional(a: nat, b: nat)
    requires SameBits(a, b)
    ensures a == b
    decreases a + b
  {
    if a + b > 0 {
      assert HasBit(a, 0) <==> HasBit(b, 0);
      forall n: nat ensures HasBit(a / 2, n) <==> HasBit(b / 2, n) {
        assert HasBit(a, n + 1) <==> HasBit(b, n + 1);
      }
      Extensional(a / 2, b / 2);
    }
  }

  lemma {:induction false} Pow2Bit(n: nat, k: nat)
    ensures HasBit(Pow2(n), k) <==> k == n
  {
    if n == 0 {
      if k > 0 {
        ZeroBit(k - 1);
      }
    } else if k > 0 {
      Pow2Bit(n - 1, k - 1);
    }
  }

  lemma Pow2Injective(n: nat, k: nat)
    ensures Pow2(n) == Pow2(k) <==> n == k
  {
    Pow2Bit(n, n);
    Pow2Bit(k, n);
  }

  /** (c & m) == m of the source. */
  predicate Covers(c: nat, m: nat) {
    And(c, m) == m
  }

  ghost predicate BitsWithin(m: nat, c: nat) {
    forall n: nat :: HasBit(m, n) ==> HasBit(c, n)
  }

  lemma CoversBits(c: nat, m: nat)
    ensures Covers(c, m) <==> BitsWithin(m, c)
  {
    forall n: nat ensures HasBit(And(c, m), n) <==> HasBit(c, n) && HasBit(m, n) {
      AndBit(c, m, n);
    }
    if BitsWithin(m, c) {
      assert SameBits(And(c, m), m);
      Extensional(And(c, m), m);
    }
  }

  lemma DoubleProduct(x: nat, y: nat)
    ensures 2 * (x * y) == 2 * x * y
  {
  }

  lemma {:induction false} Pow2Sum(a: nat, b: nat)
    ensures Pow2(a + b) == Pow2(a) * Pow2(b)
  {
    if a > 0 {
      Pow2Sum(a - 1, b);
      DoubleProduct(Pow2(a - 1), Pow2(b));
    }
  }
}
