/** A counting argument: a map from a finite set that reaches every element of the
    set, and never goes up, goes nowhere else and never goes down. */
module Covering {
  ghost predicate Reached<T(!new)>(m: map<T, T>, x: T) {
    exists y :: y in m && m[y] == x
  }

  ghost predicate Covers<T(!new)>(m: map<T, T>, k: set<T>) {
    forall x {:trigger Reached(m, x)} | x in k :: Reached(m, x)
  }

  ghost predicate NoneGrows<T>(m: map<T, T>, mu: T -> nat) {
    forall y | y in m :: mu(m[y]) <= mu(y)
  }

  ghost predicate IsTop<T>(x: T, k: set<T>, mu: T -> nat) {
    x in k && forall y | y in k :: mu(y) <= mu(x)
  }

  lemma {:induction false} TopExists<T>(k: set<T>, mu: T -> nat)
    requires k != {}
    ensures exists x :: IsTop(x, k, mu)
    decreases k
  {
    var x :| x in k;
    if k == {x} {
      assert IsTop(x, k, mu);
    } else {
      assert k == {x} + (k - {x});
      TopExists(k - {x}, mu);
      var t :| IsTop(t, k - {x}, mu);
      var top := if mu(x) < mu(t) then t else x;
      forall y | y in k ensures mu(y) <= mu(top) {
        assert y == x || y in k - {x};
      }
      assert IsTop(top, k, mu);
    }
  }

  /** The map without x, which y reaches: y takes over what x reaches. */
  function Bypassed<T>(m: map<T, T>, x: T, y: T): map<T, T>
    requires y in m
  {
    if y == x then m - {x}
    else if x in m then (m - {x})[y := m[x]]
    else m - {y}
  }

  lemma BypassCovers<T(!new)>(m: map<T, T>, k: set<T>, x: T, y: T)
    requires Covers(m, k) && y in m && m[y] == x
    ensures Covers(Bypassed(m, x, y), k - {x})
  {
    var b := Bypassed(m, x, y);
    forall z | z in k - {x} ensures Reached(b, z) {
      assert Reached(m, z);
      var w :| w in m && m[w] == z;
      if w == x {
        assert y in b && b[y] == z;
      } else {
        assert w in b && b[w] == z;
      }
    }
  }

  lemma BypassGrows<T>(m: map<T, T>, x: T, y: T, mu: T -> nat)
    requires NoneGrows(m, mu) && y in m && m[y] == x && mu(x) == mu(y)
    ensures NoneGrows(Bypassed(m, x, y), mu)
  {
  }

  lemma BypassKeys<T>(m: map<T, T>, k: set<T>, x: T, y: T)
    requires m.Keys <= k && y in m && x in k
    ensures Bypassed(m, x, y).Keys <= k - {x}
    ensures Bypassed(m, x, y).Keys == k - {x} ==> x in m && m.Keys == k
  {
    var b := Bypassed(m, x, y);
    if x !in m {
      assert y in k - {x} && y !in b.Keys;
    } else {
      assert m.Keys == b.Keys + {x};
    }
  }

  /** Everything stays inside, and on its height. */
  ghost predicate Level<T>(m: map<T, T>, k: set<T>, mu: T -> nat) {
    m.Keys == k && forall y | y in m :: m[y] in k && mu(m[y]) == mu(y)
  }

  lemma BypassLevel<T>(m: map<T, T>, k: set<T>, x: T, y: T, mu: T -> nat, z: T)
    requires x in m && y in m && m[y] == x && mu(x) == mu(y) && m.Keys == k
    requires Level(Bypassed(m, x, y), k - {x}, mu) && z in m
    ensures m[z] in k && mu(m[z]) == mu(z)
  {
    var b := Bypassed(m, x, y);
    if z == y {
    } else if z == x {
      assert y in b && b[y] == m[x];
    } else {
      assert z in b && b[z] == m[z];
    }
  }

  lemma {:induction false} Covered<T(!new)>(m: map<T, T>, k: set<T>, mu: T -> nat)
    requires m.Keys <= k && Covers(m, k) && NoneGrows(m, mu)
    ensures Level(m, k, mu)
    decreases k
  {
    if k != {} {
      TopExists(k, mu);
      var x :| IsTop(x, k, mu);
      assert Reached(m, x);
      var y :| y in m && m[y] == x;
      CoveredStep(m, k, x, y, mu);
      Covered(Bypassed(m, x, y), k - {x}, mu);
      BypassKeys(m, k, x, y);
      forall z | z in m ensures m[z] in k && mu(m[z]) == mu(z) {
        BypassLevel(m, k, x, y, mu, z);
      }
    }
  }

  lemma CoveredStep<T(!new)>(m: map<T, T>, k: set<T>, x: T, y: T, mu: T -> nat)
    requires m.Keys <= k && Covers(m, k) && NoneGrows(m, mu) && IsTop(x, k, mu) && y in m && m[y] == x
    ensures mu(x) == mu(y)
    ensures var b := Bypassed(m, x, y); b.Keys <= k - {x} && Covers(b, k - {x}) && NoneGrows(b, mu)
  {
    BypassCovers(m, k, x, y);
    BypassGrows(m, x, y, mu);
    BypassKeys(m, k, x, y);
  }
}
