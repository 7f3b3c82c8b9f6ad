/** The xlist of a session as a sequence, least recently touched first. */
module Lru {
  import opened Basics

  function Without<T(==)>(l: seq<T>, x: T): seq<T> {
    if l == [] then [] else (if l[0] == x then [] else [l[0]]) + Without(l[1..], x)
  }

  /** push_back of an item: it is taken off the list first. */
  function MovedBack<T(==)>(l: seq<T>, x: T): seq<T> {
    Without(l, x) + [x]
  }

  function Touched<T(==)>(l: seq<T>, t: seq<T>): seq<T> {
    if t == [] then l else MovedBack(Touched(l, t[..|t| - 1]), t[|t| - 1])
  }

  lemma TouchedSnoc<T>(l: seq<T>, t: seq<T>, x: T)
    ensures Touched(l, t + [x]) == MovedBack(Touched(l, t), x)
  {
    assert (t + [x])[..|t|] == t;
  }

  /** The items that are not touched, in their order. */
  function Untouched<T(==)>(l: seq<T>, t: seq<T>): seq<T> {
    if l == [] then [] else (if l[0] in t then [] else [l[0]]) + Untouched(l[1..], t)
  }

  lemma {:induction false} WithoutAppend<T>(a: seq<T>, b: seq<T>, x: T)
    ensures Without(a + b, x) == Without(a, x) + Without(b, x)
  {
    if a == [] {
      assert a + b == b;
    } else {
      assert (a + b)[0] == a[0] && (a + b)[1..] == a[1..] + b;
      WithoutAppend(a[1..], b, x);
    }
  }

  lemma {:induction false} WithoutNothing<T>(l: seq<T>, x: T)
    requires x !in l
    ensures Without(l, x) == l
  {
    if l != [] {
      WithoutNothing(l[1..], x);
      assert l == [l[0]] + l[1..];
    }
  }

  lemma {:induction false} UntouchedSnoc<T>(l: seq<T>, t: seq<T>, x: T)
    ensures Untouched(l, t + [x]) == Without(Untouched(l, t), x)
  {
    if l != [] {
      UntouchedSnoc(l[1..], t, x);
      WithoutAppend(if l[0] in t then [] else [l[0]], Untouched(l[1..], t), x);
      assert [l[0]][1..] == [];
    }
  }

  lemma {:induction false} UntouchedNothing<T>(l: seq<T>)
    ensures Untouched(l, []) == l
  {
    if l != [] {
      UntouchedNothing(l[1..]);
      assert l == [l[0]] + l[1..];
    }
  }

  /** Touching different items moves them to the back, in the order in which they
      are touched, and keeps the order of the others. */
  lemma {:induction false} TouchedExact<T>(l: seq<T>, t: seq<T>)
    requires Distinct(t)
    ensures Touched(l, t) == Untouched(l, t) + t
  {
    if t == [] {
      UntouchedNothing(l);
    } else {
      var front, x := t[..|t| - 1], t[|t| - 1];
      assert t == front + [x];
      TouchedExact(l, front);
      UntouchedSnoc(l, front, x);
      WithoutAppend(Untouched(l, front), front, x);
      WithoutNothing(front, x);
    }
  }

  lemma {:induction false} WithoutCount<T>(l: seq<T>, x: T)
    ensures multiset(Without(l, x)) == multiset(l)[x := 0]
  {
    if l != [] {
      WithoutCount(l[1..], x);
      assert l == [l[0]] + l[1..];
    }
  }

  /** Touching an item of a list permutes the list. */
  lemma {:induction false} TouchedPermutes<T>(l: seq<T>, t: seq<T>)
    requires Distinct(l) && forall x | x in t :: x in l
    ensures multiset(Touched(l, t)) == multiset(l)
  {
    if t != [] {
      var front, x := t[..|t| - 1], t[|t| - 1];
      TouchedPermutes(l, front);
      WithoutCount(Touched(l, front), x);
      assert x in t;
      DistinctCount(l, x);
    }
  }

  lemma {:induction false} DistinctCount<T>(l: seq<T>, x: T)
    requires Distinct(l) && x in l
    ensures multiset(l)[x] == 1
  {
    assert l == [l[0]] + l[1..];
    if x in l[1..] {
      DistinctCount(l[1..], x);
    } else {
      assert x !in multiset(l[1..]);
    }
  }

  lemma {:induction false} UntouchedIn<T>(l: seq<T>, t: seq<T>)
    ensures forall x :: x in Untouched(l, t) <==> x in l && x !in t
    ensures Distinct(l) ==> Distinct(Untouched(l, t))
  {
    if l != [] {
      UntouchedIn(l[1..], t);
      assert forall x :: x in l <==> x == l[0] || x in l[1..];
      if Distinct(l) {
        assert Distinct(l[1..]) && l[0] !in l[1..];
      }
    }
  }

  lemma TouchedDistinct<T>(l: seq<T>, t: seq<T>)
    requires Distinct(l) && Distinct(t)
    ensures Distinct(Untouched(l, t) + t)
  {
    UntouchedIn(l, t);
    var u := Untouched(l, t);
    forall i, j | 0 <= i < j < |u + t| ensures (u + t)[i] != (u + t)[j] {
      if i < |u| <= j {
        assert u[i] in u && t[j - |u|] in t;
      }
    }
  }
}
