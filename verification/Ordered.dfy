/** Ordered containers: the in-order traversal of a std::map or std::set.

    A C++ ordered container visits its keys in increasing order of a strict
    total order.  `InOrder(s, less)` is that traversal as a sequence; the lemmas
    say that it lists each key of `s` exactly once, in increasing order, and
    that it is the only such list. */
module Ordered {

  ghost predicate StrictTotalOrder<T(!new)>(less: (T, T) -> bool) {
    && (forall a :: !less(a, a))
    && (forall a, b, c :: less(a, b) && less(b, c) ==> less(a, c))
    && (forall a, b :: less(a, b) || a == b || less(b, a))
  }

  ghost predicate IsFirst<T>(m: T, s: set<T>, less: (T, T) -> bool) {
    m in s && forall x | x in s :: x == m || less(m, x)
  }

  lemma FirstExists<T(!new)>(s: set<T>, less: (T, T) -> bool)
    requires s != {} && StrictTotalOrder(less)
    ensures exists m :: IsFirst(m, s, less)
  {
    var x :| x in s;
    if s == {x} {
      assert IsFirst(x, s, less);
    } else {
      assert s == {x} + (s - {x});
      FirstExists(s - {x}, less);
      var m :| IsFirst(m, s - {x}, less);
      var least := if less(x, m) then x else m;
      forall y | y in s ensures y == least || less(least, y) {
        assert y == x || y in s - {x};
      }
      assert IsFirst(least, s, less);
    }
  }

  /** The least key: begin() of the container. */
  ghost function First<T(!new)>(s: set<T>, less: (T, T) -> bool): (m: T)
    requires s != {} && StrictTotalOrder(less)
    ensures IsFirst(m, s, less)
  {
    FirstExists(s, less);
    var m :| IsFirst(m, s, less); m
  }

  ghost function InOrder<T(!new)>(s: set<T>, less: (T, T) -> bool): (r: seq<T>)
    requires StrictTotalOrder(less)
    ensures |r| == |s| && forall x :: x in r <==> x in s
  {
    if s == {} then [] else
      var m := First(s, less);
      assert s == {m} + (s - {m});
      [m] + InOrder(s - {m}, less)
  }

  ghost predicate Increasing<T>(r: seq<T>, less: (T, T) -> bool) {
    forall i, j | 0 <= i < j < |r| :: less(r[i], r[j])
  }

  lemma {:induction false} InOrderIncreasing<T(!new)>(s: set<T>, less: (T, T) -> bool)
    requires StrictTotalOrder(less)
    ensures Increasing(InOrder(s, less), less)
  {
    if s != {} {
      var m := First(s, less);
      InOrderIncreasing(s - {m}, less);
      var r := InOrder(s - {m}, less);
      forall j | 0 <= j < |r| ensures less(m, r[j]) {
        assert r[j] in r;
      }
    }
  }

  /** Any increasing enumeration of `s` is the traversal. */
  lemma {:induction false} InOrderUnique<T(!new)>(s: set<T>, less: (T, T) -> bool, r: seq<T>)
    requires StrictTotalOrder(less)
    requires Increasing(r, less)
    requires forall x :: x in r <==> x in s
    ensures r == InOrder(s, less)
    decreases |r|
  {
    if r == [] {
      assert s == {} by {
        forall x ensures x !in s { assert x !in r; }
      }
    } else {
      assert r[0] in s;
      var m := First(s, less);
      assert m in r;
      assert r[0] == m;
      forall x ensures x in r[1..] <==> x in s - {m} {
        if x in r[1..] {
          var j :| 0 <= j < |r[1..]| && r[1..][j] == x;
          assert r[j + 1] == x && less(r[0], r[j + 1]);
          assert x in r;
        }
      }
      InOrderUnique(s - {m}, less, r[1..]);
      assert r == [r[0]] + r[1..];
    }
  }

  lemma FirstIs<T(!new)>(m: T, s: set<T>, less: (T, T) -> bool)
    requires StrictTotalOrder(less) && IsFirst(m, s, less)
    ensures m == First(s, less)
  {
    assert IsFirst(First(s, less), s, less);
  }

  lemma InOrderNext<T(!new)>(r: seq<T>, left: set<T>, m: T, less: (T, T) -> bool)
    requires StrictTotalOrder(less) && IsFirst(m, left, less)
    ensures r + InOrder(left, less) == r + [m] + InOrder(left - {m}, less)
  {
    FirstIs(m, left, less);
  }

  method Least<T(!new,==)>(s: set<T>, less: (T, T) -> bool) returns (m: T)
    requires StrictTotalOrder(less) && s != {}
    ensures IsFirst(m, s, less)
  {
    FirstExists(s, less);
    m :| m in s && forall x | x in s :: x == m || less(m, x);
  }

  /** Traversal by a loop: take the least key that is left, until none is. */
  method Traverse<T(!new,==)>(s: set<T>, less: (T, T) -> bool) returns (r: seq<T>)
    requires StrictTotalOrder(less)
    ensures r == InOrder(s, less)
  {
    r := [];
    var left := s;
    while left != {}
      invariant r + InOrder(left, less) == InOrder(s, less)
      decreases left
    {
      var m := Least(left, less);
      InOrderNext(r, left, m, less);
      r := r + [m];
      left := left - {m};
    }
  }

  /** The orders of numbers, up and down. */
  predicate Below(a: nat, b: nat) {
    a < b
  }

  predicate Above(a: nat, b: nat) {
    a > b
  }

  /** operator< of std::string. */
  predicate StringLess(a: string, b: string) {
    b != [] && (a == [] || a[0] < b[0] || (a[0] == b[0] && StringLess(a[1..], b[1..])))
  }

  lemma {:induction false} StringLessTransitive(a: string, b: string, c: string)
    requires StringLess(a, b) && StringLess(b, c)
    ensures StringLess(a, c)
  {
    if a != [] && a[0] == b[0] && b[0] == c[0] {
      StringLessTransitive(a[1..], b[1..], c[1..]);
    }
  }

  lemma {:induction false} StringLessConnected(a: string, b: string)
    ensures !StringLess(a, a)
    ensures StringLess(a, b) || a == b || StringLess(b, a)
  {
    if a != [] && b != [] {
      StringLessConnected(a[1..], b[1..]);
      assert a == [a[0]] + a[1..] && b == [b[0]] + b[1..];
    } else if a != [] {
      StringLessConnected(a[1..], b);
    }
  }

  lemma StringOrder()
    ensures StrictTotalOrder(StringLess)
  {
    forall a, b, c | StringLess(a, b) && StringLess(b, c) ensures StringLess(a, c) {
      StringLessTransitive(a, b, c);
    }
    forall a, b ensures !StringLess(a, a) && (StringLess(a, b) || a == b || StringLess(b, a)) {
      StringLessConnected(a, b);
    }
  }

  /** The traversal of a set<string>, or of the keys of a map<string, ...>. */
  ghost function InStringOrder(s: set<string>): (r: seq<string>)
    ensures |r| == |s| && forall x :: x in r <==> x in s
  {
    StringOrder();
    InOrder(s, StringLess)
  }

  method TraverseStrings(s: set<string>) returns (r: seq<string>)
    ensures r == InStringOrder(s)
  {
    StringOrder();
    r := Traverse(s, StringLess);
  }

  lemma Assoc<T>(a: seq<T>, b: seq<T>, c: seq<T>)
    ensures (a + b) + c == a + (b + c)
  {
  }

  lemma TailOfConcat<T>(a: seq<T>, b: seq<T>)
    requires a != []
    ensures a + b != [] && (a + b)[0] == a[0] && (a + b)[1..] == a[1..] + b
  {
  }
}
