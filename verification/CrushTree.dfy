/** The node weights of a tree bucket, crush_make_tree_bucket of crush/builder.c: a
    binary tree in an array, in which leaf i is node 2 * i + 1. */
module CrushTree {
  import opened Basics
  import opened Bits
  import opened CrushMap

  /** The k-th node of a level; the leaves are level 0. */
  function Node(k: nat, h: nat): nat {
    (2 * k + 1) * Pow2(h)
  }

  function Shift(i: nat, h: nat): nat {
    if h == 0 then i else Shift(i, h - 1) / 2
  }

  function LevelOf(n: nat): nat
    requires n > 0
  {
    if n % 2 == 1 then 0 else 1 + LevelOf(n / 2)
  }

  lemma NodePositive(k: nat, h: nat)
    ensures Node(k, h) > 0
  {
    Multiple(Pow2(h), 2 * k + 1);
  }

  lemma {:induction false} LevelOfNode(k: nat, h: nat)
    ensures Node(k, h) > 0 && LevelOf(Node(k, h)) == h
  {
    NodePositive(k, h);
    if h > 0 {
      LevelOfNode(k, h - 1);
      NodeDouble(k, h);
    }
  }

  lemma NodeDouble(k: nat, h: nat)
    requires h > 0
    ensures Node(k, h) == 2 * Node(k, h - 1)
  {
    var p := Pow2(h - 1);
    assert (2 * k + 1) * (2 * p) == 2 * ((2 * k + 1) * p);
  }

  lemma SameNode(k: nat, l: nat, h: nat)
    ensures Node(k, h) == Node(l, h) <==> k == l
  {
    var p := Pow2(h);
    if k < l {
      assert (2 * k + 1) * p + 2 * p <= (2 * l + 1) * p by { Spaced(k, l, p); }
    } else if l < k {
      assert (2 * l + 1) * p + 2 * p <= (2 * k + 1) * p by { Spaced(l, k, p); }
    }
  }

  lemma Spaced(k: nat, l: nat, p: nat)
    requires k < l
    ensures (2 * k + 1) * p + 2 * p <= (2 * l + 1) * p
  {
    var d := l - k - 1;
    assert (2 * l + 1) * p == (2 * k + 1) * p + 2 * p + 2 * (d * p);
  }

  // ----- height, on_right and parent -----

  method Height(n: nat) returns (h: nat)
    requires n > 0
    ensures h == LevelOf(n)
  {
    h := 0;
    var rest := n;
    while rest % 2 == 0
      invariant rest > 0 && h + LevelOf(rest) == LevelOf(n)
      decreases rest
    {
      h := h + 1;
      rest := rest / 2;
    }
  }

  /** The bit above the lowest one. */
  function OnRight(n: nat, h: nat): bool {
    (n / Pow2(h + 1)) % 2 == 1
  }

  /** The parent of the k-th node of a level is the node k / 2 of the next. */
  method Parent(n: nat, ghost k: nat, ghost level: nat) returns (p: nat)
    requires n == Node(k, level)
    ensures p == Node(k / 2, level + 1)
  {
    LevelOfNode(k, level);
    var h := Height(n);
    ParentNode(k, h);
    RightNode(k, h);
    if OnRight(n, h) {
      p := n - Pow2(h);
    } else {
      p := n + Pow2(h);
    }
  }

  /** A node is an even number of its powers away from the start, and one more. */
  lemma NodeSplit(k: nat, p: nat)
    ensures (2 * k + 1) * p == k * (2 * p) + p
  {
    var x := k * p;
    assert (2 * k + 1) * p == 2 * x + p;
    assert k * (2 * p) == 2 * x;
  }

  lemma OddNode(q: nat, p: nat)
    ensures (2 * (2 * q + 1) + 1) * p == (2 * q + 1) * (2 * p) + p
  {
    NodeSplit(2 * q + 1, p);
  }

  lemma EvenNode(q: nat, p: nat)
    ensures (2 * (2 * q) + 1) * p + p == (2 * q + 1) * (2 * p)
  {
    var x := q * p;
    assert (2 * (2 * q) + 1) * p == 4 * x + p;
    assert (2 * q + 1) * (2 * p) == 4 * x + 2 * p;
  }

  lemma RightNode(k: nat, h: nat)
    ensures OnRight(Node(k, h), h) <==> k % 2 == 1
  {
    var p := Pow2(h);
    NodeSplit(k, p);
    QuotientOf(2 * p, k, p);
  }

  lemma ParentNode(k: nat, h: nat)
    ensures k % 2 == 1 ==> Node(k, h) == Node(k / 2, h + 1) + Pow2(h)
    ensures k % 2 == 0 ==> Node(k, h) + Pow2(h) == Node(k / 2, h + 1)
  {
    var p, q := Pow2(h), k / 2;
    if k % 2 == 1 {
      assert k == 2 * q + 1;
      OddNode(q, p);
    } else {
      assert k == 2 * q;
      EvenNode(q, p);
    }
  }

  // ----- what the nodes weigh -----

  /** The leaf i is below the node v, or is it. */
  predicate Below(i: nat, v: nat)
    requires v > 0
  {
    v == Node(Shift(i, LevelOf(v)), LevelOf(v))
  }

  /** The weight of the leaves below a node. */
  function Under(weights: seq<nat>, v: nat): nat
    requires v > 0
  {
    if weights == [] then 0
    else
      var n := |weights| - 1;
      Under(weights[..n], v) + if Below(n, v) then weights[n] else 0
  }

  lemma {:induction false} ShiftBound(i: nat, h: nat, n: nat)
    requires i < Pow2(n) && h <= n
    ensures Shift(i, h) < Pow2(n - h)
    decreases h
  {
    if h > 0 {
      ShiftBound(i, h - 1, n);
    }
  }

  lemma {:induction false} NodeBound(k: nat, h: nat, n: nat)
    requires h <= n && k < Pow2(n - h)
    ensures 0 < Node(k, h) < Pow2(n + 1)
    decreases h
  {
    LevelOfNode(k, h);
    if h > 0 {
      NodeBound(k, h - 1, n - 1);
      NodeDouble(k, h);
    }
  }

  lemma {:induction false} UnderBounded(weights: seq<nat>, v: nat)
    requires v > 0
    ensures Under(weights, v) <= Sum(weights)
  {
    if weights != [] {
      var n := |weights| - 1;
      UnderBounded(weights[..n], v);
      assert weights == weights[..n] + [weights[n]];
      SumAppend(weights[..n], [weights[n]]);
    }
  }

  /** Every leaf is below the root. */
  lemma {:induction false} RootWeighsAll(weights: seq<nat>, n: nat)
    requires |weights| <= Pow2(n)
    ensures Node(0, n) == Pow2(n) && Under(weights, Node(0, n)) == Sum(weights)
    decreases |weights|
  {
    LevelOfNode(0, n);
    if weights != [] {
      var i := |weights| - 1;
      RootWeighsAll(weights[..i], n);
      ShiftBound(i, n, n);
      assert weights == weights[..i] + [weights[i]];
      SumAppend(weights[..i], [weights[i]]);
      assert [weights[i]][1..] == [];
    }
  }

  /** The children of a node split what is below it. */
  lemma {:induction false} ChildrenSplit(weights: seq<nat>, k: nat, h: nat)
    requires h > 0
    ensures Node(k, h) > 0 && Node(2 * k, h - 1) > 0 && Node(2 * k + 1, h - 1) > 0
    ensures Under(weights, Node(k, h)) == Under(weights, Node(2 * k, h - 1)) + Under(weights, Node(2 * k + 1, h - 1))
    decreases |weights|
  {
    LevelOfNode(k, h);
    LevelOfNode(2 * k, h - 1);
    LevelOfNode(2 * k + 1, h - 1);
    if weights != [] {
      var i := |weights| - 1;
      ChildrenSplit(weights[..i], k, h);
      SameNode(Shift(i, h), k, h);
      SameNode(Shift(i, h - 1), 2 * k, h - 1);
      SameNode(Shift(i, h - 1), 2 * k + 1, h - 1);
    }
  }

  // ----- the bucket -----

  /** calc_depth: one more than the bits of size - 1. */
  method CalcDepth(size: nat) returns (depth: nat)
    requires size > 0
    ensures depth > 0 && depth == Depth(size) && size <= Pow2(depth - 1)
  {
    depth := 1;
    var t := size - 1;
    while t > 0
      invariant depth > 0 && t == Shift(size - 1, depth - 1)
      invariant depth + BitLength(t) == Depth(size)
      decreases t
    {
      t := t / 2;
      depth := depth + 1;
    }
    ShiftZero(size - 1, depth - 1);
  }

  lemma {:induction false} ShiftFirst(i: nat, h: nat)
    requires h > 0
    ensures Shift(i, h) == Shift(i / 2, h - 1)
  {
    if h > 1 {
      ShiftFirst(i, h - 1);
    }
  }

  lemma {:induction false} ShiftZero(i: nat, h: nat)
    ensures Shift(i, h) == 0 <==> i < Pow2(h)
    decreases h
  {
    if h > 0 {
      ShiftFirst(i, h);
      ShiftZero(i / 2, h - 1);
    }
  }

  /** The weights so far, with those of the leaf i only up to a level. */
  ghost predicate Partly(nodes: seq<nat>, weights: seq<nat>, i: nat, level: nat)
    requires i < |weights|
  {
    && (nodes != [] ==> nodes[0] == 0)
    && forall v | 0 < v < |nodes| ::
         nodes[v] == Under(weights[..i], v) + if LevelOf(v) < level && Below(i, v) then weights[i] else 0
  }

  ghost predicate Exactly(nodes: seq<nat>, weights: seq<nat>) {
    (nodes != [] ==> nodes[0] == 0) && forall v | 0 < v < |nodes| :: nodes[v] == Under(weights, v)
  }

  /** The number of bits. */
  function BitLength(t: nat): nat {
    if t == 0 then 0 else 1 + BitLength(t / 2)
  }

  function Depth(size: nat): nat {
    if size == 0 then 1 else 1 + BitLength(size - 1)
  }

  /** The nodes of a tree bucket; node 0 is not used. */
  function NodeWeights(weights: seq<nat>): (r: seq<nat>)
    ensures |r| == Pow2(Depth(|weights|))
    ensures Exactly(r, weights)
  {
    seq(Pow2(Depth(|weights|)), v requires 0 <= v => if v == 0 then 0 else Under(weights, v))
  }

  lemma NodeWeightsUnique(nodes: seq<nat>, weights: seq<nat>)
    requires |nodes| == Pow2(Depth(|weights|)) && Exactly(nodes, weights)
    ensures nodes == NodeWeights(weights)
  {
  }

  lemma PartlyNext(nodes: seq<nat>, weights: seq<nat>, i: nat, level: nat, node: nat)
    requires i < |weights| && Partly(nodes, weights, i, level)
    requires node == Node(Shift(i, level), level) && 0 < node < |nodes|
    ensures Partly(nodes[node := nodes[node] + weights[i]], weights, i, level + 1)
  {
    LevelOfNode(Shift(i, level), level);
    var next := nodes[node := nodes[node] + weights[i]];
    forall v | 0 < v < |next|
      ensures next[v] == Under(weights[..i], v) + if LevelOf(v) < level + 1 && Below(i, v) then weights[i] else 0
    {
      assert LevelOf(v) == level && Below(i, v) <==> v == node;
    }
  }

  lemma PartlyStarts(nodes: seq<nat>, weights: seq<nat>, i: nat)
    requires i < |weights| && Exactly(nodes, weights[..i])
    ensures Partly(nodes, weights, i, 0)
  {
  }

  lemma PartlyEnds(nodes: seq<nat>, weights: seq<nat>, i: nat, depth: nat)
    requires i < |weights| && Partly(nodes, weights, i, depth) && |nodes| == Pow2(depth)
    ensures Exactly(nodes, weights[..i + 1])
  {
    assert weights[..i + 1][..i] == weights[..i];
    forall v | 0 < v < |nodes| ensures LevelOf(v) < depth {
      LevelBound(v, depth);
    }
  }

  lemma {:induction false} LevelBound(v: nat, depth: nat)
    requires 0 < v < Pow2(depth)
    ensures LevelOf(v) < depth
    decreases v
  {
    if v % 2 == 0 {
      LevelBound(v / 2, depth - 1);
    }
  }

  lemma {:induction false} NoneUnder(v: nat)
    requires v > 0
    ensures Under([], v) == 0
  {
  }

  lemma {:induction false} FreshLeaf(weights: seq<nat>, i: nat)
    requires |weights| <= i
    ensures LevelOf(2 * i + 1) == 0 && Under(weights, 2 * i + 1) == 0
  {
    if weights != [] {
      FreshLeaf(weights[..|weights| - 1], i);
    }
  }

  /** Adding a weight to one node; false for the error exit. */
  method AddTo(nodes: array<nat>, weights: seq<nat>, i: nat, level: nat, node: nat) returns (ok: bool)
    requires i < |weights| && Partly(nodes[..], weights, i, level)
    requires node == Node(Shift(i, level), level) && 0 < node < nodes.Length && weights[i] <= U32_MAX
    modifies nodes
    ensures ok ==> Partly(nodes[..], weights, i, level + 1)
    ensures Sum(weights[..i + 1]) <= U32_MAX ==> ok
  {
    NodeFits(nodes[..], weights, i, level, node);
    if AdditionIsUnsafe(nodes[node], weights[i]) {
      return false;
    }
    PartlyNext(nodes[..], weights, i, level, node);
    nodes[node] := nodes[node] + weights[i];
    ok := true;
  }

  lemma NodeInside(i: nat, j: nat, depth: nat)
    requires j < depth && i < Pow2(depth - 1)
    ensures 0 < Node(Shift(i, j), j) < Pow2(depth)
  {
    ShiftBound(i, j, depth - 1);
    NodeBound(Shift(i, j), j, depth - 1);
  }

  /** One leaf: its weight is set, and added to every node on its way to the root. */
  method AddLeaf(nodes: array<nat>, weights: seq<nat>, i: nat, depth: nat) returns (ok: bool)
    requires depth > 0 && i < |weights| <= Pow2(depth - 1) && nodes.Length == Pow2(depth)
    requires Exactly(nodes[..], weights[..i]) && forall k | 0 <= k < |weights| :: weights[k] <= U32_MAX
    modifies nodes
    ensures ok ==> Exactly(nodes[..], weights[..i + 1])
    ensures Sum(weights[..i + 1]) <= U32_MAX ==> ok
  {
    PartlyStarts(nodes[..], weights, i);
    FreshLeaf(weights[..i], i);
    NodeInside(i, 0, depth);
    var node := 2 * i + 1;
    PartlyNext(nodes[..], weights, i, 0, node);
    nodes[node] := weights[i];
    for j := 1 to depth
      invariant node == Node(Shift(i, j - 1), j - 1)
      invariant Partly(nodes[..], weights, i, j)
    {
      node := Parent(node, Shift(i, j - 1), j - 1);
      NodeInside(i, j, depth);
      ok := AddTo(nodes, weights, i, j, node);
      if !ok {
        return;
      }
    }
    PartlyEnds(nodes[..], weights, i, depth);
    ok := true;
  }

  lemma NodeFits(nodes: seq<nat>, weights: seq<nat>, i: nat, level: nat, node: nat)
    requires i < |weights| && Partly(nodes, weights, i, level)
    requires node == Node(Shift(i, level), level) && 0 < node < |nodes|
    ensures nodes[node] + weights[i] <= Sum(weights[..i + 1])
  {
    LevelOfNode(Shift(i, level), level);
    UnderBounded(weights[..i], node);
    SumPrefix(weights, i);
  }

  lemma NoneExactly(nodes: seq<nat>)
    requires forall v | 0 <= v < |nodes| :: nodes[v] == 0
    ensures Exactly(nodes, [])
  {
    forall v | 0 < v < |nodes| ensures nodes[v] == Under([], v) {
      NoneUnder(v);
    }
  }

  /** The root is the middle node. */
  lemma RootExactly(nodes: seq<nat>, weights: seq<nat>, depth: nat)
    requires depth > 0 && |nodes| == Pow2(depth) && |weights| <= Pow2(depth - 1) && Exactly(nodes, weights)
    ensures 0 < |nodes| / 2 < |nodes| && nodes[|nodes| / 2] == Sum(weights)
  {
    RootWeighsAll(weights, depth - 1);
    assert |nodes| == 2 * Pow2(depth - 1);
  }

  /** crush_make_tree_bucket: every node weighs what the leaves below it weigh, so
      that the root weighs as much as the bucket, which the source insists on.  It
      fails exactly if the sum does not fit. */
  method MakeTree(weights: seq<nat>) returns (ok: bool, nodes: seq<nat>, weight: nat)
    requires weights != [] && forall k | 0 <= k < |weights| :: weights[k] <= U32_MAX
    ensures ok <==> Sum(weights) <= U32_MAX
    ensures ok ==> weight == Sum(weights) && nodes == NodeWeights(weights)
    ensures ok ==> 0 < |nodes| / 2 < |nodes| && nodes[|nodes| / 2] == weight
  {
    hide Exactly, NodeWeights, Depth;
    var depth := CalcDepth(|weights|);
    var a := new nat[Pow2(depth)](_ => 0);
    weight, nodes := 0, [];
    NoneExactly(a[..]);
    assert weights[..0] == [] && weights[..|weights|] == weights;
    for i := 0 to |weights|
      invariant weight == Sum(weights[..i]) && weight <= U32_MAX
      invariant Exactly(a[..], weights[..i])
    {
      SumPrefix(weights, i);
      if AdditionIsUnsafe(weight, weights[i]) {
        return false, [], 0;
      }
      ok := AddLeaf(a, weights, i, depth);
      if !ok {
        return;
      }
      weight := weight + weights[i];
    }
    RootExactly(a[..], weights, depth);
    NodeWeightsUnique(a[..], weights);
    ok, nodes := true, a[..];
  }
}
