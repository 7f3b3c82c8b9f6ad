/** What the arrays of each kind of bucket hold. */
module CrushArrays {
  import opened Bits
  import opened CrushBuckets
  import opened CrushMap
  import opened CrushTree

  /** A list bucket: the first sum is the first weight, each next sum is larger by its
      own weight, and the last is the weight of the bucket. */
  ghost predicate RunningSums(sums: seq<nat>, weights: seq<nat>, total: nat) {
    && |sums| == |weights|
    && (weights == [] ==> total == 0)
    && (weights != [] ==> sums[0] == weights[0] && sums[|sums| - 1] == total)
    && (forall i | 0 < i < |sums| :: sums[i] == sums[i - 1] + weights[i])
  }

  lemma SumsExact(weights: seq<nat>)
    ensures RunningSums(Sums(weights), weights, BucketWeight(List, weights))
  {
    hide Sum;
    NothingWeighs();
    forall i | 0 <= i < |weights| ensures Sum(weights[..i + 1]) == Sum(weights[..i]) + weights[i] {
      SumPrefix(weights, i);
    }
    assert weights[..0] == [] && weights[..|weights|] == weights;
  }

  lemma NothingWeighs()
    ensures Sum([]) == 0
  {
  }

  // ----- tree buckets -----

  /** Leaf i weighs what item i weighs, or nothing. */
  lemma {:induction false} LeafWeighs(weights: seq<nat>, i: nat)
    ensures Under(weights, 2 * i + 1) == if i < |weights| then weights[i] else 0
    decreases |weights|
  {
    if weights != [] {
      var n := |weights| - 1;
      LeafWeighs(weights[..n], i);
      FirstLevel(n, i);
    }
  }

  lemma FirstLevel(n: nat, i: nat)
    ensures Below(n, 2 * i + 1) <==> n == i
  {
  }

  lemma {:induction false} BitLengthBound(t: nat)
    ensures t < Pow2(BitLength(t))
    ensures t > 0 ==> Pow2(BitLength(t)) <= 2 * t
  {
    if t > 0 {
      BitLengthBound(t / 2);
    }
  }

  /** Inside the tree there is room for the right child. */
  lemma NodeRoom(k: nat, h: nat, depth: nat)
    requires 0 < Node(k, h) < Pow2(depth)
    ensures h < depth && Node(k, h) + Pow2(h) <= Pow2(depth)
  {
    LevelOfNode(k, h);
    LevelBound(Node(k, h), depth);
    var p, q := Pow2(h), Pow2(depth - h);
    Pow2Sum(h, depth - h);
    Room(2 * k + 1, p, q);
  }

  lemma Room(a: nat, p: nat, q: nat)
    requires a * p < p * q
    ensures a * p + p <= p * q
  {
    if a >= q {
      var d := a - q;
      assert a * p == q * p + d * p;
    } else {
      var d := q - a - 1;
      assert q * p == a * p + p + d * p;
    }
  }

  /** A node that is no leaf weighs what the two next to it on the level below weigh. */
  lemma InnerWeighs(nodes: seq<nat>, weights: seq<nat>, k: nat, h: nat)
    requires nodes == NodeWeights(weights) && h > 0 && 0 < Node(k, h) < |nodes|
    ensures var v, half := Node(k, h), Pow2(h - 1);
            half < v && v + half < |nodes| && nodes[v] == nodes[v - half] + nodes[v + half]
  {
    hide NodeWeights, Under, LevelOf, Node;
    var v, half := Node(k, h), Pow2(h - 1);
    NodeRoom(k, h, Depth(|weights|));
    ChildrenSplit(weights, k, h);
    ParentNode(2 * k, h - 1);
    ParentNode(2 * k + 1, h - 1);
    assert 2 * k % 2 == 0 && (2 * k + 1) % 2 == 1 && 2 * k / 2 == k && (2 * k + 1) / 2 == k;
  }

  /** A tree bucket: a power of two of nodes, at least two for each item and, from two
      items on, less than four; item i is leaf 2 * i + 1, and every other node weighs
      what its children weigh. */
  ghost predicate WeightTree(nodes: seq<nat>, weights: seq<nat>) {
    && 2 * |weights| <= |nodes| && (|weights| > 1 ==> |nodes| < 4 * |weights|)
    && (exists depth :: |nodes| == Pow2(depth))
    && (forall i: nat | 2 * i + 1 < |nodes| :: nodes[2 * i + 1] == if i < |weights| then weights[i] else 0)
    && (forall k: nat, h: nat | h > 0 && 0 < Node(k, h) < |nodes| ::
          InnerNode(nodes, Node(k, h), Pow2(h - 1)))
  }

  predicate InnerNode(nodes: seq<nat>, v: nat, half: nat) {
    half < v && v + half < |nodes| && nodes[v] == nodes[v - half] + nodes[v + half]
  }

  lemma TreeExact(weights: seq<nat>)
    requires weights != []
    ensures WeightTree(NodeWeights(weights), weights)
  {
    hide NodeWeights, Under, Node;
    var nodes := NodeWeights(weights);
    BitLengthBound(|weights| - 1);
    assert |nodes| == Pow2(Depth(|weights|));
    forall i: nat | 2 * i + 1 < |nodes| ensures nodes[2 * i + 1] == if i < |weights| then weights[i] else 0 {
      LeafWeighs(weights, i);
    }
    forall k: nat, h: nat | h > 0 && 0 < Node(k, h) < |nodes| ensures InnerNode(nodes, Node(k, h), Pow2(h - 1)) {
      InnerWeighs(nodes, weights, k, h);
    }
  }

  // ----- every kind -----

  /** The bucket has this type and these items, and stores for them what buckets of its
      kind store. */
  ghost predicate Stores(b: Bucket, kind: nat, items: seq<int>, alg: Alg, weights: seq<nat>) {
    && b.kind == kind && b.items == items
    && match b.arrays
       case UniformArrays(w) => alg == Uniform && weights != [] && w == weights[0] && b.weight == |weights| * w
       case ListArrays(ws, sums) => alg == List && ws == weights && RunningSums(sums, weights, b.weight)
       case TreeArrays(nodes) => alg == Tree && WeightTree(nodes, weights) && b.weight == nodes[|nodes| / 2]
       case StrawArrays(ws) => alg == Straw && ws == weights && b.weight == Sum(weights)
  }

  lemma MadeExact(alg: Alg, kind: nat, items: seq<int>, weights: seq<nat>)
    requires weights != []
    ensures Stores(Made(alg, kind, items, weights), kind, items, alg, weights)
  {
    hide WeightTree, RunningSums, NodeWeights, Sums, Node, Under, Sum;
    match alg {
      case Tree =>
        TreeExact(weights);
        RootWeighs(weights);
      case List => SumsExact(weights);
      case _ =>
    }
  }

  lemma RootWeighs(weights: seq<nat>)
    requires weights != []
    ensures var nodes := NodeWeights(weights); nodes != [] && nodes[|nodes| / 2] == Sum(weights)
  {
    hide NodeWeights, Under, Sum;
    var nodes, n := NodeWeights(weights), BitLength(|weights| - 1);
    BitLengthBound(|weights| - 1);
    RootWeighsAll(weights, n);
    assert |nodes| == 2 * Pow2(n);
  }
}
