/** crush_make_bucket of crush/builder.c, for every kind of bucket. */
module CrushBuckets {
  import opened CrushMap
  import CrushTree

  /** sum_weights: for each item, the weight up to and with it. */
  function Sums(weights: seq<nat>): (r: seq<nat>)
    ensures |r| == |weights|
  {
    seq(|weights|, i requires 0 <= i < |weights| => Sum(weights[..i + 1]))
  }

  /** The adding loop of the list bucket: false for the error exit. */
  method AddWeights(weights: seq<nat>) returns (ok: bool, w: nat, sums: seq<nat>)
    requires forall i | 0 <= i < |weights| :: weights[i] <= U32_MAX
    ensures ok <==> Sum(weights) <= U32_MAX
    ensures ok ==> w == Sum(weights) && sums == Sums(weights)
  {
    w, sums := 0, [];
    for i := 0 to |weights|
      invariant w == Sum(weights[..i]) && w <= U32_MAX
      invariant sums == Sums(weights)[..i]
    {
      SumPrefix(weights, i);
      if AdditionIsUnsafe(w, weights[i]) {
        return false, 0, [];
      }
      w := w + weights[i];
      sums := sums + [w];
    }
    assert weights[..|weights|] == weights;
    ok := true;
  }

  lemma WrapAdd(a: nat, b: nat)
    ensures (a % (U32_MAX + 1) + b) % (U32_MAX + 1) == (a + b) % (U32_MAX + 1)
  {
  }

  /** The adding loop of the straw bucket, which wraps around. */
  method AddWrapping(weights: seq<nat>) returns (w: nat)
    ensures w == Sum(weights) % (U32_MAX + 1)
  {
    w := 0;
    for i := 0 to |weights|
      invariant w == Sum(weights[..i]) % (U32_MAX + 1)
    {
      SumPrefix(weights, i);
      WrapAdd(Sum(weights[..i]), weights[i]);
      w := (w + weights[i]) % (U32_MAX + 1);
    }
    assert weights[..|weights|] == weights;
  }

  lemma DivideBack(a: nat, b: nat, m: nat)
    requires b > 0
    ensures a <= m / b <==> a * b <= m
  {
    var q := m / b;
    assert q * b <= m < q * b + b;
    if a <= q {
      assert a * b <= q * b;
    } else {
      assert a * b >= (q + 1) * b;
    }
  }

  function ArraysOf(alg: Alg, weights: seq<nat>): Arrays {
    match alg
    case Uniform => UniformArrays(if weights == [] then 0 else weights[0])
    case List => ListArrays(weights, Sums(weights))
    case Tree => TreeArrays(CrushTree.NodeWeights(weights))
    case Straw => StrawArrays(weights)
  }

  /** The bucket of these items, whose weight fits. */
  function Made(alg: Alg, kind: nat, items: seq<int>, weights: seq<nat>): (b: Bucket)
    ensures AlgOf(b) == alg
  {
    Bucket(kind, items, BucketWeight(alg, weights), ArraysOf(alg, weights))
  }

  /** crush_make_bucket: the weight is checked to fit 32 bits, except for a straw
      bucket, where it wraps.  A uniform bucket divides by its item weight, and the
      depth of an empty tree is never found. */
  method MakeBucket(alg: Alg, kind: nat, items: seq<int>, weights: seq<nat>) returns (b: Slot)
    requires |items| == |weights| && forall i | 0 <= i < |weights| :: weights[i] <= U32_MAX
    requires alg.Uniform? ==> weights != [] && weights[0] > 0
    requires alg.Tree? ==> weights != []
    ensures b == if BucketWeight(alg, weights) <= U32_MAX then Used(Made(alg, kind, items, weights))
                 else if alg.Straw? then
                   Used(Made(alg, kind, items, weights).(weight := BucketWeight(alg, weights) % (U32_MAX + 1)))
                 else Free
  {
    match alg {
      case Uniform =>
        var itemWeight := weights[0];
        DivideBack(|weights|, itemWeight, U32_MAX);
        if MultiplicationIsUnsafe(|weights|, itemWeight) {
          return Free;
        }
        b := Used(Bucket(kind, items, |weights| * itemWeight, UniformArrays(itemWeight)));
      case List =>
        var ok, w, sums := AddWeights(weights);
        if !ok {
          return Free;
        }
        b := Used(Bucket(kind, items, w, ListArrays(weights, sums)));
      case Tree =>
        var ok, nodes, w := CrushTree.MakeTree(weights);
        if !ok {
          return Free;
        }
        b := Used(Bucket(kind, items, w, TreeArrays(nodes)));
      case Straw =>
        var w := AddWrapping(weights);
        b := Used(Bucket(kind, items, w, StrawArrays(weights)));
    }
  }
}
