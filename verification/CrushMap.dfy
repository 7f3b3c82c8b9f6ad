/** Buckets and the bucket table of crush/builder.c. */
module CrushMap {
  datatype Alg = Uniform | List | Tree | Straw

  /** What the kinds of buckets store about their items. */
  datatype Arrays =
    | UniformArrays(itemWeight: nat)
    | ListArrays(itemWeights: seq<nat>, sumWeights: seq<nat>)
    | TreeArrays(nodeWeights: seq<nat>)
    | StrawArrays(itemWeights: seq<nat>)

  datatype Bucket = Bucket(kind: nat, items: seq<int>, weight: nat, arrays: Arrays)

  function AlgOf(b: Bucket): Alg {
    match b.arrays
    case UniformArrays(_) => Uniform
    case ListArrays(_, _) => List
    case TreeArrays(_) => Tree
    case StrawArrays(_) => Straw
  }

  datatype Slot = Free | Used(bucket: Bucket)

  const U32_MAX: nat := 0xffff_ffff

  function Sum(weights: seq<nat>): nat {
    if weights == [] then 0 else weights[0] + Sum(weights[1..])
  }

  lemma {:induction false} SumAppend(a: seq<nat>, b: seq<nat>)
    ensures Sum(a + b) == Sum(a) + Sum(b)
  {
    if a == [] {
      assert a + b == b;
    } else {
      assert (a + b)[1..] == a[1..] + b;
      SumAppend(a[1..], b);
    }
  }

  /** The weight that a bucket stores: a uniform bucket multiplies that of its
      first item, every other kind adds. */
  function BucketWeight(alg: Alg, weights: seq<nat>): nat {
    if alg.Uniform? then (if weights == [] then 0 else |weights| * weights[0]) else Sum(weights)
  }

  /** All but the last item weigh the same, and the last not more. */
  ghost predicate Even(weights: seq<nat>) {
    && (forall i | 0 <= i < |weights| - 1 :: weights[i] == weights[0])
    && (weights != [] ==> weights[|weights| - 1] <= weights[0])
  }

  ghost predicate AllEqual(weights: seq<nat>) {
    forall i | 0 <= i < |weights| :: weights[i] == weights[0]
  }

  lemma {:induction false} SumOfEqual(weights: seq<nat>, w: nat)
    requires forall i | 0 <= i < |weights| :: weights[i] == w
    ensures Sum(weights) == |weights| * w
  {
    if weights != [] {
      SumOfEqual(weights[1..], w);
    }
  }

  lemma EvenSum(weights: seq<nat>)
    requires Even(weights) && weights != []
    ensures Sum(weights) == (|weights| - 1) * weights[0] + weights[|weights| - 1]
  {
    var n := |weights| - 1;
    assert weights == weights[..n] + [weights[n]];
    SumOfEqual(weights[..n], weights[0]);
    SumAppend(weights[..n], [weights[n]]);
    assert [weights[n]][1..] == [];
  }

  /** What a bucket stores is the weight of its items, unless it is a uniform
      bucket of items that weigh differently. */
  lemma BucketWeightExact(alg: Alg, weights: seq<nat>)
    requires Even(weights)
    ensures BucketWeight(alg, weights) == Sum(weights) <==> !alg.Uniform? || AllEqual(weights)
    ensures BucketWeight(alg, weights) >= Sum(weights)
    ensures weights != [] ==> BucketWeight(alg, weights) <= Sum(weights) + weights[0]
  {
    if weights != [] {
      EvenSum(weights);
      var n, w := |weights|, weights[0];
      assert (n - 1) * w + w == n * w;
      if AllEqual(weights) {
        assert weights[n - 1] == w;
      } else {
        var i :| 0 <= i < n && weights[i] != w;
        assert i == n - 1;
      }
    }
  }

  function AdditionIsUnsafe(a: nat, b: nat): bool
    requires b <= U32_MAX
  {
    U32_MAX - b < a
  }

  /** As in the source, b must not be 0: it divides by it. */
  function MultiplicationIsUnsafe(a: nat, b: nat): bool
    requires b > 0
  {
    U32_MAX / b < a
  }

  lemma {:induction false} SumPrefix(weights: seq<nat>, i: nat)
    requires i < |weights|
    ensures Sum(weights[..i + 1]) == Sum(weights[..i]) + weights[i]
    ensures Sum(weights[..i + 1]) <= Sum(weights)
  {
    assert weights[..i + 1] == weights[..i] + [weights[i]];
    SumAppend(weights[..i], [weights[i]]);
    assert [weights[i]][1..] == [];
    assert weights == weights[..i + 1] + weights[i + 1..];
    SumAppend(weights[..i + 1], weights[i + 1..]);
  }

  /** The size of a table that has grown: 8, 16, and so on. */
  function Doubled(size: nat): nat {
    if size == 0 then 8 else 2 * size
  }

  class Map {
    var slots: seq<Slot>
    ghost var buckets: seq<Bucket>

    /** The used slots come first. */
    ghost predicate Valid()
      reads this
    {
      && |buckets| <= |slots|
      && (forall p | 0 <= p < |buckets| :: slots[p] == Used(buckets[p]))
      && (forall p | |buckets| <= p < |slots| :: slots[p] == Free)
    }

    constructor ()
      ensures Valid() && buckets == []
    {
      slots, buckets := [], [];
    }

    /** crush_get_next_bucket_id. */
    method NextBucketId() returns (id: int)
      requires Valid()
      ensures id == -1 - |buckets|
    {
      var pos := 0;
      while pos < |slots| && slots[pos].Used?
        invariant 0 <= pos <= |buckets|
      {
        pos := pos + 1;
      }
      id := -1 - pos;
    }

    /** crush_add_bucket with id 0: the table doubles until there is a slot. */
    method AddBucket(b: Bucket) returns (id: int)
      requires Valid()
      modifies this
      ensures Valid()
      ensures id == -1 - |old(buckets)| && buckets == old(buckets) + [b]
      ensures |slots| == if |old(buckets)| < |old(slots)| then |old(slots)| else Doubled(|old(slots)|)
    {
      id := NextBucketId();
      var pos := -1 - id;
      while pos >= |slots|
        invariant Valid() && buckets == old(buckets)
        invariant pos == |old(buckets)| <= |old(slots)|
        invariant slots == old(slots) || (pos == |old(slots)| && |slots| == Doubled(pos))
        decreases pos - |slots|
      {
        var oldSize := |slots|;
        slots := slots + if oldSize > 0 then seq(oldSize, i => Free) else seq(8, i => Free);
      }
      slots := slots[pos := Used(b)];
      buckets := buckets + [b];
    }
  }
}
