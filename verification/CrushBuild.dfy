/** crushtool --build: the devices are put into buckets, those into buckets, and
    so on, one layer after the other. */
module CrushBuild {
  import opened Basics
  import opened CrushBuckets
  import opened CrushMap

  const UNIT: nat := 0x10000

  datatype Layer = Layer(alg: Alg, size: nat)

  // ----- what one layer makes -----

  /** How many of n items the next bucket takes; size 0 means all of them. */
  function GroupSize(n: nat, size: nat): nat {
    if size == 0 || size > n then n else size
  }

  /** The buckets of a layer, in the order in which they are made. */
  function Grouped(items: seq<int>, weights: seq<nat>, layer: Layer, kind: nat): seq<Bucket>
    requires |items| == |weights|
  {
    if items == [] then []
    else
      var g := GroupSize(|items|, layer.size);
      [Made(layer.alg, kind, items[..g], weights[..g])]
      + Grouped(items[g..], weights[g..], layer, kind)
  }

  /** The weights that the layer above sees: the sums, whatever the bucket stores. */
  function GroupWeights(weights: seq<nat>, size: nat): seq<nat> {
    if weights == [] then []
    else
      var g := GroupSize(|weights|, size);
      [Sum(weights[..g])] + GroupWeights(weights[g..], size)
  }

  /** The ids of k buckets that are added to p buckets. */
  function Ids(p: nat, k: nat): seq<int>
    decreases k
  {
    if k == 0 then [] else [-1 - p] + Ids(p + 1, k - 1)
  }

  /** The number of buckets: one for size 0, and otherwise the quotient, rounded up. */
  function GroupCount(n: nat, size: nat): nat {
    if n == 0 then 0 else 1 + GroupCount(n - GroupSize(n, size), size)
  }

  lemma OneGroup(n: nat, size: nat)
    requires n > 0
    ensures GroupCount(n, size) == 1 <==> size == 0 || n <= size
  {
    var left := n - GroupSize(n, size);
    assert left > 0 ==> GroupCount(left, size) > 0;
  }

  lemma {:induction false} GroupedSizes(items: seq<int>, weights: seq<nat>, layer: Layer, kind: nat)
    requires |items| == |weights|
    ensures |Grouped(items, weights, layer, kind)| == GroupCount(|items|, layer.size)
    ensures |GroupWeights(weights, layer.size)| == GroupCount(|items|, layer.size)
    decreases |items|
  {
    if items != [] {
      var g := GroupSize(|items|, layer.size);
      GroupedSizes(items[g..], weights[g..], layer, kind);
    }
  }

  function ItemsOf(buckets: seq<Bucket>): seq<int> {
    if buckets == [] then [] else buckets[0].items + ItemsOf(buckets[1..])
  }

  /** A layer places every item of the layer below in exactly one bucket, and the
      items stay in order. */
  lemma {:induction false} LayerPlacesAll(items: seq<int>, weights: seq<nat>, layer: Layer, kind: nat)
    requires |items| == |weights|
    ensures ItemsOf(Grouped(items, weights, layer, kind)) == items
    ensures Sum(GroupWeights(weights, layer.size)) == Sum(weights)
    decreases |items|
  {
    if items != [] {
      var g := GroupSize(|items|, layer.size);
      LayerPlacesAll(items[g..], weights[g..], layer, kind);
      assert items == items[..g] + items[g..] && weights == weights[..g] + weights[g..];
      SumAppend(weights[..g], weights[g..]);
    }
  }

  // ----- what a bucket holds -----

  /** The devices below an item; a bucket holds only items that were there before it. */
  function Leaves(buckets: seq<Bucket>, item: int): seq<int>
    decreases |buckets|, 0
  {
    if item >= 0 then [item]
    else if -1 - item >= |buckets| then []
    else LeavesAll(buckets[..-1 - item], buckets[-1 - item].items)
  }

  function LeavesAll(buckets: seq<Bucket>, items: seq<int>): seq<int>
    decreases |buckets|, |items|
  {
    if items == [] then [] else Leaves(buckets, items[0]) + LeavesAll(buckets, items[1..])
  }

  predicate Refers(items: seq<int>, n: nat) {
    forall i | 0 <= i < |items| :: items[i] + n >= 0
  }

  lemma LeavesStay(buckets: seq<Bucket>, more: seq<Bucket>, item: int)
    requires item >= -|buckets|
    ensures Leaves(buckets + more, item) == Leaves(buckets, item)
  {
    if item < 0 {
      assert (buckets + more)[..-1 - item] == buckets[..-1 - item];
    }
  }

  lemma {:induction false} LeavesAllStay(buckets: seq<Bucket>, more: seq<Bucket>, items: seq<int>)
    requires Refers(items, |buckets|)
    ensures LeavesAll(buckets + more, items) == LeavesAll(buckets, items)
    decreases |items|
  {
    if items != [] {
      LeavesStay(buckets, more, items[0]);
      LeavesAllStay(buckets, more, items[1..]);
    }
  }

  lemma {:induction false} LeavesAllAppend(buckets: seq<Bucket>, a: seq<int>, b: seq<int>)
    ensures LeavesAll(buckets, a + b) == LeavesAll(buckets, a) + LeavesAll(buckets, b)
    decreases |a|
  {
    if a == [] {
      assert a + b == b;
    } else {
      assert (a + b)[0] == a[0] && (a + b)[1..] == a[1..] + b;
      LeavesAllAppend(buckets, a[1..], b);
    }
  }

  lemma LeavesOfNew(buckets: seq<Bucket>, b: Bucket, more: seq<Bucket>)
    ensures Leaves(buckets + [b] + more, -1 - |buckets|) == LeavesAll(buckets, b.items)
  {
    var all := buckets + [b] + more;
    assert all[|buckets|] == b && all[..|buckets|] == buckets;
  }

  lemma GroupedNothing(weights: seq<nat>, layer: Layer, kind: nat)
    requires weights == []
    ensures Grouped([], weights, layer, kind) == [] && GroupWeights(weights, layer.size) == []
  {
  }

  lemma GroupedCons(items: seq<int>, weights: seq<nat>, layer: Layer, kind: nat)
    requires |items| == |weights| > 0
    ensures var g := GroupSize(|items|, layer.size);
            && Made(layer.alg, kind, items[..g], weights[..g]).items == items[..g]
            && Grouped(items, weights, layer, kind)
               == [Made(layer.alg, kind, items[..g], weights[..g])] + Grouped(items[g..], weights[g..], layer, kind)
            && GroupWeights(weights, layer.size) == [Sum(weights[..g])] + GroupWeights(weights[g..], layer.size)
  {
  }

  lemma LeavesAllCons(buckets: seq<Bucket>, item: int, items: seq<int>)
    ensures LeavesAll(buckets, [item] + items) == Leaves(buckets, item) + LeavesAll(buckets, items)
  {
    assert ([item] + items)[1..] == items;
  }

  /** The buckets of a layer together hold what the items of the layer below hold. */
  lemma {:induction false} GroupedLeaves(buckets: seq<Bucket>, items: seq<int>, weights: seq<nat>, layer: Layer,
                                         kind: nat)
    requires |items| == |weights| && Refers(items, |buckets|)
    ensures var made := Grouped(items, weights, layer, kind);
            LeavesAll(buckets + made, Ids(|buckets|, |made|)) == LeavesAll(buckets, items)
    decreases |items|
  {
    hide Leaves, Grouped, Made, LeavesAll;
    var made := Grouped(items, weights, layer, kind);
    if items == [] {
      GroupedNothing(weights, layer, kind);
      assert buckets + made == buckets;
    } else {
      var g := GroupSize(|items|, layer.size);
      var b, rest := Made(layer.alg, kind, items[..g], weights[..g]), Grouped(items[g..], weights[g..], layer, kind);
      var next := buckets + [b];
      GroupedCons(items, weights, layer, kind);
      GroupedLeaves(next, items[g..], weights[g..], layer, kind);
      LeavesAllStay(buckets, [b], items[g..]);
      LeavesOfNew(buckets, b, rest);
      assert next + rest == buckets + made;
      assert items == items[..g] + items[g..];
      LeavesAllAppend(buckets, items[..g], items[g..]);
      LeavesAllCons(buckets + made, -1 - |buckets|, Ids(|next|, |rest|));
    }
  }

  // ----- weights -----

  /** Every weight is that of the devices below the item. */
  predicate Weighed(buckets: seq<Bucket>, items: seq<int>, weights: seq<nat>) {
    |items| == |weights| && forall i | 0 <= i < |items| :: weights[i] == UNIT * |Leaves(buckets, items[i])|
  }

  lemma {:induction false} WeighedSum(buckets: seq<Bucket>, items: seq<int>, weights: seq<nat>)
    requires Weighed(buckets, items, weights)
    ensures Sum(weights) == UNIT * |LeavesAll(buckets, items)|
    decreases |items|
  {
    if items != [] {
      WeighedSum(buckets, items[1..], weights[1..]);
    }
  }

  lemma WeighedSizes(buckets: seq<Bucket>, items: seq<int>, weights: seq<nat>)
    requires Weighed(buckets, items, weights)
    ensures |items| == |weights|
  {
  }

  lemma WeighedNothing(buckets: seq<Bucket>)
    ensures Weighed(buckets, [], [])
  {
  }

  lemma WeighedPart(buckets: seq<Bucket>, items: seq<int>, weights: seq<nat>, g: nat)
    requires Weighed(buckets, items, weights) && g <= |items|
    ensures Weighed(buckets, items[..g], weights[..g]) && Weighed(buckets, items[g..], weights[g..])
  {
  }

  lemma WeighedStay(buckets: seq<Bucket>, more: seq<Bucket>, items: seq<int>, weights: seq<nat>)
    requires Weighed(buckets, items, weights) && Refers(items, |buckets|)
    ensures Weighed(buckets + more, items, weights)
  {
    forall i | 0 <= i < |items| ensures weights[i] == UNIT * |Leaves(buckets + more, items[i])| {
      LeavesStay(buckets, more, items[i]);
    }
  }

  lemma {:induction false} GroupedWeighed(buckets: seq<Bucket>, items: seq<int>, weights: seq<nat>, layer: Layer,
                                          kind: nat)
    requires Weighed(buckets, items, weights) && Refers(items, |buckets|)
    ensures var made := Grouped(items, weights, layer, kind);
            Weighed(buckets + made, Ids(|buckets|, |made|), GroupWeights(weights, layer.size))
    decreases |items|
  {
    hide Weighed, Leaves, Grouped, GroupWeights, Made;
    WeighedSizes(buckets, items, weights);
    var made := Grouped(items, weights, layer, kind);
    if items == [] {
      GroupedNothing(weights, layer, kind);
      assert buckets + made == buckets;
      WeighedNothing(buckets);
    } else {
      var g := GroupSize(|items|, layer.size);
      var b, rest := Made(layer.alg, kind, items[..g], weights[..g]), Grouped(items[g..], weights[g..], layer, kind);
      var next := buckets + [b];
      GroupedCons(items, weights, layer, kind);
      WeighedPart(buckets, items, weights, g);
      WeighedStay(buckets, [b], items[g..], weights[g..]);
      GroupedWeighed(next, items[g..], weights[g..], layer, kind);
      FirstWeighed(buckets, b, rest, items[..g], weights[..g]);
      assert next + rest == buckets + made;
      WeighedCons(buckets + made, -1 - |buckets|, Sum(weights[..g]),
                  Ids(|next|, |rest|), GroupWeights(weights[g..], layer.size));
    }
  }

  lemma FirstWeighed(buckets: seq<Bucket>, b: Bucket, rest: seq<Bucket>, items: seq<int>, weights: seq<nat>)
    requires Weighed(buckets, items, weights) && b.items == items
    ensures Sum(weights) == UNIT * |Leaves(buckets + [b] + rest, -1 - |buckets|)|
  {
    WeighedSum(buckets, items, weights);
    LeavesOfNew(buckets, b, rest);
  }

  lemma WeighedCons(buckets: seq<Bucket>, item: int, weight: nat, items: seq<int>, weights: seq<nat>)
    requires Weighed(buckets, items, weights) && weight == UNIT * |Leaves(buckets, item)|
    ensures Weighed(buckets, [item] + items, [weight] + weights)
  {
  }

  lemma FirstOfGroups(weights: seq<nat>, size: nat)
    requires weights != []
    ensures var above, g := GroupWeights(weights, size), GroupSize(|weights|, size);
            above != [] && above[0] == Sum(weights[..g]) && (g == |weights| ==> |above| == 1)
  {
  }

  lemma EvenPart(weights: seq<nat>, g: nat)
    requires Even(weights) && 0 < g <= |weights|
    ensures Even(weights[..g]) && weights[..g][0] == weights[0]
    ensures g < |weights| ==> weights[..g][g - 1] == weights[0]
  {
  }

  lemma EvenBounds(weights: seq<nat>, full: nat)
    requires Even(weights) && weights != [] && weights[0] <= full
    ensures Sum(weights) <= |weights| * full
    ensures weights[0] == full && weights[|weights| - 1] == full ==> Sum(weights) == |weights| * full
  {
    var n := |weights|;
    EvenSum(weights);
    assert (n - 1) * full + full == n * full;
    Scale(n - 1, n - 1, weights[0], full);
  }

  /** The first group of a layer weighs as much as a full one, or is the only one. */
  lemma FirstGroup(weights: seq<nat>, size: nat, full: nat)
    requires Even(weights) && weights != [] && weights[0] <= full
    requires |weights| > 1 ==> weights[0] == full
    ensures var above := GroupWeights(weights, size);
            && above != []
            && (size > 0 ==> above[0] <= size * full)
            && (0 < size < |weights| ==> above[0] == size * full)
            && (size == 0 || |weights| <= size ==> |above| == 1)
  {
    hide Even, Sum, GroupWeights;
    var g := GroupSize(|weights|, size);
    FirstOfGroups(weights, size);
    EvenPart(weights, g);
    EvenBounds(weights[..g], full);
    if size > 0 {
      Scale(g, size, full, full);
    }
  }

  lemma EvenCons(first: nat, above: seq<nat>)
    requires Even(above) && above != [] && above[0] <= first
    requires |above| > 1 ==> above[0] == first
    ensures Even([first] + above)
  {
  }

  lemma {:induction false} GroupWeightsEven(weights: seq<nat>, size: nat)
    requires Even(weights)
    ensures Even(GroupWeights(weights, size))
    decreases |weights|
  {
    if weights != [] {
      var g := GroupSize(|weights|, size);
      var rest := weights[g..];
      GroupWeightsEven(rest, size);
      if rest != [] {
        FirstGroup(weights, size, weights[0]);
        FirstGroup(rest, size, weights[0]);
        EvenCons(Sum(weights[..g]), GroupWeights(rest, size));
      }
    }
  }

  lemma Scale(a: nat, b: nat, v: nat, w: nat)
    requires a <= b && v <= w
    ensures a * v <= b * w
  {
    assert a * v <= a * w;
    assert a * w <= b * w;
  }

  // ----- the whole build -----

  datatype Level = Level(buckets: seq<Bucket>, items: seq<int>, weights: seq<nat>)

  function Start(n: nat): Level {
    Level([], seq(n, i => i), seq(n, i => UNIT))
  }

  function NextLevel(l: Level, layer: Layer, kind: nat): Level
    requires |l.items| == |l.weights|
  {
    var made := Grouped(l.items, l.weights, layer, kind);
    Level(l.buckets + made, Ids(|l.buckets|, |made|), GroupWeights(l.weights, layer.size))
  }

  /** The layers, one after the other; they are numbered from 1. */
  function Built(n: nat, layers: seq<Layer>): (l: Level)
    ensures |l.items| == |l.weights|
  {
    if layers == [] then Start(n)
    else
      var k := |layers| - 1;
      var below := Built(n, layers[..k]);
      GroupedSizes(below.items, below.weights, layers[k], k + 1);
      IdsAt(|below.buckets|, |Grouped(below.items, below.weights, layers[k], k + 1)|);
      NextLevel(below, layers[k], k + 1)
  }

  lemma {:induction false} IdsAt(p: nat, k: nat)
    ensures |Ids(p, k)| == k && forall i | 0 <= i < k :: Ids(p, k)[i] == -1 - p - i
    decreases k
  {
    if k > 0 {
      IdsAt(p + 1, k - 1);
    }
  }

  predicate Positive(weights: seq<nat>) {
    forall i | 0 <= i < |weights| :: weights[i] > 0
  }

  /** The weights of the devices below these items. */
  function WeightsOf(buckets: seq<Bucket>, items: seq<int>): (r: seq<nat>)
    ensures Weighed(buckets, items, r)
  {
    seq(|items|, i requires 0 <= i < |items| => UNIT * |Leaves(buckets, items[i])|)
  }

  lemma WeighedUnique(buckets: seq<Bucket>, items: seq<int>, weights: seq<nat>)
    requires Weighed(buckets, items, weights)
    ensures weights == WeightsOf(buckets, items)
  {
  }

  /** The weights of the items of bucket p. */
  function ItemWeights(buckets: seq<Bucket>, p: nat): seq<nat>
    requires p < |buckets|
  {
    WeightsOf(buckets[..p], buckets[p].items)
  }

  /** A bucket at position p: its items were there before it, and it is what is
      made of them and of the weights of the devices below them. */
  ghost predicate BucketOk(buckets: seq<Bucket>, p: nat)
    requires p < |buckets|
  {
    var b := buckets[p];
    && Refers(b.items, p) && Even(ItemWeights(buckets, p))
    && b == Made(AlgOf(b), b.kind, b.items, ItemWeights(buckets, p))
  }

  ghost predicate BucketsOk(buckets: seq<Bucket>) {
    forall p | 0 <= p < |buckets| :: BucketOk(buckets, p)
  }

  /** Below the items of a level there are exactly the devices, each once and in
      order, and the weights are theirs. */
  ghost predicate LevelOk(l: Level, n: nat) {
    && Weighed(l.buckets, l.items, l.weights) && Refers(l.items, |l.buckets|)
    && Even(l.weights) && Positive(l.weights)
    && LeavesAll(l.buckets, l.items) == seq(n, i => i)
    && BucketsOk(l.buckets)
  }

  lemma {:induction false} StartLeaves(items: seq<int>)
    requires forall i | 0 <= i < |items| :: items[i] >= 0
    ensures LeavesAll([], items) == items
  {
    if items != [] {
      StartLeaves(items[1..]);
    }
  }

  lemma {:induction false} GroupWeightsPositive(weights: seq<nat>, size: nat)
    requires Positive(weights)
    ensures Positive(GroupWeights(weights, size))
    decreases |weights|
  {
    if weights != [] {
      var g := GroupSize(|weights|, size);
      assert Sum(weights[..g]) >= weights[..g][0];
      GroupWeightsPositive(weights[g..], size);
    }
  }

  lemma BucketsOkSnoc(buckets: seq<Bucket>, b: Bucket, weights: seq<nat>)
    requires BucketsOk(buckets) && Refers(b.items, |buckets|) && Weighed(buckets, b.items, weights)
    requires Even(weights) && b == Made(AlgOf(b), b.kind, b.items, weights)
    ensures BucketsOk(buckets + [b])
  {
    var next := buckets + [b];
    WeighedUnique(buckets, b.items, weights);
    forall p | 0 <= p < |next| ensures BucketOk(next, p) {
      if p < |buckets| {
        assert BucketOk(buckets, p);
        assert next[..p] == buckets[..p];
      } else {
        assert next[..p] == buckets;
      }
    }
  }

  lemma MadeKind(alg: Alg, kind: nat, items: seq<int>, weights: seq<nat>)
    ensures var b := Made(alg, kind, items, weights);
            b.items == items && b == Made(AlgOf(b), b.kind, b.items, weights)
  {
  }

  lemma EvenRest(items: seq<int>, weights: seq<nat>, g: nat, n: nat)
    requires Even(weights) && Refers(items, n) && g <= |items| == |weights|
    ensures Even(weights[..g]) && Even(weights[g..])
    ensures Refers(items[..g], n) && Refers(items[g..], n) && Refers(items[g..], n + 1)
  {
  }

  lemma {:induction false} GroupedOk(buckets: seq<Bucket>, items: seq<int>, weights: seq<nat>, layer: Layer, kind: nat)
    requires BucketsOk(buckets) && Weighed(buckets, items, weights) && Refers(items, |buckets|) && Even(weights)
    ensures BucketsOk(buckets + Grouped(items, weights, layer, kind))
    decreases |items|
  {
    hide BucketsOk, Weighed, Refers, Even, Grouped, GroupWeights, Made;
    WeighedSizes(buckets, items, weights);
    if items == [] {
      GroupedNothing(weights, layer, kind);
      assert buckets + [] == buckets;
    } else {
      var g := GroupSize(|items|, layer.size);
      var b, rest := Made(layer.alg, kind, items[..g], weights[..g]), Grouped(items[g..], weights[g..], layer, kind);
      GroupedCons(items, weights, layer, kind);
      MadeKind(layer.alg, kind, items[..g], weights[..g]);
      WeighedPart(buckets, items, weights, g);
      EvenRest(items, weights, g, |buckets|);
      WeighedStay(buckets, [b], items[g..], weights[g..]);
      BucketsOkSnoc(buckets, b, weights[..g]);
      GroupedOk(buckets + [b], items[g..], weights[g..], layer, kind);
      assert buckets + [b] + rest == buckets + ([b] + rest);
    }
  }

  /** Every layer keeps the picture. */
  lemma NextLevelOk(l: Level, n: nat, layer: Layer, kind: nat)
    requires LevelOk(l, n)
    ensures LevelOk(NextLevel(l, layer, kind), n)
  {
    GroupedWeighed(l.buckets, l.items, l.weights, layer, kind);
    GroupedLeaves(l.buckets, l.items, l.weights, layer, kind);
    GroupedOk(l.buckets, l.items, l.weights, layer, kind);
    GroupWeightsEven(l.weights, layer.size);
    GroupWeightsPositive(l.weights, layer.size);
    IdsAt(|l.buckets|, |Grouped(l.items, l.weights, layer, kind)|);
  }

  lemma StartOk(n: nat)
    ensures LevelOk(Start(n), n)
  {
    StartLeaves(seq(n, i => i));
  }

  lemma {:induction false} BuiltOk(n: nat, layers: seq<Layer>)
    ensures LevelOk(Built(n, layers), n)
  {
    if layers == [] {
      StartOk(n);
    } else {
      var k := |layers| - 1;
      BuiltOk(n, layers[..k]);
      NextLevelOk(Built(n, layers[..k]), n, layers[k], k + 1);
    }
  }

  /** The weights of every layer add up to those of the devices. */
  lemma BuiltWeight(n: nat, layers: seq<Layer>)
    ensures Sum(Built(n, layers).weights) == UNIT * n
  {
    BuiltOk(n, layers);
    var l := Built(n, layers);
    WeighedSum(l.buckets, l.items, l.weights);
  }

  /** Every bucket weighs what the devices below it weigh, or, if it is a uniform
      bucket whose items weigh differently, more. */
  lemma BuiltBucketWeight(n: nat, layers: seq<Layer>, p: nat)
    requires p < |Built(n, layers).buckets|
    ensures var buckets := Built(n, layers).buckets;
            var b, weights, below := buckets[p], ItemWeights(buckets, p), UNIT * |Leaves(buckets, -1 - p)|;
            && Sum(weights) == below <= b.weight
            && (b.weight == below <==> !AlgOf(b).Uniform? || AllEqual(weights))
  {
    BuiltOk(n, layers);
    var buckets := Built(n, layers).buckets;
    assert BucketOk(buckets, p);
    var b := buckets[p];
    WeighedSum(buckets[..p], b.items, ItemWeights(buckets, p));
    BucketWeightExact(AlgOf(b), ItemWeights(buckets, p));
  }

  /** The number of items that the last of these layers leaves. */
  function Count(n: nat, layers: seq<Layer>): nat {
    if layers == [] then n else GroupCount(Count(n, layers[..|layers| - 1]), layers[|layers| - 1].size)
  }

  lemma {:induction false} BuiltCount(n: nat, layers: seq<Layer>)
    ensures |Built(n, layers).items| == Count(n, layers)
    ensures n > 0 ==> Count(n, layers) > 0
  {
    if layers != [] {
      var k := |layers| - 1;
      BuiltCount(n, layers[..k]);
      var below := Built(n, layers[..k]);
      GroupedSizes(below.items, below.weights, layers[k], k + 1);
      IdsAt(|below.buckets|, |Grouped(below.items, below.weights, layers[k], k + 1)|);
    }
  }

  lemma {:induction false} LastLeaves(buckets: seq<Bucket>, items: seq<int>, weights: seq<nat>)
    requires items != [] && Weighed(buckets, items, weights) && Positive(weights)
    ensures |Leaves(buckets, items[|items| - 1])| <= |LeavesAll(buckets, items)|
    ensures var all, last := LeavesAll(buckets, items), Leaves(buckets, items[|items| - 1]);
            last == all[|all| - |last|..]
    ensures |Leaves(buckets, items[|items| - 1])| == |LeavesAll(buckets, items)| <==> |items| == 1
  {
    var n := |items| - 1;
    var front, last := items[..n], items[n];
    assert items == front + [last];
    LeavesAllAppend(buckets, front, [last]);
    assert [last][1..] == [];
    assert LeavesAll(buckets, [last]) == Leaves(buckets, last);
    if n > 0 {
      assert LeavesAll(buckets, front) == Leaves(buckets, front[0]) + LeavesAll(buckets, front[1..]);
      assert weights[0] == UNIT * |Leaves(buckets, items[0])|;
    }
  }

  /** The root, which is the last bucket, holds the last devices.  It holds all of
      them, each exactly once and in order, if and only if the last layer has size
      0 or room for everything that is below it. */
  lemma RootExact(n: nat, layers: seq<Layer>)
    requires n > 0 && layers != []
    ensures var l, below := Built(n, layers), Count(n, layers[..|layers| - 1]);
            && l.items != []
            && var root := Leaves(l.buckets, l.items[|l.items| - 1]);
               && 0 < |root| <= n
               && root == seq(n, i => i)[n - |root|..]
               && (root == seq(n, i => i) <==> layers[|layers| - 1].size == 0 || below <= layers[|layers| - 1].size)
  {
    var k := |layers| - 1;
    BuiltOk(n, layers);
    BuiltCount(n, layers);
    BuiltCount(n, layers[..k]);
    var l := Built(n, layers);
    OneGroup(Count(n, layers[..k]), layers[k].size);
    LastLeaves(l.buckets, l.items, l.weights);
    assert l.weights[|l.items| - 1] > 0;
  }

  // ----- which builds have exact weights -----

  /** What the buckets of a layer store. */
  function GroupStored(layer: Layer, weights: seq<nat>): seq<nat> {
    if weights == [] then []
    else
      var g := GroupSize(|weights|, layer.size);
      [BucketWeight(layer.alg, weights[..g])] + GroupStored(layer, weights[g..])
  }

  /** No bucket of the layer has items that weigh differently. */
  predicate EvenGroups(layer: Layer, n: nat, equal: bool) {
    n <= 1 || equal || layer.size == 1 || (layer.size > 0 && n % layer.size == 1)
  }

  lemma ModBack(n: nat, size: nat)
    requires 0 < size <= n
    ensures (n - size) % size == n % size
  {
    var q, r := n / size, n % size;
    ModIs(n - size, size, q - 1, r);
  }

  lemma ModIs(x: int, m: int, q: int, r: int)
    requires m > 0 && x == q * m + r && 0 <= r < m
    ensures x % m == r
  {
    var d := q - x / m;
    assert m * d == x % m - r;
    Multiple(m, d);
  }

  lemma FirstStored(layer: Layer, weights: seq<nat>)
    requires Even(weights) && weights != [] && layer.alg.Uniform?
    ensures var g := GroupSize(|weights|, layer.size);
            BucketWeight(layer.alg, weights[..g]) == Sum(weights[..g]) <==> g < |weights| || AllEqual(weights)
  {
    var g := GroupSize(|weights|, layer.size);
    var first := weights[..g];
    assert Even(first);
    BucketWeightExact(layer.alg, first);
    if g == |weights| {
      assert first == weights;
    }
  }

  lemma RestEven(weights: seq<nat>, g: nat)
    requires Even(weights) && 0 < g < |weights|
    ensures Even(weights[g..])
    ensures |weights| - g > 1 ==> (AllEqual(weights[g..]) <==> AllEqual(weights))
    ensures |weights| - g == 1 ==> AllEqual(weights[g..])
  {
    var rest := weights[g..];
    if |rest| > 1 {
      assert rest[0] == weights[0] && rest[|rest| - 1] == weights[|weights| - 1];
      if AllEqual(rest) {
        forall i | 0 <= i < |weights| ensures weights[i] == weights[0] {
          if i == |weights| - 1 {
            assert rest[|rest| - 1] == rest[0];
          }
        }
      }
    }
  }

  /** The buckets of a uniform layer store their sums if and only if none has items
      that weigh differently. */
  lemma {:induction false} StoredExact(layer: Layer, weights: seq<nat>)
    requires Even(weights) && layer.alg.Uniform?
    ensures GroupStored(layer, weights) == GroupWeights(weights, layer.size)
       <==> EvenGroups(layer, |weights|, AllEqual(weights))
    decreases |weights|
  {
    if weights != [] {
      var n, g := |weights|, GroupSize(|weights|, layer.size);
      FirstStored(layer, weights);
      StoredCons(layer, weights);
      if g < n {
        RestEven(weights, g);
        StoredExact(layer, weights[g..]);
        ModBack(n, g);
        SmallMod(n - g, g);
      } else {
        SmallMod(n, layer.size);
      }
    }
  }

  lemma SmallMod(n: nat, size: nat)
    ensures 0 < n <= size ==> (n % size == 1 <==> n == 1 && size > 1)
    ensures size > 1 && n == 1 ==> n % size == 1
  {
    if 0 < n == size {
      ModIs(n, size, 1, 0);
    } else if n < size {
      ModIs(n, size, 0, n);
    }
  }

  lemma StoredCons(layer: Layer, weights: seq<nat>)
    requires weights != []
    ensures var g := GroupSize(|weights|, layer.size);
            GroupStored(layer, weights) == GroupWeights(weights, layer.size)
            <==> BucketWeight(layer.alg, weights[..g]) == Sum(weights[..g])
                 && GroupStored(layer, weights[g..]) == GroupWeights(weights[g..], layer.size)
  {
    var g := GroupSize(|weights|, layer.size);
    ConsEqual(BucketWeight(layer.alg, weights[..g]), Sum(weights[..g]),
              GroupStored(layer, weights[g..]), GroupWeights(weights[g..], layer.size));
  }

  lemma ConsEqual(a: nat, b: nat, s: seq<nat>, t: seq<nat>)
    ensures [a] + s == [b] + t <==> a == b && s == t
  {
    if [a] + s == [b] + t {
      assert ([a] + s)[0] == ([b] + t)[0] && ([a] + s)[1..] == ([b] + t)[1..];
      assert ([a] + s)[1..] == s && ([b] + t)[1..] == t;
    }
  }

  lemma {:induction false} StoredAlways(layer: Layer, weights: seq<nat>)
    requires !layer.alg.Uniform?
    ensures GroupStored(layer, weights) == GroupWeights(weights, layer.size)
    decreases |weights|
  {
    if weights != [] {
      StoredAlways(layer, weights[GroupSize(|weights|, layer.size)..]);
    }
  }

  lemma {:induction false} GroupedStored(items: seq<int>, weights: seq<nat>, layer: Layer, kind: nat)
    requires |items| == |weights|
    ensures var made, stored := Grouped(items, weights, layer, kind), GroupStored(layer, weights);
            |made| == |stored| && forall k | 0 <= k < |made| :: made[k].weight == stored[k]
    decreases |items|
  {
    if items != [] {
      var g := GroupSize(|items|, layer.size);
      GroupedStored(items[g..], weights[g..], layer, kind);
    }
  }

  /** The bucket weighs what the devices below it weigh. */
  predicate Fine(buckets: seq<Bucket>, p: nat)
    requires p < |buckets|
  {
    buckets[p].weight == UNIT * |Leaves(buckets, -1 - p)|
  }

  ghost predicate AllFine(buckets: seq<Bucket>) {
    forall p | 0 <= p < |buckets| :: Fine(buckets, p)
  }

  lemma FineBelow(buckets: seq<Bucket>, more: seq<Bucket>, p: nat)
    requires p < |buckets|
    ensures Fine(buckets + more, p) <==> Fine(buckets, p)
  {
    LeavesStay(buckets, more, -1 - p);
  }

  lemma FineNew(l: Level, layer: Layer, kind: nat, k: nat)
    requires Weighed(l.buckets, l.items, l.weights) && Refers(l.items, |l.buckets|)
    requires k < |Grouped(l.items, l.weights, layer, kind)|
    ensures |GroupStored(layer, l.weights)| == |GroupWeights(l.weights, layer.size)|
         == |Grouped(l.items, l.weights, layer, kind)|
    ensures Fine(NextLevel(l, layer, kind).buckets, |l.buckets| + k)
       <==> GroupStored(layer, l.weights)[k] == GroupWeights(l.weights, layer.size)[k]
  {
    var made := Grouped(l.items, l.weights, layer, kind);
    GroupedStored(l.items, l.weights, layer, kind);
    GroupedSizes(l.items, l.weights, layer, kind);
    GroupedWeighed(l.buckets, l.items, l.weights, layer, kind);
    IdsAt(|l.buckets|, |made|);
    assert Ids(|l.buckets|, |made|)[k] == -1 - (|l.buckets| + k);
    assert (l.buckets + made)[|l.buckets| + k] == made[k];
  }

  /** One more layer leaves the weights exact if and only if they were and the new
      buckets store their sums. */
  lemma NextFine(l: Level, layer: Layer, kind: nat)
    requires Weighed(l.buckets, l.items, l.weights) && Refers(l.items, |l.buckets|)
    ensures AllFine(NextLevel(l, layer, kind).buckets)
       <==> AllFine(l.buckets) && GroupStored(layer, l.weights) == GroupWeights(l.weights, layer.size)
  {
    hide Grouped, GroupStored, GroupWeights, Weighed, Fine, AllFine, Refers;
    WeighedSizes(l.buckets, l.items, l.weights);
    var made := Grouped(l.items, l.weights, layer, kind);
    var next := NextLevel(l, layer, kind).buckets;
    GroupedStored(l.items, l.weights, layer, kind);
    GroupedSizes(l.items, l.weights, layer, kind);
    forall p | 0 <= p < |l.buckets| ensures Fine(next, p) <==> Fine(l.buckets, p) {
      FineBelow(l.buckets, made, p);
    }
    forall k | 0 <= k < |made|
      ensures Fine(next, |l.buckets| + k)
         <==> GroupStored(layer, l.weights)[k] == GroupWeights(l.weights, layer.size)[k]
    {
      FineNew(l, layer, kind, k);
    }
    SplitFine(l.buckets, made, next, GroupStored(layer, l.weights), GroupWeights(l.weights, layer.size));
  }

  lemma SplitFine(buckets: seq<Bucket>, made: seq<Bucket>, next: seq<Bucket>, stored: seq<nat>, sums: seq<nat>)
    requires next == buckets + made && |stored| == |sums| == |made|
    requires forall p | 0 <= p < |buckets| :: Fine(next, p) <==> Fine(buckets, p)
    requires forall k | 0 <= k < |made| :: Fine(next, |buckets| + k) <==> stored[k] == sums[k]
    ensures AllFine(next) <==> AllFine(buckets) && stored == sums
  {
    if AllFine(buckets) && stored == sums {
      forall p | 0 <= p < |next| ensures Fine(next, p) {
        if p >= |buckets| {
          var k := p - |buckets|;
          assert Fine(next, |buckets| + k) <==> stored[k] == sums[k];
        }
      }
    }
  }

  /** The sizes multiplied. */
  function Product(layers: seq<Layer>): nat {
    if layers == [] then 1 else Product(layers[..|layers| - 1]) * layers[|layers| - 1].size
  }

  /** Where a level has more than one item, the first of them holds as many devices
      as the sizes below it multiply to. */
  lemma {:induction false} FirstWeight(n: nat, layers: seq<Layer>)
    ensures |Built(n, layers).weights| > 1 ==> Built(n, layers).weights[0] == UNIT * Product(layers)
  {
    if layers != [] {
      var k := |layers| - 1;
      var below, size := Built(n, layers[..k]), layers[k].size;
      FirstWeight(n, layers[..k]);
      BuiltOk(n, layers[..k]);
      if below.weights != [] {
        FirstGroup(below.weights, size, below.weights[0]);
        Reorder(size, UNIT, Product(layers[..k]));
      }
    }
  }

  lemma Reorder(a: nat, b: nat, c: nat)
    ensures a * (b * c) == b * (c * a)
  {
  }

  /** All items of a level weigh the same if and only if they fill their buckets. */
  lemma EqualExact(n: nat, layers: seq<Layer>)
    requires Count(n, layers) > 1
    ensures AllEqual(Built(n, layers).weights) <==> n == Count(n, layers) * Product(layers)
  {
    var weights, c, full := Built(n, layers).weights, Count(n, layers), Product(layers);
    BuiltOk(n, layers);
    BuiltCount(n, layers);
    BuiltWeight(n, layers);
    FirstWeight(n, layers);
    EvenSum(weights);
    LastWeight(weights, n, c, full);
  }

  lemma LastWeight(weights: seq<nat>, n: nat, c: nat, full: nat)
    requires Even(weights) && |weights| == c > 1 && weights[0] == UNIT * full
    requires UNIT * n == (c - 1) * weights[0] + weights[c - 1]
    ensures AllEqual(weights) <==> n == c * full
  {
    var x := c * full;
    assert (c - 1) * (UNIT * full) == UNIT * x - UNIT * full;
    if weights[c - 1] == weights[0] {
      assert AllEqual(weights);
    }
  }

  /** The weights of the layer's buckets are exact, in terms of devices and layers. */
  predicate LayerFine(n: nat, layers: seq<Layer>, k: nat)
    requires k < |layers|
  {
    var c, layer := Count(n, layers[..k]), layers[k];
    !layer.alg.Uniform? || EvenGroups(layer, c, n == c * Product(layers[..k]))
  }

  lemma LayerExact(n: nat, layers: seq<Layer>, k: nat)
    requires k < |layers|
    ensures var below := Built(n, layers[..k]);
            GroupStored(layers[k], below.weights) == GroupWeights(below.weights, layers[k].size)
            <==> LayerFine(n, layers, k)
  {
    var below := Built(n, layers[..k]);
    BuiltOk(n, layers[..k]);
    BuiltCount(n, layers[..k]);
    if layers[k].alg.Uniform? {
      StoredExact(layers[k], below.weights);
      if Count(n, layers[..k]) > 1 {
        EqualExact(n, layers[..k]);
      }
    } else {
      StoredAlways(layers[k], below.weights);
    }
  }

  /** Every bucket of a build stores the weight of the devices below it if and only
      if each uniform layer has one item, or items that all weigh the same, or
      buckets of one item, or one item left over for the last bucket. */
  lemma {:induction false} BuiltWeightsExact(n: nat, layers: seq<Layer>)
    ensures AllFine(Built(n, layers).buckets) <==> forall k | 0 <= k < |layers| :: LayerFine(n, layers, k)
  {
    if layers != [] {
      var k := |layers| - 1;
      var below := Built(n, layers[..k]);
      BuiltOk(n, layers[..k]);
      BuiltWeightsExact(n, layers[..k]);
      NextFine(below, layers[k], k + 1);
      LayerExact(n, layers, k);
      LayersBelow(n, layers);
    }
  }

  lemma LayersBelow(n: nat, layers: seq<Layer>)
    requires layers != []
    ensures var below := layers[..|layers| - 1];
            (forall k | 0 <= k < |layers| :: LayerFine(n, layers, k))
            <==> LayerFine(n, layers, |layers| - 1) && forall k | 0 <= k < |below| :: LayerFine(n, below, k)
  {
    var m := |layers| - 1;
    forall k | 0 <= k < m ensures LayerFine(n, layers[..m], k) <==> LayerFine(n, layers, k) {
      assert layers[..m][..k] == layers[..k];
    }
  }
}
