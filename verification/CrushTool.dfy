/** The --build loop of crushtool.cc over the bucket table. */
module CrushTool {
  import opened CrushBuckets
  import opened CrushMap
  import opened CrushBuild

  /** The inner loop: fill one bucket's arrays, which have room for every device. */
  method Fill(numOsds: nat, size: nat, lowerItems: seq<int>, lowerWeights: seq<nat>, pos: nat)
    returns (items: seq<int>, weights: seq<nat>, weight: nat, lowerPos: nat)
    requires |lowerItems| == |lowerWeights| <= numOsds && pos < |lowerItems|
    ensures lowerPos == pos + GroupSize(|lowerItems| - pos, size)
    ensures items == lowerItems[pos..lowerPos] && weights == lowerWeights[pos..lowerPos]
    ensures weight == Sum(weights)
  {
    var a := new int[numOsds];
    var w := new nat[numOsds];
    weight := 0;
    lowerPos := pos;
    var j := 0;
    while j < size || size == 0
      invariant 0 <= j && lowerPos == pos + j <= |lowerItems|
      invariant size > 0 ==> j <= size
      invariant a[..j] == lowerItems[pos..lowerPos] && w[..j] == lowerWeights[pos..lowerPos]
      invariant weight == Sum(lowerWeights[pos..lowerPos])
      decreases |lowerItems| - lowerPos
    {
      if lowerPos == |lowerItems| {
        break;
      }
      a[j] := lowerItems[lowerPos];
      w[j] := lowerWeights[lowerPos];
      weight := weight + w[j];
      SumSnoc(lowerWeights[pos..lowerPos], lowerWeights[lowerPos]);
      assert lowerWeights[pos..lowerPos] + [lowerWeights[lowerPos]] == lowerWeights[pos..lowerPos + 1];
      lowerPos := lowerPos + 1;
      j := j + 1;
    }
    items, weights := a[..j], w[..j];
  }

  lemma SumSnoc(weights: seq<nat>, w: nat)
    ensures Sum(weights + [w]) == Sum(weights) + w
  {
    SumAppend(weights, [w]);
    assert [w][1..] == [];
  }

  /** What the loop needs of the weights of a layer: see CrushBuild.BuiltOk. */
  ghost predicate Fits(weights: seq<nat>) {
    Even(weights) && Positive(weights) && Sum(weights) < 0x8000_0000
  }

  lemma {:induction false} Bounded(weights: seq<nat>, i: nat)
    requires i < |weights|
    ensures weights[i] <= Sum(weights)
  {
    if i > 0 {
      Bounded(weights[1..], i - 1);
    }
  }

  lemma GroupFits(weights: seq<nat>, pos: nat, end: nat, alg: Alg)
    requires Fits(weights) && pos < end <= |weights|
    ensures forall i | pos <= i < end :: weights[i] <= U32_MAX
    ensures weights[pos] > 0
    ensures BucketWeight(alg, weights[pos..end]) <= U32_MAX
  {
    var g := weights[pos..end];
    assert weights == weights[..pos] + (g + weights[end..]);
    SumAppend(weights[..pos], g + weights[end..]);
    SumAppend(g, weights[end..]);
    assert Even(g);
    BucketWeightExact(alg, g);
    forall i | 0 <= i < |weights| ensures weights[i] <= Sum(weights) {
      Bounded(weights, i);
    }
  }

  /** One bucket: fill it, make it and add it.  It is always made. */
  method AddGroup(crush: Map, numOsds: nat, layer: Layer, kind: nat, lowerItems: seq<int>, lowerWeights: seq<nat>,
                  pos: nat)
    returns (id: int, weight: nat, lowerPos: nat, ghost b: Bucket)
    requires crush.Valid() && |lowerItems| == |lowerWeights| <= numOsds && pos < |lowerItems| && Fits(lowerWeights)
    modifies crush
    ensures crush.Valid() && id == -1 - |old(crush.buckets)|
    ensures lowerPos == pos + GroupSize(|lowerItems| - pos, layer.size)
    ensures weight == Sum(lowerWeights[pos..lowerPos])
    ensures b == Made(layer.alg, kind, lowerItems[pos..lowerPos], lowerWeights[pos..lowerPos])
    ensures crush.buckets == old(crush.buckets) + [b]
  {
    var items, weights;
    items, weights, weight, lowerPos := Fill(numOsds, layer.size, lowerItems, lowerWeights, pos);
    GroupFits(lowerWeights, pos, lowerPos, layer.alg);
    var made := MakeBucket(layer.alg, kind, items, weights);
    b := made.bucket;
    id := crush.AddBucket(made.bucket);
  }

  lemma GroupedNext(items: seq<int>, weights: seq<nat>, layer: Layer, kind: nat, pos: nat, next: nat)
    requires |items| == |weights| && pos < |items| && next == pos + GroupSize(|items| - pos, layer.size)
    ensures Grouped(items[pos..], weights[pos..], layer, kind)
         == [Made(layer.alg, kind, items[pos..next], weights[pos..next])]
            + Grouped(items[next..], weights[next..], layer, kind)
  {
    var g := next - pos;
    Slices(items, pos, g);
    Slices(weights, pos, g);
  }

  lemma WeightsNext(weights: seq<nat>, size: nat, pos: nat, next: nat)
    requires pos < |weights| && next == pos + GroupSize(|weights| - pos, size)
    ensures GroupWeights(weights[pos..], size) == [Sum(weights[pos..next])] + GroupWeights(weights[next..], size)
  {
    Slices(weights, pos, next - pos);
  }

  lemma Slices<T>(s: seq<T>, pos: nat, g: nat)
    requires pos + g <= |s|
    ensures s[pos..][..g] == s[pos..pos + g] && s[pos..][g..] == s[pos + g..]
  {
  }

  /** A level with further buckets, whose items weigh `sums`. */
  function Extended(done: Level, made: seq<Bucket>, sums: seq<nat>): Level {
    Level(done.buckets + made, done.items + Ids(|done.buckets|, |made|), done.weights + sums)
  }

  function WithBucket(done: Level, b: Bucket, weight: nat): Level {
    Level(done.buckets + [b], done.items + [-1 - |done.buckets|], done.weights + [weight])
  }

  lemma ExtendCons(done: Level, b: Bucket, made: seq<Bucket>, weight: nat, sums: seq<nat>)
    ensures Extended(done, [b] + made, [weight] + sums) == Extended(WithBucket(done, b, weight), made, sums)
  {
    var p, k := |done.buckets|, |made|;
    assert Ids(p, |[b] + made|) == [-1 - p] + Ids(p + 1, k);
    assert done.buckets + ([b] + made) == done.buckets + [b] + made;
    assert done.items + ([-1 - p] + Ids(p + 1, k)) == done.items + [-1 - p] + Ids(p + 1, k);
    assert done.weights + ([weight] + sums) == done.weights + [weight] + sums;
  }

  /** What a layer still makes of the items from pos on. */
  function Rest(done: Level, items: seq<int>, weights: seq<nat>, pos: nat, layer: Layer, kind: nat): Level
    requires |items| == |weights| && pos <= |items|
  {
    Extended(done, Grouped(items[pos..], weights[pos..], layer, kind), GroupWeights(weights[pos..], layer.size))
  }

  lemma RestNext(done: Level, items: seq<int>, weights: seq<nat>, pos: nat, layer: Layer, kind: nat, b: Bucket,
                 end: nat)
    requires |items| == |weights| && pos < |items| && end == pos + GroupSize(|items| - pos, layer.size)
    requires b == Made(layer.alg, kind, items[pos..end], weights[pos..end])
    ensures Rest(done, items, weights, pos, layer, kind)
         == Rest(WithBucket(done, b, Sum(weights[pos..end])), items, weights, end, layer, kind)
  {
    GroupedNext(items, weights, layer, kind, pos, end);
    WeightsNext(weights, layer.size, pos, end);
    ExtendCons(done, b, Grouped(items[end..], weights[end..], layer, kind), Sum(weights[pos..end]),
               GroupWeights(weights[end..], layer.size));
  }

  lemma RestEnds(buckets: seq<Bucket>, items: seq<int>, weights: seq<nat>, layer: Layer, kind: nat)
    requires |items| == |weights|
    ensures Rest(Level(buckets, [], []), items, weights, 0, layer, kind)
         == NextLevel(Level(buckets, items, weights), layer, kind)
    ensures forall done: Level :: Rest(done, items, weights, |items|, layer, kind) == done
  {
    assert items[0..] == items && weights[0..] == weights;
  }

  /** One layer of the build. */
  method BuildLayer(crush: Map, numOsds: nat, layer: Layer, kind: nat, lowerItems: seq<int>, lowerWeights: seq<nat>,
                    root: int)
    returns (curItems: seq<int>, curWeights: seq<nat>, rootId: int)
    requires crush.Valid() && |lowerItems| == |lowerWeights| <= numOsds && Fits(lowerWeights)
    modifies crush
    ensures crush.Valid()
    ensures Level(crush.buckets, curItems, curWeights)
         == NextLevel(Level(old(crush.buckets), lowerItems, lowerWeights), layer, kind)
    ensures rootId == if curItems == [] then root else curItems[|curItems| - 1]
  {
    hide NextLevel, Rest, Made, Fits, Sum;
    ghost var total := NextLevel(Level(crush.buckets, lowerItems, lowerWeights), layer, kind);
    curItems, curWeights, rootId := [], [], root;
    var lowerPos := 0;
    RestEnds(crush.buckets, lowerItems, lowerWeights, layer, kind);
    while lowerPos != |lowerItems|
      invariant crush.Valid() && 0 <= lowerPos <= |lowerItems|
      invariant Rest(Level(crush.buckets, curItems, curWeights), lowerItems, lowerWeights, lowerPos, layer, kind)
             == total
      invariant rootId == if curItems == [] then root else curItems[|curItems| - 1]
      decreases |lowerItems| - lowerPos
    {
      ghost var done := Level(crush.buckets, curItems, curWeights);
      var id, weight, end, b := AddGroup(crush, numOsds, layer, kind, lowerItems, lowerWeights, lowerPos);
      RestNext(done, lowerItems, lowerWeights, lowerPos, layer, kind, b, end);
      curItems, curWeights, rootId := curItems + [id], curWeights + [weight], id;
      assert Level(crush.buckets, curItems, curWeights) == WithBucket(done, b, weight);
      lowerPos := end;
    }
  }

  lemma LevelFits(n: nat, layers: seq<Layer>)
    requires n * UNIT < 0x8000_0000
    ensures Fits(Built(n, layers).weights) && |Built(n, layers).items| <= n
  {
    BuiltOk(n, layers);
    BuiltWeight(n, layers);
    var l := Built(n, layers);
    ManyWeights(l.buckets, l.items, l.weights);
  }

  lemma {:induction false} ManyWeights(buckets: seq<Bucket>, items: seq<int>, weights: seq<nat>)
    requires Weighed(buckets, items, weights) && Positive(weights)
    ensures Sum(weights) >= UNIT * |items|
  {
    if items != [] {
      ManyWeights(buckets, items[1..], weights[1..]);
      assert weights[0] == UNIT * |Leaves(buckets, items[0])|;
    }
  }

  /** The build.  Weights are ints in the source, so their sum has to be one. */
  method Build(numOsds: nat, layers: seq<Layer>) returns (crush: Map, rootId: int)
    requires numOsds * UNIT < 0x8000_0000 && layers != []
    ensures fresh(crush) && crush.Valid() && crush.buckets == Built(numOsds, layers).buckets
    ensures numOsds > 0 ==>
              var items := Built(numOsds, layers).items; items != [] && rootId == items[|items| - 1]
  {
    hide NextLevel, Fits, Count;
    crush := new Map();
    var lowerItems, lowerWeights: seq<nat> := [], [];
    for i := 0 to numOsds
      invariant lowerItems == seq(i, k => k) && lowerWeights == seq(i, k => UNIT)
    {
      lowerItems := lowerItems + [i];
      lowerWeights := lowerWeights + [UNIT];
    }
    rootId := 0;
    assert layers[..0] == [];
    for i := 0 to |layers|
      invariant fresh(crush) && crush.Valid()
      invariant Level(crush.buckets, lowerItems, lowerWeights) == Built(numOsds, layers[..i])
      invariant i > 0 && lowerItems != [] ==> rootId == lowerItems[|lowerItems| - 1]
    {
      LevelFits(numOsds, layers[..i]);
      assert layers[..i + 1][..i] == layers[..i];
      lowerItems, lowerWeights, rootId :=
        BuildLayer(crush, numOsds, layers[i], i + 1, lowerItems, lowerWeights, rootId);
    }
    assert layers[..|layers|] == layers;
    BuiltCount(numOsds, layers);
  }
}
