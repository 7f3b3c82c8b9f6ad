/** Where the build puts everything: the buckets of each layer, by position. */
module CrushLayout {
  import opened Basics
  import opened CrushArrays
  import opened CrushBuckets
  import opened CrushBuild

  /** The number of buckets for n items: one if they all go into one, and otherwise the
      quotient, rounded up. */
  function Groups(n: nat, size: nat): nat {
    if n == 0 then 0 else if size == 0 then 1 else (n + size - 1) / size
  }

  /** Where group k begins, among n items. */
  function GroupStart(n: nat, size: nat, k: nat): nat {
    if size == 0 then 0 else k * size
  }

  function GroupEnd(n: nat, size: nat, k: nat): nat {
    if size == 0 || (k + 1) * size > n then n else (k + 1) * size
  }

  lemma {:induction false} Multiplied(k: nat, q: nat, size: nat)
    requires k < q
    ensures k * size + size <= q * size
    decreases q
  {
    if k + 1 < q {
      Multiplied(k, q - 1, size);
    }
  }

  lemma GroupBounds(n: nat, size: nat, k: nat)
    requires k < Groups(n, size)
    ensures GroupStart(n, size, k) < GroupEnd(n, size, k) <= n
  {
    if size > 0 {
      var q, r := Euclid(n + size - 1, size);
      Multiplied(k, q, size);
      Multiplied(k, k + 1, size);
    }
  }

  lemma QuotientNext(x: nat, size: nat)
    requires size > 0
    ensures (x + size) / size == x / size + 1
  {
    var q, r := x / size, x % size;
    assert x + size == (q + 1) * size + r;
    QuotientOf(size, q + 1, r);
  }

  lemma LastGroup(n: nat, size: nat)
    requires n > 0 && (size == 0 || n <= size)
    ensures Groups(n, size) == 1 && GroupStart(n, size, 0) == 0 && GroupEnd(n, size, 0) == n
  {
    if size > 0 {
      QuotientNext(n - 1, size);
    }
  }

  /** The first group of more, and the others behind it. */
  lemma GroupsNext(n: nat, size: nat)
    requires 0 < size < n
    ensures Groups(n, size) == 1 + Groups(n - size, size)
    ensures GroupStart(n, size, 0) == 0 && GroupEnd(n, size, 0) == size
    ensures forall k: nat | k > 0 ::
              GroupStart(n, size, k) == size + GroupStart(n - size, size, k - 1)
              && GroupEnd(n, size, k) == size + GroupEnd(n - size, size, k - 1)
  {
    QuotientNext(n - 1, size);
    forall k: nat | k > 0
      ensures GroupStart(n, size, k) == size + GroupStart(n - size, size, k - 1)
      ensures GroupEnd(n, size, k) == size + GroupEnd(n - size, size, k - 1)
    {
      assert k * size == (k - 1) * size + size && (k + 1) * size == k * size + size;
    }
  }

  /** Bucket k of a layer has the number of its layer, stores what buckets of its kind
      store, and holds the items of its place, as many as the size says, the last one
      those that are left. */
  lemma {:induction false} GroupedAt(items: seq<int>, weights: seq<nat>, layer: Layer, kind: nat, k: nat)
    requires |items| == |weights| && k < Groups(|items|, layer.size)
    ensures |Grouped(items, weights, layer, kind)| == Groups(|items|, layer.size)
    ensures var lo, hi := GroupStart(|items|, layer.size, k), GroupEnd(|items|, layer.size, k);
            && lo < hi <= |items|
            && Stores(Grouped(items, weights, layer, kind)[k], kind, items[lo..hi], layer.alg, weights[lo..hi])
    decreases |items|
  {
    hide Grouped, GroupWeights, Groups, GroupStart, GroupEnd, Stores, Made;
    var n, size := |items|, layer.size;
    GroupBoundsOf(n, size, k);
    GroupedCons(items, weights, layer, kind);
    var g := GroupSize(n, size);
    MadeExact(layer.alg, kind, items[..g], weights[..g]);
    if size == 0 || n <= size {
      LastGroup(n, size);
      assert items[g..] == [] && weights[g..] == [];
      GroupedNothing([], layer, kind);
    } else {
      GroupsNext(n, size);
      var j := if k > 0 then k - 1 else 0;
      FirstOfMore(n - size, size);
      GroupedAt(items[g..], weights[g..], layer, kind, j);
      var lo, hi := GroupStart(n - size, size, j), GroupEnd(n - size, size, j);
      SliceOfRest(items, g, lo, hi);
      SliceOfRest(weights, g, lo, hi);
    }
  }

  lemma SliceOfRest<T>(s: seq<T>, g: nat, lo: nat, hi: nat)
    requires g <= |s| && lo <= hi <= |s| - g
    ensures s[g..][lo..hi] == s[g + lo..g + hi]
  {
  }

  lemma FirstOfMore(n: nat, size: nat)
    requires n > 0
    ensures Groups(n, size) > 0
  {
    if size > 0 {
      QuotientNext(n - 1, size);
    }
  }

  lemma GroupBoundsOf(n: nat, size: nat, k: nat)
    requires k < Groups(n, size)
    ensures n > 0 && GroupStart(n, size, k) < GroupEnd(n, size, k) <= n
  {
    GroupBounds(n, size, k);
  }

  lemma {:induction false} NoGroups(items: seq<int>, weights: seq<nat>, layer: Layer, kind: nat)
    requires |items| == |weights|
    ensures |Grouped(items, weights, layer, kind)| == Groups(|items|, layer.size)
  {
    hide Grouped, Groups;
    if items == [] {
      GroupedNothing(weights, layer, kind);
      NoneOfNothing(layer.size);
    } else {
      FirstOfMore(|items|, layer.size);
      GroupedAt(items, weights, layer, kind, 0);
    }
  }

  lemma NoneOfNothing(size: nat)
    ensures Groups(0, size) == 0
  {
  }

  // ----- the whole build -----

  /** The buckets below a layer stay where they are. */
  lemma {:induction false} BuiltStays(n: nat, layers: seq<Layer>, t: nat)
    requires t <= |layers|
    ensures Built(n, layers[..t]).buckets <= Built(n, layers).buckets
    decreases |layers|
  {
    hide Grouped, GroupWeights;
    if t == |layers| {
      assert layers[..t] == layers;
    } else {
      var k := |layers| - 1;
      BuiltStays(n, layers[..k], t);
      assert layers[..k][..t] == layers[..t];
    }
  }

  lemma BuiltNext(n: nat, layers: seq<Layer>, t: nat)
    requires t < |layers|
    ensures Built(n, layers[..t + 1]) == NextLevel(Built(n, layers[..t]), layers[t], t + 1)
  {
    assert layers[..t + 1][..t] == layers[..t];
  }

  /** Layer t, counted from 0, has buckets of type t + 1 and the kind that was asked for.
      They come behind those of the layers below, and each takes its share of what the
      layer below made, in order. */
  lemma BuiltAt(n: nat, layers: seq<Layer>, t: nat, k: nat)
    requires t < |layers|
    requires k < Groups(|Built(n, layers[..t]).items|, layers[t].size)
    ensures var below, layer := Built(n, layers[..t]), layers[t];
            var lo, hi := GroupStart(|below.items|, layer.size, k), GroupEnd(|below.items|, layer.size, k);
            && |below.buckets| + k < |Built(n, layers).buckets| && lo < hi <= |below.items|
            && Stores(Built(n, layers).buckets[|below.buckets| + k], t + 1, below.items[lo..hi], layer.alg,
                      below.weights[lo..hi])
  {
    hide Built, Stores, Groups, GroupStart, GroupEnd, Grouped;
    var below := Built(n, layers[..t]);
    GroupedAt(below.items, below.weights, layers[t], t + 1, k);
    BuiltNext(n, layers, t);
    BuiltStays(n, layers, t + 1);
  }

  /** What a layer makes for the next one: the devices 0 to n - 1 at first, and then the
      ids of its buckets, from -1 down as they are made. */
  lemma BuiltItems(n: nat, layers: seq<Layer>, t: nat)
    requires t <= |layers|
    ensures var items := Built(n, layers[..t]).items;
            if t == 0 then |items| == n && forall i | 0 <= i < n :: items[i] == i
            else
              var below := Built(n, layers[..t - 1]);
              && |items| == Groups(|below.items|, layers[t - 1].size)
              && |Built(n, layers[..t]).buckets| == |below.buckets| + |items|
              && forall i | 0 <= i < |items| :: items[i] == -1 - |below.buckets| - i
  {
    hide Groups, Grouped, GroupWeights;
    if t > 0 {
      var below := Built(n, layers[..t - 1]);
      BuiltNext(n, layers, t - 1);
      NoGroups(below.items, below.weights, layers[t - 1], t);
      IdsAt(|below.buckets|, |Grouped(below.items, below.weights, layers[t - 1], t)|);
    } else {
      assert layers[..0] == [];
    }
  }
}
