/** The fake inode numbers of client/fuse_ll.cc: an inode and a snapshot packed into
    64 bits, with a small tag for each snapshot that has been seen. */
module FuseInodes {
  import opened Basics
  import opened Bits

  const INO_LIMIT: nat := 0x1_0000_0000_0000       // 2 to the 48
  const TAG_LIMIT: nat := 0x1_0000                 // 2 to the 16
  const NOSNAP: nat := 0xffff_ffff_ffff_fffe

  // ----- packing -----

  /** MAKE_FINO: in 64 bits, the high bits of the tag are shifted out. */
  function MakeFino(ino: nat, stag: nat): nat {
    Or(ino, (stag * INO_LIMIT) % U64)
  }

  /** FINO_INO and FINO_STAG. */
  function FinoIno(fino: nat): nat {
    fino % INO_LIMIT
  }

  function FinoStag(fino: nat): nat {
    fino / INO_LIMIT
  }

  lemma {:induction false} OrDisjoint(a: nat, b: nat, n: nat)
    requires a < Pow2(n)
    ensures Or(a, b * Pow2(n)) == a + b * Pow2(n)
    decreases n
  {
    if n == 0 {
      OrLow(b);
    } else {
      var p := Pow2(n - 1);
      Doubled(b, p);
      if a + b * Pow2(n) > 0 {
        OrDisjoint(a / 2, b, n - 1);
      }
    }
  }

  lemma {:induction false} OrLow(b: nat)
    ensures Or(0, b) == b
  {
    if b > 0 {
      OrLow(b / 2);
    }
  }

  lemma Doubled(b: nat, p: nat)
    ensures (b * (2 * p)) / 2 == b * p && (b * (2 * p)) % 2 == 0
  {
    var x := b * p;
    assert b * (2 * p) == 2 * x;
  }

  lemma Doubling(n: nat, p: nat)
    requires Pow2(n) == p
    ensures Pow2(n + n) == p * p
  {
    Pow2Sum(n, n);
  }

  lemma InoLimit()
    ensures Pow2(48) == INO_LIMIT
  {
    hide Pow2;
    SmallPower();
    Doubling(3, 8);
    Doubling(6, 64);
    Doubling(12, 4096);
    Doubling(24, 0x100_0000);
  }

  lemma SmallPower()
    ensures Pow2(3) == 8
  {
  }

  lemma TagPart(stag: nat)
    ensures (stag * INO_LIMIT) % U64 == (stag % TAG_LIMIT) * INO_LIMIT
  {
    var q, r := stag / TAG_LIMIT, stag % TAG_LIMIT;
    assert stag * INO_LIMIT == U64 * q + r * INO_LIMIT;
    assert r * INO_LIMIT < U64;
  }

  lemma Unpacked(ino: nat, t: nat)
    requires ino < INO_LIMIT
    ensures (ino + t * INO_LIMIT) / INO_LIMIT == t && (ino + t * INO_LIMIT) % INO_LIMIT == ino
  {
  }

  /** What is packed comes back if and only if it fits. */
  lemma PackExact(ino: nat, stag: nat)
    ensures FinoIno(MakeFino(ino, stag)) == ino && FinoStag(MakeFino(ino, stag)) == stag
       <==> ino < INO_LIMIT && stag < TAG_LIMIT
    ensures ino < INO_LIMIT ==> MakeFino(ino, stag) == ino + (stag % TAG_LIMIT) * INO_LIMIT
    ensures FinoIno(MakeFino(ino, stag)) < INO_LIMIT
  {
    hide Or, Pow2;
    TagPart(stag);
    var t := stag % TAG_LIMIT;
    if ino < INO_LIMIT {
      InoLimit();
      OrDisjoint(ino, t, 48);
      Unpacked(ino, t);
    }
  }

  lemma {:induction false} ShiftedBit(x: nat, k: nat, n: nat)
    ensures HasBit(x * Pow2(k), n) <==> n >= k && HasBit(x, n - k)
    decreases k
  {
    if k > 0 {
      Doubled(x, Pow2(k - 1));
      if n > 0 {
        ShiftedBit(x, k - 1, n - 1);
      }
    }
  }

  lemma {:induction false} LowBit(x: nat, k: nat, n: nat)
    ensures HasBit(x % Pow2(k), n) <==> n < k && HasBit(x, n)
    decreases k
  {
    if k == 0 {
      ZeroBit(n);
    } else {
      LowHalf(x, Pow2(k - 1));
      if n > 0 {
        LowBit(x / 2, k - 1, n - 1);
      }
    }
  }

  lemma LowHalf(x: nat, p: nat)
    requires p > 0
    ensures x % (2 * p) % 2 == x % 2 && x % (2 * p) / 2 == x / 2 % p
  {
    var q, r := x / (2 * p), x % (2 * p);
    var y := p * q;
    assert x == 2 * y + r;
    assert x / 2 == y + r / 2 && r / 2 < p;
    QuotientOf(p, q, r / 2);
  }

  /** For any inode and tag: the low 16 bits of the tag go into the bits from 48 up, on
      top of whatever the inode has there. */
  lemma FinoBits(ino: nat, stag: nat, n: nat)
    ensures HasBit(MakeFino(ino, stag), n) <==> HasBit(ino, n) || (48 <= n < 64 && HasBit(stag, n - 48))
  {
    hide Or, Pow2, HasBit;
    TagPart(stag);
    OrBit(ino, stag % TAG_LIMIT * INO_LIMIT, n);
    InoLimit();
    TagLimit();
    ShiftedBit(stag % TAG_LIMIT, 48, n);
    if n >= 48 {
      LowBit(stag, 16, n - 48);
    }
  }

  lemma TagLimit()
    ensures Pow2(16) == TAG_LIMIT
  {
    hide Pow2;
    SmallPower();
    Doubling(3, 8);
    Pow2Sum(6, 2);
    FourPower();
    Doubling(8, 256);
  }

  lemma FourPower()
    ensures Pow2(2) == 4
  {
  }

  // ----- tags -----

  datatype Tags = Tags(last: nat, ofSnap: map<nat, nat>, ofTag: map<nat, nat>)

  /** The two maps are inverse to each other, and the tags are 0 to the last. */
  ghost predicate Inverse(t: Tags) {
    && NOSNAP in t.ofSnap && t.ofSnap[NOSNAP] == 0
    && (forall s | s in t.ofSnap :: t.ofSnap[s] in t.ofTag && t.ofTag[t.ofSnap[s]] == s)
    && (forall g | g in t.ofTag :: t.ofTag[g] in t.ofSnap && t.ofSnap[t.ofTag[g]] == g)
    && (forall g: nat :: g in t.ofTag <==> g <= t.last)
  }

  /** What a later call leaves of the tags. */
  ghost predicate Kept(t: Tags, later: Tags) {
    && (forall s | s in t.ofSnap :: s in later.ofSnap && later.ofSnap[s] == t.ofSnap[s])
    && (forall g | g in t.ofTag :: g in later.ofTag && later.ofTag[g] == t.ofTag[g])
  }

  const START := Tags(0, map[NOSNAP := 0], map[0 := NOSNAP])

  function Tagged(t: Tags, snap: nat): Tags {
    if snap in t.ofSnap then t
    else Tags(t.last + 1, t.ofSnap[snap := t.last + 1], t.ofTag[t.last + 1 := snap])
  }

  lemma TaggedKeeps(t: Tags, snap: nat)
    requires Inverse(t)
    ensures Inverse(Tagged(t, snap)) && Kept(t, Tagged(t, snap)) && snap in Tagged(t, snap).ofSnap
  {
    assert t.last + 1 !in t.ofTag;
  }

  /** The tags after a run of make_fake_ino for these snapshots. */
  function TagsAfter(snaps: seq<nat>): Tags {
    if snaps == [] then START else Tagged(TagsAfter(snaps[..|snaps| - 1]), snaps[|snaps| - 1])
  }

  lemma {:induction false} RunInverse(snaps: seq<nat>)
    ensures Inverse(TagsAfter(snaps))
  {
    if snaps != [] {
      RunInverse(snaps[..|snaps| - 1]);
      TaggedKeeps(TagsAfter(snaps[..|snaps| - 1]), snaps[|snaps| - 1]);
    }
  }

  /** A tag that was given is kept over any longer run. */
  lemma {:induction false} RunKept(snaps: seq<nat>, n: nat)
    requires n <= |snaps|
    ensures Kept(TagsAfter(snaps[..n]), TagsAfter(snaps))
  {
    if n == |snaps| {
      assert snaps[..n] == snaps;
    } else {
      var front := snaps[..|snaps| - 1];
      RunKept(front, n);
      assert front[..n] == snaps[..n];
      RunInverse(front);
      TaggedKeeps(TagsAfter(front), snaps[|snaps| - 1]);
    }
  }

  /** fino_vino: the number 1 stands for the root that is mounted. */
  function Decoded(t: Tags, root: nat, fino: nat): (r: (nat, nat))
    requires Inverse(t) && FinoStag(if fino == 1 then root else fino) in t.ofTag
  {
    var f := if fino == 1 then root else fino;
    (FinoIno(f), t.ofTag[FinoStag(f)])
  }

  /** make_fake_ino for the n-th call of a run, over the tags that it then has. */
  function Fino(snaps: seq<nat>, n: nat, ino: nat): nat
    requires n < |snaps|
  {
    RunHas(snaps, n);
    MakeFino(ino, TagsAfter(snaps[..n + 1]).ofSnap[snaps[n]])
  }

  lemma RunHas(snaps: seq<nat>, n: nat)
    requires n < |snaps|
    ensures snaps[n] in TagsAfter(snaps[..n + 1]).ofSnap
  {
    assert snaps[..n + 1][..n] == snaps[..n];
    RunInverse(snaps[..n]);
    TaggedKeeps(TagsAfter(snaps[..n]), snaps[n]);
  }

  function TagOf(snaps: seq<nat>, n: nat): nat
    requires n < |snaps|
  {
    RunHas(snaps, n);
    TagsAfter(snaps[..n + 1]).ofSnap[snaps[n]]
  }

  lemma TagStays(snaps: seq<nat>, n: nat)
    requires n < |snaps|
    ensures var t, g := TagsAfter(snaps), TagOf(snaps, n);
            g in t.ofTag && t.ofTag[g] == snaps[n] && g <= t.last && Inverse(t)
  {
    RunHas(snaps, n);
    RunInverse(snaps[..n + 1]);
    RunInverse(snaps);
    RunKept(snaps, n + 1);
  }

  // ----- tags in terms of the run -----

  /** The snapshots that need a tag of their own. */
  function Live(snaps: seq<nat>): set<nat> {
    set x | x in snaps && x != NOSNAP
  }

  /** The place of a snapshot among those that a run sees for the first time. */
  function Rank(snaps: seq<nat>, snap: nat): nat {
    if snap == NOSNAP then 0 else |Live(Until(snaps, snap))| + 1
  }

  lemma {:induction false} UntilSnoc(snaps: seq<nat>, last: nat, snap: nat)
    ensures Until(snaps + [last], snap)
         == if snap in snaps || last == snap then Until(snaps, snap) else snaps + [last]
    ensures snap !in snaps ==> Until(snaps, snap) == snaps
  {
    UntilExact(snaps, snap);
    if snaps == [] {
      assert [last][1..] == [];
    } else if snaps[0] != snap {
      assert (snaps + [last])[1..] == snaps[1..] + [last];
      UntilSnoc(snaps[1..], last, snap);
      assert [snaps[0]] + (snaps[1..] + [last]) == snaps + [last];
    }
  }

  lemma RankSnoc(snaps: seq<nat>, last: nat, snap: nat)
    requires snap in snaps || last == snap
    ensures Rank(snaps + [last], snap) == Rank(snaps, snap)
    ensures snap !in snaps && snap != NOSNAP ==> Rank(snaps, snap) == |Live(snaps)| + 1
  {
    UntilSnoc(snaps, last, snap);
  }

  lemma LiveSnoc(snaps: seq<nat>, last: nat)
    ensures Live(snaps + [last]) == if last == NOSNAP then Live(snaps) else Live(snaps) + {last}
    ensures |Live(snaps + [last])| == |Live(snaps)| + if last == NOSNAP || last in snaps then 0 else 1
    ensures forall x :: x in Live(snaps) <==> x in snaps && x != NOSNAP
  {
    if last in snaps {
      assert Live(snaps + [last]) == Live(snaps);
    }
  }

  ghost predicate Ranked(t: Tags, snaps: seq<nat>) {
    && t.last == |Live(snaps)| && t.ofSnap.Keys == Live(snaps) + {NOSNAP}
    && forall x | x in t.ofSnap :: t.ofSnap[x] == Rank(snaps, x)
  }

  lemma RankedNext(t: Tags, front: seq<nat>, last: nat)
    requires Ranked(t, front)
    ensures Ranked(Tagged(t, last), front + [last])
  {
    hide Rank, Until, Live;
    var snaps, next := front + [last], Tagged(t, last);
    LiveSnoc(front, last);
    forall x | x in next.ofSnap ensures next.ofSnap[x] == Rank(snaps, x) {
      if x == NOSNAP {
        LiveRank(front, snaps);
      } else {
        RankSnoc(front, last, x);
      }
    }
  }

  lemma LiveRank(a: seq<nat>, b: seq<nat>)
    ensures Rank(a, NOSNAP) == Rank(b, NOSNAP)
  {
  }

  /** The tags after a run are the ranks of the snapshots in it. */
  lemma {:induction false} TagsRank(snaps: seq<nat>)
    ensures Ranked(TagsAfter(snaps), snaps)
  {
    if snaps != [] {
      var front, last := snaps[..|snaps| - 1], snaps[|snaps| - 1];
      assert snaps == front + [last];
      TagsRank(front);
      RankedNext(TagsAfter(front), front, last);
    }
  }

  lemma {:induction false} RankStays(snaps: seq<nat>, n: nat)
    requires n < |snaps|
    ensures Rank(snaps[..n + 1], snaps[n]) == Rank(snaps, snaps[n])
    decreases |snaps|
  {
    var k := |snaps| - 1;
    if n == k {
      assert snaps[..n + 1] == snaps;
    } else {
      var front := snaps[..k];
      assert front[..n + 1] == snaps[..n + 1] && front + [snaps[k]] == snaps && snaps[n] in front;
      RankStays(front, n);
      RankSnoc(front, snaps[k], snaps[n]);
    }
  }

  /** A call of make_fake_ino gets the rank of its snapshot in the run. */
  lemma TagIsRank(snaps: seq<nat>, n: nat)
    requires n < |snaps|
    ensures TagOf(snaps, n) == Rank(snaps, snaps[n])
  {
    RunHas(snaps, n);
    TagsRank(snaps[..n + 1]);
    RankStays(snaps, n);
  }

  lemma RootNumber(ino: nat, stag: nat)
    requires ino < INO_LIMIT
    ensures MakeFino(ino, stag) == 1 <==> ino == 1 && stag % TAG_LIMIT == 0
  {
    PackExact(ino, stag);
  }

  lemma DecodeOther(t: Tags, g: nat, ino: nat)
    requires Inverse(t) && g <= t.last
    ensures var f := MakeFino(ino, g);
            FinoStag(f) in t.ofTag && FinoIno(f) == ino && t.ofTag[FinoStag(f)] == t.ofTag[g]
            <==> ino < INO_LIMIT && g < TAG_LIMIT
  {
    PackExact(ino, g);
    if ino < INO_LIMIT {
      var f, low := MakeFino(ino, g), g % TAG_LIMIT;
      assert f / INO_LIMIT == low && f % INO_LIMIT == ino;
      assert low <= g <= t.last;
    }
  }

  /** Every fake inode that was handed out in a run decodes at its end to its own
      inode and snapshot if and only if the inode is below 2 to the 48, the snapshot
      is the live one or among the first 2 to the 16, less one, that the run sees,
      and it is not the number 1 under another mounted root. */
  lemma DecodeExact(snaps: seq<nat>, n: nat, ino: nat, root: nat)
    requires n < |snaps| && ino < U64 && root < U64
    ensures var t, f := TagsAfter(snaps), Fino(snaps, n, ino);
            && Inverse(t)
            && (FinoStag(if f == 1 then root else f) in t.ofTag && Decoded(t, root, f) == (ino, snaps[n])
                <==> && ino < INO_LIMIT && Rank(snaps, snaps[n]) < TAG_LIMIT
                     && (ino == 1 && snaps[n] == NOSNAP ==> root == 1))
  {
    hide MakeFino;
    var t, g, f := TagsAfter(snaps), TagOf(snaps, n), Fino(snaps, n, ino);
    TagStays(snaps, n);
    TagIsRank(snaps, n);
    DecodeOther(t, g, ino);
    assert FinoStag(root) < TAG_LIMIT && FinoIno(root) < INO_LIMIT;
    if ino < INO_LIMIT {
      RootNumber(ino, g);
    }
  }

  /** Different pairs never share a number, as long as they fit. */
  lemma NoCollision(snaps: seq<nat>, n: nat, m: nat, ino: nat, jno: nat)
    requires n < |snaps| && m < |snaps| && ino < INO_LIMIT && jno < INO_LIMIT
    requires Rank(snaps, snaps[n]) < TAG_LIMIT && Rank(snaps, snaps[m]) < TAG_LIMIT
    ensures Fino(snaps, n, ino) == Fino(snaps, m, jno) <==> ino == jno && snaps[n] == snaps[m]
  {
    TagStays(snaps, n);
    TagStays(snaps, m);
    TagIsRank(snaps, n);
    TagIsRank(snaps, m);
    PackExact(ino, TagOf(snaps, n));
    PackExact(jno, TagOf(snaps, m));
    if snaps[n] == snaps[m] {
      SameTag(snaps, n, m);
    }
  }

  lemma SameTag(snaps: seq<nat>, n: nat, m: nat)
    requires n < |snaps| && m < |snaps| && snaps[n] == snaps[m]
    ensures TagOf(snaps, n) == TagOf(snaps, m)
  {
    RunHas(snaps, n);
    RunHas(snaps, m);
    RunKept(snaps, n + 1);
    RunKept(snaps, m + 1);
  }

  class Handle {
    var lastStag: nat
    var snapStagMap: map<nat, nat>
    var stagSnapMap: map<nat, nat>

    ghost function State(): Tags
      reads this
    {
      Tags(lastStag, snapStagMap, stagSnapMap)
    }

    constructor ()
      ensures State() == TagsAfter([])
    {
      lastStag, snapStagMap, stagSnapMap := 0, map[NOSNAP := 0], map[0 := NOSNAP];
    }

    /** make_fake_ino, as the next call of a run. */
    method MakeFakeIno(ino: nat, snap: nat, ghost before: seq<nat>) returns (fino: nat)
      requires State() == TagsAfter(before) && ino < U64
      modifies this
      ensures State() == TagsAfter(before + [snap])
      ensures fino == Fino(before + [snap], |before|, ino)
    {
      ghost var run := before + [snap];
      assert run[..|before|] == before && run[..|before| + 1] == run;
      RunHas(run, |before|);
      var stag;
      if snap !in snapStagMap {
        lastStag := lastStag + 1;
        stag := lastStag;
        snapStagMap := snapStagMap[snap := stag];
        stagSnapMap := stagSnapMap[stag := snap];
      } else {
        stag := snapStagMap[snap];
      }
      fino := MakeFino(ino, stag);
    }

    /** fino_vino; false stands for the failed assertion of fino_snap. */
    method FinoVino(fino: nat, root: nat) returns (ok: bool, ino: nat, snap: nat)
      requires Inverse(State())
      ensures ok <==> FinoStag(if fino == 1 then root else fino) in stagSnapMap
      ensures ok ==> (ino, snap) == Decoded(State(), root, fino)
    {
      var f := if fino == 1 then root else fino;
      ino := FinoIno(f);
      var stag := FinoStag(f);
      if stag !in stagSnapMap {
        return false, ino, 0;
      }
      ok, snap := true, stagSnapMap[stag];
    }
  }
}
