/** Capability references of client/Inode.cc: a counter for each bit. */
module CapRefs {
  import opened Bits

  type Refs = map<nat, int>

  /** operator[] of the map: a missing counter reads as 0. */
  function Val(refs: Refs, c: nat): int {
    if c in refs then refs[c] else 0
  }

  /** What the bit loops of get_cap_ref and put_cap_ref do to the counters. */
  function Added(refs: Refs, cap: nat, n: nat, d: int): Refs
    decreases cap
  {
    if cap == 0 then refs
    else Added(if cap % 2 == 1 then refs[Pow2(n) := Val(refs, Pow2(n)) + d] else refs, cap / 2, n + 1, d)
  }

  /** No counter of the mask is 0 when put_cap_ref comes to it. */
  predicate Putable(refs: Refs, cap: nat, n: nat)
    decreases cap
  {
    cap == 0
    || ((cap % 2 == 1 ==> Val(refs, Pow2(n)) > 0)
        && Putable(if cap % 2 == 1 then refs[Pow2(n) := Val(refs, Pow2(n)) - 1] else refs, cap / 2, n + 1))
  }

  /** Some counter of the mask comes down to 0. */
  predicate DropsToZero(refs: Refs, cap: nat, n: nat)
    decreases cap
  {
    cap > 0
    && ((cap % 2 == 1 && Val(refs, Pow2(n)) == 1)
        || DropsToZero(if cap % 2 == 1 then refs[Pow2(n) := Val(refs, Pow2(n)) - 1] else refs, cap / 2, n + 1))
  }

  ghost predicate PowerKeys(refs: Refs) {
    forall k | k in refs :: exists n: nat :: k == Pow2(n)
  }

  class Counters {
    var capRefs: Refs

    constructor ()
      ensures capRefs == map[]
    {
      capRefs := map[];
    }

    /** get_cap_ref. */
    method GetCapRef(cap: nat)
      modifies this
      ensures capRefs == Added(old(capRefs), cap, 0, 1)
    {
      var rest, n := cap, 0;
      while rest > 0
        invariant 0 <= n && Added(capRefs, rest, n, 1) == Added(old(capRefs), cap, 0, 1)
        decreases rest
      {
        if rest % 2 == 1 {
          var c := Pow2(n);
          capRefs := capRefs[c := Val(capRefs, c) + 1];
        }
        rest := rest / 2;
        n := n + 1;
      }
    }

    /** put_cap_ref; false stands for the failed assertion. */
    method PutCapRef(cap: nat) returns (ok: bool, last: bool)
      modifies this
      ensures ok <==> Putable(old(capRefs), cap, 0)
      ensures ok ==> capRefs == Added(old(capRefs), cap, 0, -1)
      ensures ok ==> (last <==> DropsToZero(old(capRefs), cap, 0))
    {
      last := false;
      var rest, n := cap, 0;
      while rest > 0
        invariant 0 <= n && Added(capRefs, rest, n, -1) == Added(old(capRefs), cap, 0, -1)
        invariant Putable(capRefs, rest, n) <==> Putable(old(capRefs), cap, 0)
        invariant last || DropsToZero(capRefs, rest, n) <==> DropsToZero(old(capRefs), cap, 0)
        decreases rest
      {
        if rest % 2 == 1 {
          var c := Pow2(n);
          if Val(capRefs, c) <= 0 {
            return false, last;
          }
          capRefs := capRefs[c := Val(capRefs, c) - 1];
          if capRefs[c] == 0 {
            last := true;
          }
        }
        rest := rest / 2;
        n := n + 1;
      }
      ok := true;
    }

    /** caps_used. */
    method CapsUsed() returns (w: nat)
      requires PowerKeys(capRefs)
      ensures forall n: nat :: HasBit(w, n) <==> Val(capRefs, Pow2(n)) != 0
    {
      w := 0;
      var left := capRefs.Keys;
      forall n: nat ensures !HasBit(w, n) { ZeroBit(n); }
      while left != {}
        invariant left <= capRefs.Keys
        invariant forall n: nat :: HasBit(w, n) <==> Val(capRefs, Pow2(n)) != 0 && Pow2(n) !in left
        decreases left
      {
        var k :| k in left;
        ghost var b: nat :| k == Pow2(b);
        if capRefs[k] != 0 {
          forall n: nat ensures HasBit(Or(w, k), n) <==> HasBit(w, n) || n == b {
            OrBit(w, k, n);
            Pow2Bit(b, n);
          }
          w := Or(w, k);
        }
        forall n: nat ensures Pow2(n) == k <==> n == b { Pow2Injective(n, b); }
        left := left - {k};
      }
    }
  }

  // ----- counters and bits -----

  /** The bit k of a mask whose lowest bit counts as bit n. */
  predicate BitFrom(cap: nat, n: nat, k: nat) {
    k >= n && HasBit(cap, k - n)
  }

  /** The counter of this bit of the mask is about to become 0. */
  predicate LastHold(refs: Refs, cap: nat, n: nat, k: nat) {
    BitFrom(cap, n, k) && Val(refs, Pow2(k)) == 1
  }

  lemma BitFromNext(cap: nat, n: nat, k: nat)
    ensures BitFrom(cap, n, k) <==> (k == n && cap % 2 == 1) || BitFrom(cap / 2, n + 1, k)
    ensures !BitFrom(0, n, k)
  {
    if k >= n {
      ZeroBit(k - n);
    }
  }

  function Step(refs: Refs, cap: nat, n: nat, d: int): Refs {
    if cap % 2 == 1 then refs[Pow2(n) := Val(refs, Pow2(n)) + d] else refs
  }

  lemma StepVal(refs: Refs, cap: nat, n: nat, d: int, k: nat)
    ensures Val(Step(refs, cap, n, d), Pow2(k)) == Val(refs, Pow2(k)) + if k == n && cap % 2 == 1 then d else 0
  {
    Pow2Injective(n, k);
  }

  lemma {:induction false} AddedCount(refs: Refs, cap: nat, n: nat, d: int, k: nat)
    ensures Val(Added(refs, cap, n, d), Pow2(k)) == Val(refs, Pow2(k)) + if BitFrom(cap, n, k) then d else 0
    decreases cap
  {
    BitFromNext(cap, n, k);
    if cap > 0 {
      StepVal(refs, cap, n, d, k);
      AddedCount(Step(refs, cap, n, d), cap / 2, n + 1, d, k);
    }
  }

  lemma {:induction false} AddedKeys(refs: Refs, cap: nat, n: nat, d: int)
    requires PowerKeys(refs)
    ensures PowerKeys(Added(refs, cap, n, d))
    decreases cap
  {
    if cap > 0 {
      AddedKeys(Step(refs, cap, n, d), cap / 2, n + 1, d);
    }
  }

  /** The counters of a mask are independent of each other. */
  lemma {:induction false} PutableExact(refs: Refs, cap: nat, n: nat)
    ensures Putable(refs, cap, n) <==> forall k: nat | BitFrom(cap, n, k) :: Val(refs, Pow2(k)) > 0
    ensures DropsToZero(refs, cap, n) <==> exists k: nat :: LastHold(refs, cap, n, k)
    decreases cap
  {
    var next := Step(refs, cap, n, -1);
    forall k: nat
      ensures BitFrom(cap, n, k) <==> (k == n && cap % 2 == 1) || BitFrom(cap / 2, n + 1, k)
      ensures BitFrom(cap / 2, n + 1, k) ==> Val(next, Pow2(k)) == Val(refs, Pow2(k))
      ensures LastHold(refs, cap, n, k)
         <==> (k == n && cap % 2 == 1 && Val(refs, Pow2(n)) == 1) || LastHold(next, cap / 2, n + 1, k)
      ensures !BitFrom(0, n, k)
    {
      BitFromNext(cap, n, k);
      StepVal(refs, cap, n, -1, k);
    }
    if cap > 0 {
      PutableExact(next, cap / 2, n + 1);
      assert cap % 2 == 1 ==> BitFrom(cap, n, n);
      assert cap % 2 == 1 && Val(refs, Pow2(n)) == 1 ==> LastHold(refs, cap, n, n);
    }
  }

  // ----- runs -----

  /** How many of these masks contain the bit. */
  function Holds(held: seq<nat>, n: nat): nat {
    if held == [] then 0 else (if HasBit(held[0], n) then 1 else 0) + Holds(held[1..], n)
  }

  function OrAll(held: seq<nat>): nat {
    if held == [] then 0 else Or(held[0], OrAll(held[1..]))
  }

  function Released(held: seq<nat>, cap: nat): seq<nat> {
    if held == [] then [] else if held[0] == cap then held[1..] else [held[0]] + Released(held[1..], cap)
  }

  lemma {:induction false} HoldsSnoc(held: seq<nat>, cap: nat, n: nat)
    ensures Holds(held + [cap], n) == Holds(held, n) + if HasBit(cap, n) then 1 else 0
  {
    if held == [] {
      assert held + [cap] == [cap] && [cap][1..] == [];
    } else {
      assert (held + [cap])[1..] == held[1..] + [cap];
      HoldsSnoc(held[1..], cap, n);
    }
  }

  lemma {:induction false} HoldsWithout(held: seq<nat>, cap: nat, n: nat)
    requires cap in held
    ensures Holds(held, n) == Holds(Released(held, cap), n) + if HasBit(cap, n) then 1 else 0
  {
    if held[0] != cap {
      HoldsWithout(held[1..], cap, n);
      assert ([held[0]] + Released(held[1..], cap))[1..] == Released(held[1..], cap);
    }
  }

  lemma {:induction false} OrAllBit(held: seq<nat>, n: nat)
    ensures HasBit(OrAll(held), n) <==> Holds(held, n) > 0
  {
    if held == [] {
      ZeroBit(n);
    } else {
      OrAllBit(held[1..], n);
      OrBit(held[0], OrAll(held[1..]), n);
    }
  }

  datatype RefOp = Get(cap: nat) | Put(cap: nat)

  /** The masks that are held after a run. */
  function Held(ops: seq<RefOp>): seq<nat> {
    if ops == [] then []
    else
      var before := Held(ops[..|ops| - 1]);
      match ops[|ops| - 1]
      case Get(cap) => before + [cap]
      case Put(cap) => Released(before, cap)
  }

  /** Every put releases a mask that is held. */
  predicate Legal(ops: seq<RefOp>) {
    ops == []
    || (Legal(ops[..|ops| - 1])
        && (ops[|ops| - 1].Put? ==> ops[|ops| - 1].cap in Held(ops[..|ops| - 1])))
  }

  function RefsAfter(ops: seq<RefOp>): Refs {
    if ops == [] then map[]
    else
      var before := RefsAfter(ops[..|ops| - 1]);
      match ops[|ops| - 1]
      case Get(cap) => Added(before, cap, 0, 1)
      case Put(cap) => Added(before, cap, 0, -1)
  }

  ghost predicate Counted(refs: Refs, held: seq<nat>) {
    forall n: nat :: Val(refs, Pow2(n)) == Holds(held, n)
  }

  /** After every legal run, each counter is the number of held masks that contain
      its bit. */
  lemma {:induction false} RunCounts(ops: seq<RefOp>)
    requires Legal(ops)
    ensures Counted(RefsAfter(ops), Held(ops)) && PowerKeys(RefsAfter(ops))
  {
    if ops != [] {
      var before, op := ops[..|ops| - 1], ops[|ops| - 1];
      RunCounts(before);
      var d := if op.Get? then 1 else -1;
      AddedKeys(RefsAfter(before), op.cap, 0, d);
      forall n: nat ensures Val(RefsAfter(ops), Pow2(n)) == Holds(Held(ops), n) {
        AddedCount(RefsAfter(before), op.cap, 0, d, n);
        if op.Get? {
          HoldsSnoc(Held(before), op.cap, n);
        } else {
          HoldsWithout(Held(before), op.cap, n);
        }
      }
    }
  }

  /** A bit of the mask that none of the held masks contains. */
  predicate Freed(held: seq<nat>, cap: nat, n: nat) {
    HasBit(cap, n) && Holds(held, n) == 0
  }

  /** A legal put never fails its assertion, and reports exactly whether some bit
      of its mask is not held any more. */
  lemma RunPut(ops: seq<RefOp>, cap: nat)
    requires Legal(ops) && cap in Held(ops)
    ensures Putable(RefsAfter(ops), cap, 0)
    ensures DropsToZero(RefsAfter(ops), cap, 0)
       <==> exists n: nat :: Freed(Released(Held(ops), cap), cap, n)
  {
    var refs, held := RefsAfter(ops), Held(ops);
    RunCounts(ops);
    PutableExact(refs, cap, 0);
    forall n: nat
      ensures BitFrom(cap, 0, n) <==> HasBit(cap, n)
      ensures Val(refs, Pow2(n)) == Holds(held, n)
      ensures HasBit(cap, n) ==> Holds(held, n) == Holds(Released(held, cap), n) + 1
    {
      HoldsWithout(held, cap, n);
    }
    if DropsToZero(refs, cap, 0) {
      var n: nat :| LastHold(refs, cap, 0, n);
      assert Freed(Released(held, cap), cap, n);
    }
    if n: nat :| Freed(Released(held, cap), cap, n) {
      assert LastHold(refs, cap, 0, n);
    }
  }

  /** What caps_used computes after a legal run is the union of the held masks. */
  lemma RunUsed(ops: seq<RefOp>, w: nat)
    requires Legal(ops)
    requires forall n: nat :: HasBit(w, n) <==> Val(RefsAfter(ops), Pow2(n)) != 0
    ensures w == OrAll(Held(ops))
  {
    RunCounts(ops);
    forall n: nat ensures HasBit(w, n) <==> HasBit(OrAll(Held(ops)), n) {
      OrAllBit(Held(ops), n);
    }
    Extensional(w, OrAll(Held(ops)));
  }
}
