/** What every run of the reservation scheduler keeps. */
module ReservationRuns {
  import opened Basics
  import opened Reservations

  datatype Op<T> =
    | SetMax(max: nat)
    | Request(item: T, onReserved: Context, prio: nat)
    | Cancel(item: T)

  function Step<T(==)>(s: State<T>, op: Op<T>): State<T> {
    match op
    case SetMax(max) => Grant(s.(maxAllowed := max))
    case Request(item, onReserved, prio) => Requested(s, item, onReserved, prio)
    case Cancel(item) => Cancelled(s, item)
  }

  /** What request_reservation asserts. */
  predicate Legal<T(==)>(s: State<T>, op: Op<T>) {
    op.Request? ==> !Has(s.waiting, op.item) && op.item !in s.inProgress
  }

  function Run<T(==)>(s: State<T>, ops: seq<Op<T>>): State<T>
    decreases |ops|
  {
    if ops == [] then s else Run(Step(s, ops[0]), ops[1..])
  }

  predicate LegalRun<T(==)>(s: State<T>, ops: seq<Op<T>>)
    decreases |ops|
  {
    ops == [] || (Legal(s, ops[0]) && LegalRun(Step(s, ops[0]), ops[1..]))
  }

  // ----- the shape of the waiting list -----

  predicate Sorted<T>(q: seq<Waiting<T>>) {
    forall i, j | 0 <= i < j < |q| :: q[i].prio >= q[j].prio
  }

  predicate DistinctItems<T(==)>(q: seq<Waiting<T>>) {
    forall i, j | 0 <= i < j < |q| :: q[i].item != q[j].item
  }

  predicate WellFormed<T(==)>(s: State<T>) {
    && Sorted(s.waiting) && DistinctItems(s.waiting)
    && forall i | 0 <= i < |s.waiting| :: s.waiting[i].item !in s.inProgress
  }

  /** No slot is free while somebody waits. */
  predicate Saturated<T>(s: State<T>) {
    |s.inProgress| >= s.maxAllowed || s.waiting == []
  }

  /** A request goes behind everything of its own or a higher priority and in
      front of everything of a lower one. */
  lemma {:induction false} InsertPlace<T>(q: seq<Waiting<T>>, w: Waiting<T>) returns (k: nat)
    requires Sorted(q)
    ensures k <= |q| && Insert(q, w) == q[..k] + [w] + q[k..]
    ensures forall i | 0 <= i < k :: q[i].prio >= w.prio
    ensures forall i | k <= i < |q| :: q[i].prio < w.prio
  {
    if q == [] || q[0].prio < w.prio {
      k := 0;
    } else {
      var l := InsertPlace(q[1..], w);
      k := l + 1;
      assert q[..k] == [q[0]] + q[1..][..l] && q[k..] == q[1..][l..];
    }
  }

  lemma {:induction false} RemovePlace<T>(q: seq<Waiting<T>>, item: T) returns (k: nat)
    requires Has(q, item)
    ensures k < |q| && q[k].item == item && CallbackOf(q, item) == q[k].onReserved
    ensures Remove(q, item) == q[..k] + q[k + 1..]
  {
    if q[0].item == item {
      k := 0;
    } else {
      var i :| 0 <= i < |q| && q[i].item == item;
      assert q[1..][i - 1].item == item;
      var l := RemovePlace(q[1..], item);
      k := l + 1;
      assert q[..k] == [q[0]] + q[1..][..l] && q[k + 1..] == q[1..][l + 1..];
    }
  }

  lemma ItemsSize<T>(q: seq<Waiting<T>>)
    requires DistinctItems(q)
    ensures |Items(q)| == |q|
  {
    if q != [] {
      var n := |q| - 1;
      ItemsSize(q[..n]);
      assert q == q[..n] + [q[n]];
      assert Items(q) == Items(q[..n]) + {q[n].item};
    }
  }

  lemma ServedFresh<T>(s: State<T>, k: nat)
    requires WellFormed(s) && k <= |s.waiting|
    ensures Items(s.waiting[..k]) !! s.inProgress
    ensures forall i | 0 <= i < |s.waiting[k..]| :: s.waiting[k..][i].item !in s.inProgress + Items(s.waiting[..k])
  {
    var served := s.waiting[..k];
    forall w | w in served ensures w.item !in s.inProgress {
      var i :| 0 <= i < k && served[i] == w;
      assert s.waiting[i] == w;
    }
    forall i | 0 <= i < |s.waiting[k..]| ensures s.waiting[k..][i].item !in s.inProgress + Items(served) {
      assert s.waiting[k..][i] == s.waiting[k + i];
      forall w | w in served ensures w.item != s.waiting[k + i].item {
        var j :| 0 <= j < k && served[j] == w;
        assert s.waiting[j] == w;
      }
    }
  }

  /** Granting fills the free slots, never more, and leaves none while somebody
      waits. */
  lemma GrantSound<T>(s: State<T>)
    requires WellFormed(s)
    ensures WellFormed(Grant(s)) && Saturated(Grant(s))
    ensures Grant(s).finished != s.finished ==> |Grant(s).inProgress| <= s.maxAllowed
    ensures |Grant(s).inProgress| == |s.inProgress| + Grantable(s)
  {
    var k := Grantable(s);
    var served := s.waiting[..k];
    ItemsSize(served);
    ServedFresh(s, k);
    if k == 0 {
      assert s.finished + Callbacks(served) == s.finished;
    }
  }

  /** r is q with w put in at place k. */
  predicate Spliced<T(==)>(q: seq<Waiting<T>>, k: nat, w: Waiting<T>, r: seq<Waiting<T>>) {
    && k <= |q| && |r| == |q| + 1 && r[k] == w
    && (forall i | 0 <= i < k :: r[i] == q[i])
    && (forall i | k < i < |r| :: r[i] == q[i - 1])
  }

  lemma SplicedSorted<T>(q: seq<Waiting<T>>, k: nat, w: Waiting<T>, r: seq<Waiting<T>>)
    requires Spliced(q, k, w, r) && Sorted(q)
    requires forall i | 0 <= i < k :: q[i].prio >= w.prio
    requires forall i | k <= i < |q| :: q[i].prio < w.prio
    ensures Sorted(r)
  {
  }

  lemma SplicedDistinct<T>(q: seq<Waiting<T>>, k: nat, w: Waiting<T>, r: seq<Waiting<T>>)
    requires Spliced(q, k, w, r) && DistinctItems(q) && !Has(q, w.item)
    ensures DistinctItems(r) && forall x | x in r :: x == w || x in q
  {
  }

  /** Insertion keeps the list sorted and its items distinct. */
  lemma InsertKeepsList<T>(q: seq<Waiting<T>>, w: Waiting<T>)
    requires Sorted(q) && DistinctItems(q) && !Has(q, w.item)
    ensures Sorted(Insert(q, w)) && DistinctItems(Insert(q, w))
    ensures forall x | x in Insert(q, w) :: x == w || x in q
  {
    hide Insert, Sorted, DistinctItems, Has;
    var k := InsertPlace(q, w);
    var r := q[..k] + [w] + q[k..];
    assert Spliced(q, k, w, r);
    SplicedSorted(q, k, w, r);
    SplicedDistinct(q, k, w, r);
  }

  lemma InsertKeepsShape<T>(s: State<T>, w: Waiting<T>)
    requires WellFormed(s) && !Has(s.waiting, w.item) && w.item !in s.inProgress
    ensures WellFormed(s.(waiting := Insert(s.waiting, w)))
  {
    InsertKeepsList(s.waiting, w);
    var r := Insert(s.waiting, w);
    forall i | 0 <= i < |r| ensures r[i].item !in s.inProgress {
      assert r[i] in r;
    }
  }

  lemma DropKeepsShape<T>(s: State<T>, k: nat, r: seq<Waiting<T>>)
    requires WellFormed(s) && k < |s.waiting| && |r| == |s.waiting| - 1
    requires forall i | 0 <= i < |r| :: r[i] == s.waiting[if i < k then i else i + 1]
    ensures WellFormed(s.(waiting := r))
  {
  }

  lemma RemoveKeepsShape<T>(s: State<T>, item: T)
    requires WellFormed(s) && Has(s.waiting, item)
    ensures WellFormed(s.(waiting := Remove(s.waiting, item)))
  {
    hide WellFormed, Remove, Has, CallbackOf;
    var q := s.waiting;
    var k := RemovePlace(q, item);
    DropKeepsShape(s, k, q[..k] + q[k + 1..]);
  }

  /** The state that do_queues starts from. */
  function BeforeGrant<T(==)>(s: State<T>, op: Op<T>): State<T> {
    match op
    case SetMax(max) => s.(maxAllowed := max)
    case Request(item, onReserved, prio) => s.(waiting := Insert(s.waiting, Waiting(prio, item, onReserved)))
    case Cancel(item) =>
      if Has(s.waiting, item) then Withdrawn(s, item) else s.(inProgress := s.inProgress - {item})
  }

  lemma BeforeGrantWellFormed<T>(s: State<T>, op: Op<T>)
    requires WellFormed(s) && Legal(s, op)
    ensures WellFormed(BeforeGrant(s, op)) && Step(s, op) == Grant(BeforeGrant(s, op))
  {
    match op
    case SetMax(_) =>
    case Request(item, onReserved, prio) => InsertKeepsShape(s, Waiting(prio, item, onReserved));
    case Cancel(item) => if Has(s.waiting, item) { RemoveKeepsShape(s, item); }
  }

  /** After every public operation, lowering the limit included: the list is in
      serving order, every item waits or holds a slot at most once, and no slot
      is free while somebody waits; whoever was just granted fits the limit. */
  lemma {:induction false} RunKeepsShape<T>(s: State<T>, ops: seq<Op<T>>)
    requires WellFormed(s) && Saturated(s) && LegalRun(s, ops)
    ensures WellFormed(Run(s, ops)) && Saturated(Run(s, ops))
    decreases |ops|
  {
    if ops != [] {
      BeforeGrantWellFormed(s, ops[0]);
      GrantSound(BeforeGrant(s, ops[0]));
      RunKeepsShape(Step(s, ops[0]), ops[1..]);
    }
  }

  // ----- no callback is lost -----

  function Submitted<T>(ops: seq<Op<T>>): multiset<Context> {
    if ops == [] then multiset{}
    else SubmittedBy(ops[0]) + Submitted(ops[1..])
  }

  function Bag<T>(q: seq<Waiting<T>>): multiset<Context> {
    multiset(Callbacks(q))
  }

  lemma BagConcat<T>(a: seq<Waiting<T>>, b: seq<Waiting<T>>)
    ensures Callbacks(a + b) == Callbacks(a) + Callbacks(b)
    ensures Bag(a + b) == Bag(a) + Bag(b)
  {
    assert Callbacks(a + b) == Callbacks(a) + Callbacks(b);
  }

  lemma BagOne<T>(a: seq<Waiting<T>>, w: Waiting<T>, b: seq<Waiting<T>>)
    ensures Bag(a + [w] + b) == Bag(a + b) + multiset{w.onReserved}
  {
    BagConcat(a + [w], b);
    BagConcat(a, [w]);
    BagConcat(a, b);
    assert Callbacks([w]) == [w.onReserved];
  }

  lemma InsertBag<T>(q: seq<Waiting<T>>, w: Waiting<T>)
    requires Sorted(q)
    ensures Bag(Insert(q, w)) == Bag(q) + multiset{w.onReserved}
  {
    var k := InsertPlace(q, w);
    BagOne(q[..k], w, q[k..]);
    assert q == q[..k] + q[k..];
  }

  lemma RemoveBag<T>(q: seq<Waiting<T>>, item: T)
    requires Has(q, item)
    ensures Bag(q) == Bag(Remove(q, item)) + multiset{CallbackOf(q, item)}
  {
    var k := RemovePlace(q, item);
    BagOne(q[..k], q[k], q[k + 1..]);
    assert q == q[..k] + [q[k]] + q[k + 1..];
  }

  /** The callbacks that wait, that the finisher got, and that cancel deleted. */
  function Accounted<T>(s: State<T>): multiset<Context> {
    Bag(s.waiting) + multiset(s.finished) + multiset(s.deleted)
  }

  lemma GrantAccounts<T>(s: State<T>)
    ensures Accounted(Grant(s)) == Accounted(s)
  {
    var k := Grantable(s);
    assert s.waiting == s.waiting[..k] + s.waiting[k..];
    BagConcat(s.waiting[..k], s.waiting[k..]);
  }

  function SubmittedBy<T>(op: Op<T>): multiset<Context> {
    if op.Request? then multiset{op.onReserved} else multiset{}
  }

  lemma StepAccounts<T>(s: State<T>, op: Op<T>)
    requires WellFormed(s) && Legal(s, op)
    ensures Accounted(Step(s, op)) == Accounted(s) + SubmittedBy(op)
  {
    hide Sorted, DistinctItems, Bag, Callbacks, Insert, Remove, CallbackOf, Grant;
    BeforeGrantWellFormed(s, op);
    GrantAccounts(BeforeGrant(s, op));
    if op.Request? {
      InsertBag(s.waiting, Waiting(op.prio, op.item, op.onReserved));
    } else if op.Cancel? && Has(s.waiting, op.item) {
      RemoveBag(s.waiting, op.item);
    }
  }

  /** Conservation: every callback ever submitted is in exactly one of three
      places, as often as it was submitted. */
  lemma {:induction false} CallbacksConserved<T>(s: State<T>, ops: seq<Op<T>>)
    requires WellFormed(s) && LegalRun(s, ops)
    ensures Accounted(Run(s, ops)) == Accounted(s) + Submitted(ops)
    decreases |ops|
  {
    if ops != [] {
      BeforeGrantWellFormed(s, ops[0]);
      GrantSound(BeforeGrant(s, ops[0]));
      StepAccounts(s, ops[0]);
      CallbacksConserved(Step(s, ops[0]), ops[1..]);
    }
  }

  // ----- no overtaking -----

  ghost predicate Ahead<T>(q: seq<Waiting<T>>, a: Waiting<T>, b: Waiting<T>) {
    exists i, j :: 0 <= i < j < |q| && q[i] == a && q[j] == b
  }

  lemma AheadConcat<T>(x: seq<Waiting<T>>, y: seq<Waiting<T>>, z: seq<Waiting<T>>, a: Waiting<T>, b: Waiting<T>)
    requires Ahead(x + z, a, b)
    ensures Ahead(x + y + z, a, b)
  {
    var i, j :| 0 <= i < j < |x + z| && (x + z)[i] == a && (x + z)[j] == b;
    var q := x + y + z;
    var i', j' := if i < |x| then i else i + |y|, if j < |x| then j else j + |y|;
    assert q[i'] == a && q[j'] == b;
  }

  lemma AheadWithout<T>(x: seq<Waiting<T>>, w: Waiting<T>, z: seq<Waiting<T>>, a: Waiting<T>, b: Waiting<T>)
    requires Ahead(x + [w] + z, a, b) && w != a && w != b
    ensures Ahead(x + z, a, b)
  {
    var q := x + [w] + z;
    var i, j :| 0 <= i < j < |q| && q[i] == a && q[j] == b;
    assert q[|x|] == w;
    var i', j' := if i < |x| then i else i - 1, if j < |x| then j else j - 1;
    assert (x + z)[i'] == a && (x + z)[j'] == b;
  }

  lemma BeforeGrantAhead<T>(s: State<T>, op: Op<T>, a: Waiting<T>, b: Waiting<T>)
    requires WellFormed(s) && Ahead(s.waiting, a, b)
    requires op != Cancel(b.item) && op != Cancel(a.item)
    ensures Ahead(BeforeGrant(s, op).waiting, a, b)
  {
    hide Sorted, DistinctItems, Ahead, Insert, Remove, CallbackOf;
    var q := s.waiting;
    if op.Request? {
      var w := Waiting(op.prio, op.item, op.onReserved);
      var k := InsertPlace(q, w);
      assert q == q[..k] + q[k..];
      AheadConcat(q[..k], [w], q[k..], a, b);
    } else if op.Cancel? && Has(q, op.item) {
      var k := RemovePlace(q, op.item);
      assert q == q[..k] + [q[k]] + q[k + 1..];
      AheadWithout(q[..k], q[k], q[k + 1..], a, b);
    }
  }

  lemma GrantAhead<T>(s: State<T>, a: Waiting<T>, b: Waiting<T>)
    requires WellFormed(s) && Ahead(s.waiting, a, b)
    ensures Ahead(Grant(s).waiting, a, b) || a.item in Grant(s).inProgress
  {
    hide WellFormed, Callbacks;
    var k := Grantable(s);
    var i, j :| 0 <= i < j < |s.waiting| && s.waiting[i] == a && s.waiting[j] == b;
    if i < k {
      assert s.waiting[..k][i] == a && a in s.waiting[..k];
    } else {
      assert s.waiting[k..][i - k] == a && s.waiting[k..][j - k] == b;
    }
  }

  /** No overtaking: unless one of the two is cancelled, an item that is behind
      another one stays behind it until that one has been granted, whatever else
      is requested, cancelled or resized meanwhile. */
  lemma {:induction false} NoOvertaking<T>(s: State<T>, ops: seq<Op<T>>, a: Waiting<T>, b: Waiting<T>)
    requires WellFormed(s) && LegalRun(s, ops) && Ahead(s.waiting, a, b)
    requires Cancel(a.item) !in ops && Cancel(b.item) !in ops
    ensures Ahead(Run(s, ops).waiting, a, b) || a.item in Run(s, ops).inProgress
    decreases |ops|
  {
    if ops != [] {
      assert ops[0] in ops;
      BeforeGrantWellFormed(s, ops[0]);
      BeforeGrantAhead(s, ops[0], a, b);
      GrantSound(BeforeGrant(s, ops[0]));
      GrantAhead(BeforeGrant(s, ops[0]), a, b);
      var next := Step(s, ops[0]);
      if Ahead(next.waiting, a, b) {
        NoOvertaking(next, ops[1..], a, b);
      } else {
        SlotKept(next, ops[1..], a.item);
      }
    }
  }

  /** A slot is held until it is cancelled. */
  lemma {:induction false} SlotKept<T>(s: State<T>, ops: seq<Op<T>>, item: T)
    requires item in s.inProgress && Cancel(item) !in ops
    ensures item in Run(s, ops).inProgress
    decreases |ops|
  {
    if ops != [] {
      assert ops[0] in ops;
      SlotKept(Step(s, ops[0]), ops[1..], item);
    }
  }

  // ----- releases serve the queue in order -----

  /** Each op gives back a slot that is held when its turn comes. */
  predicate Releases<T(==)>(s: State<T>, ops: seq<Op<T>>)
    decreases |ops|
  {
    ops == [] || (ops[0].Cancel? && ops[0].item in s.inProgress && Releases(Step(s, ops[0]), ops[1..]))
  }

  /** From s to t, exactly the first n waiting items were served, in order. */
  predicate Served<T(==)>(s: State<T>, t: State<T>, n: nat) {
    && n <= |s.waiting| && t.waiting == s.waiting[n..]
    && t.finished == s.finished + Callbacks(s.waiting[..n])
  }

  lemma ServedTwice<T>(s: State<T>, t: State<T>, u: State<T>, n: nat, m: nat)
    requires Served(s, t, n) && Served(t, u, m)
    ensures Served(s, u, n + m)
  {
    hide Callbacks, Bag;
    assert s.waiting[..n + m] == s.waiting[..n] + t.waiting[..m];
    BagConcat(s.waiting[..n], t.waiting[..m]);
  }

  /** One release with all slots in use serves the front of the list. */
  lemma ReleaseServesFront<T>(s: State<T>, x: T)
    requires WellFormed(s) && Saturated(s) && |s.inProgress| <= s.maxAllowed && x in s.inProgress
    ensures var next := Cancelled(s, x);
            && Served(s, next, Min(1, |s.waiting|))
            && next.maxAllowed == s.maxAllowed && |next.inProgress| <= s.maxAllowed
            && WellFormed(next) && Saturated(next)
  {
    var freed := s.(inProgress := s.inProgress - {x});
    assert WellFormed(freed);
    GrantSound(freed);
    assert |freed.inProgress| == |s.inProgress| - 1;
    assert !Has(s.waiting, x);
  }

  lemma ServedNone<T>(s: State<T>)
    ensures Served(s, s, 0)
  {
    assert s.waiting[..0] == [] && Callbacks<T>([]) == [];
  }

  lemma ServedLeft<T>(s: State<T>, t: State<T>, n: nat)
    requires Served(s, t, n)
    ensures |t.waiting| == |s.waiting| - n
  {
  }

  lemma StepCancels<T>(s: State<T>, op: Op<T>)
    requires op.Cancel?
    ensures Step(s, op) == Cancelled(s, op.item)
  {
  }

  /** With all slots in use, n releases serve exactly the first n waiting items,
      in order: the item in place n is served by the n-th release at the latest. */
  lemma {:induction false} ReleasesServeInOrder<T>(s: State<T>, ops: seq<Op<T>>)
    requires WellFormed(s) && Saturated(s) && |s.inProgress| <= s.maxAllowed && Releases(s, ops)
    ensures Served(s, Run(s, ops), Min(|ops|, |s.waiting|))
    decreases |ops|
  {
    hide Served, WellFormed, Saturated, Cancelled, Step;
    if ops == [] {
      ServedNone(s);
    } else {
      var next := Step(s, ops[0]);
      StepCancels(s, ops[0]);
      ReleaseServesFront(s, ops[0].item);
      var a, b := Min(1, |s.waiting|), Min(|ops| - 1, |next.waiting|);
      ReleasesServeInOrder(next, ops[1..]);
      ServedTwice(s, next, Run(s, ops), a, b);
      assert a + b == Min(|ops|, |s.waiting|) by {
        ServedLeft(s, next, a);
      }
    }
  }
}
