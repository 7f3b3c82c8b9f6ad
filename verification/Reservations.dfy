/** Reservations on a single waiting list: what AsyncReserver does, without its
    queues and iterators. */
module Reservations {
  import opened Basics

  /** A Context*: the callback of a request. */
  type Context = nat

  datatype Waiting<T> = Waiting(prio: nat, item: T, onReserved: Context)

  datatype State<T> = State(
    maxAllowed: nat,
    waiting: seq<Waiting<T>>,       // in serving order
    inProgress: set<T>,             // items that hold a slot
    finished: seq<Context>,         // callbacks handed to the finisher
    deleted: seq<Context>)          // callbacks deleted by cancel

  function Initial<T>(maxAllowed: nat): State<T> {
    State(maxAllowed, [], {}, [], [])
  }

  /** Behind everything of the same or a higher priority. */
  function Insert<T>(q: seq<Waiting<T>>, w: Waiting<T>): seq<Waiting<T>> {
    if q == [] || q[0].prio < w.prio then [w] + q else [q[0]] + Insert(q[1..], w)
  }

  function Items<T>(q: seq<Waiting<T>>): set<T> {
    set w | w in q :: w.item
  }

  function Callbacks<T>(q: seq<Waiting<T>>): (r: seq<Context>)
    ensures |r| == |q| && forall i | 0 <= i < |q| :: r[i] == q[i].onReserved
  {
    seq(|q|, i requires 0 <= i < |q| => q[i].onReserved)
  }

  /** The number of free slots that can be used now. */
  function Grantable<T>(s: State<T>): nat {
    if |s.inProgress| < s.maxAllowed then Min(s.maxAllowed - |s.inProgress|, |s.waiting|) else 0
  }

  /** do_queues */
  function Grant<T>(s: State<T>): State<T> {
    var k := Grantable(s);
    s.(waiting := s.waiting[k..],
       inProgress := s.inProgress + Items(s.waiting[..k]),
       finished := s.finished + Callbacks(s.waiting[..k]))
  }

  lemma {:induction false} InsertAfter<T>(a: seq<Waiting<T>>, b: seq<Waiting<T>>, w: Waiting<T>)
    requires forall x | x in a :: x.prio >= w.prio
    ensures Insert(a + b, w) == a + Insert(b, w)
  {
    if a == [] {
      assert a + b == b;
    } else {
      assert a[0] in a && (a + b)[1..] == a[1..] + b;
      InsertAfter(a[1..], b, w);
    }
  }

  lemma InsertFront<T>(b: seq<Waiting<T>>, w: Waiting<T>)
    requires forall x | x in b :: x.prio < w.prio
    ensures Insert(b, w) == [w] + b
  {
  }

  /** The waiting list without the first entry for an item. */
  function Remove<T(==)>(q: seq<Waiting<T>>, item: T): seq<Waiting<T>> {
    if q == [] then []
    else if q[0].item == item then q[1..]
    else [q[0]] + Remove(q[1..], item)
  }

  predicate Has<T(==)>(q: seq<Waiting<T>>, item: T) {
    exists i | 0 <= i < |q| :: q[i].item == item
  }

  /** The callback of the first entry for an item. */
  function CallbackOf<T(==)>(q: seq<Waiting<T>>, item: T): Context
    requires Has(q, item)
  {
    if q[0].item == item then q[0].onReserved else CallbackOf(q[1..], item)
  }

  lemma {:induction false} RemoveAfter<T>(a: seq<Waiting<T>>, b: seq<Waiting<T>>, item: T)
    requires forall w | w in a :: w.item != item
    ensures Remove(a + b, item) == a + Remove(b, item)
    ensures Has(b, item) ==> Has(a + b, item) && CallbackOf(a + b, item) == CallbackOf(b, item)
  {
    if a == [] {
      assert a + b == b;
    } else {
      assert a[0] in a && (a + b)[1..] == a[1..] + b;
      RemoveAfter(a[1..], b, item);
      if Has(b, item) {
        var i :| 0 <= i < |b| && b[i].item == item;
        assert (a + b)[|a| + i].item == item;
      }
    }
  }

  /** After the first g grants of a state. */
  function Granted<T>(s: State<T>, g: nat): State<T>
    requires g <= |s.waiting|
  {
    s.(waiting := s.waiting[g..],
       inProgress := s.inProgress + Items(s.waiting[..g]),
       finished := s.finished + Callbacks(s.waiting[..g]))
  }

  lemma GrantedNext<T>(s: State<T>, g: nat)
    requires g < |s.waiting|
    ensures var t, w := Granted(s, g), s.waiting[g];
            Granted(s, g + 1) == t.(waiting := t.waiting[1..], inProgress := t.inProgress + {w.item},
                                    finished := t.finished + [w.onReserved])
  {
    assert s.waiting[..g + 1] == s.waiting[..g] + [s.waiting[g]];
    assert Callbacks(s.waiting[..g + 1]) == Callbacks(s.waiting[..g]) + [s.waiting[g].onReserved];
    assert Items(s.waiting[..g + 1]) == Items(s.waiting[..g]) + {s.waiting[g].item};
  }

  lemma GrantedNone<T>(s: State<T>)
    ensures Granted(s, 0) == s
  {
    assert s.waiting[0..] == s.waiting && s.waiting[..0] == [];
  }

  /** The first waiting item gets a slot. */
  function GrantedOne<T>(s: State<T>): State<T>
    requires s.waiting != []
  {
    var w := s.waiting[0];
    s.(waiting := s.waiting[1..], inProgress := s.inProgress + {w.item}, finished := s.finished + [w.onReserved])
  }

  /** The state during do_queues, after g grants. */
  ghost predicate Granting<T>(start: State<T>, now: State<T>, g: nat) {
    && g <= |start.waiting| && now == Granted(start, g)
    && |now.inProgress| == |start.inProgress| + g
    && (g > 0 ==> |now.inProgress| <= now.maxAllowed)
  }

  lemma GrantingNext<T>(start: State<T>, now: State<T>, g: nat)
    requires Granting(start, now, g) && now.waiting != [] && |now.inProgress| < now.maxAllowed
    requires |GrantedOne(now).inProgress| == |now.inProgress| + 1
    ensures Granting(start, GrantedOne(now), g + 1)
  {
    GrantedNext(start, g);
    assert now.waiting[0] == start.waiting[g];
  }

  /** do_queues ends when the slots are full or nobody waits. */
  lemma GrantingDone<T>(start: State<T>, now: State<T>, g: nat)
    requires Granting(start, now, g) && (|now.inProgress| < now.maxAllowed ==> now.waiting == [])
    ensures now == Grant(start)
  {
    assert g == Grantable(start);
  }

  /** request_reservation, for an item that neither waits nor holds a slot. */
  function Requested<T>(s: State<T>, item: T, onReserved: Context, prio: nat): State<T> {
    Grant(s.(waiting := Insert(s.waiting, Waiting(prio, item, onReserved))))
  }

  /** A waiting item leaves the list and its callback is deleted. */
  function Withdrawn<T(==)>(s: State<T>, item: T): State<T>
    requires Has(s.waiting, item)
  {
    s.(waiting := Remove(s.waiting, item), deleted := s.deleted + [CallbackOf(s.waiting, item)])
  }

  /** cancel_reservation */
  function Cancelled<T(==)>(s: State<T>, item: T): State<T> {
    Grant(if Has(s.waiting, item) then Withdrawn(s, item) else s.(inProgress := s.inProgress - {item}))
  }
}
