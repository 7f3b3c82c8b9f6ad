/** What one call does to the reservations, spelled out: who gets a slot, whose callback
    is finished, and whose is deleted. */
module ReservationSteps {
  import opened ReservationRuns
  import opened Reservations

  /** Between calls: see RunKeepsShape. */
  predicate Settled<T(==)>(s: State<T>) {
    WellFormed(s) && Saturated(s)
  }

  lemma GrantNothing<T>(s: State<T>)
    requires Saturated(s)
    ensures Grant(s) == s
  {
    GrantedNone(s);
  }

  lemma GrantFirst<T>(s: State<T>)
    requires s.waiting != [] && |s.inProgress| < s.maxAllowed
    requires |s.waiting| == 1 || |s.inProgress| + 1 == s.maxAllowed
    ensures var w := s.waiting[0];
            Grant(s) == s.(waiting := s.waiting[1..], inProgress := s.inProgress + {w.item},
                           finished := s.finished + [w.onReserved])
  {
    assert Grantable(s) == 1;
    GrantedNone(s);
    GrantedNext(s, 0);
  }

  /** A request gets a slot at once if one is free; otherwise it waits, behind the
      requests of its own and higher priorities and in front of the lower ones. */
  lemma RequestExact<T>(s: State<T>, item: T, onReserved: Context, prio: nat) returns (k: nat)
    requires Settled(s) && !Has(s.waiting, item) && item !in s.inProgress
    ensures k <= |s.waiting|
    ensures forall i | 0 <= i < k :: s.waiting[i].prio >= prio
    ensures forall i | k <= i < |s.waiting| :: s.waiting[i].prio < prio
    ensures Step(s, Request(item, onReserved, prio))
         == if |s.inProgress| < s.maxAllowed then
              State(s.maxAllowed, [], s.inProgress + {item}, s.finished + [onReserved], s.deleted)
            else
              s.(waiting := s.waiting[..k] + [Waiting(prio, item, onReserved)] + s.waiting[k..])
  {
    hide Has, Insert, Grant;
    var w := Waiting(prio, item, onReserved);
    k := InsertPlace(s.waiting, w);
    var next := s.(waiting := Insert(s.waiting, w));
    if |s.inProgress| < s.maxAllowed {
      assert next.waiting == [w] && [w][1..] == [];
      GrantFirst(next);
    } else {
      GrantNothing(next);
    }
  }

  /** Cancelling what waits takes it off the list and deletes its callback; nobody gets
      a slot. */
  lemma CancelWaiting<T>(s: State<T>, k: nat)
    requires Settled(s) && k < |s.waiting|
    ensures Step(s, Cancel(s.waiting[k].item))
         == s.(waiting := s.waiting[..k] + s.waiting[k + 1..], deleted := s.deleted + [s.waiting[k].onReserved])
  {
    hide Remove, CallbackOf, Grant;
    var item := s.waiting[k].item;
    var j := RemovePlace(s.waiting, item);
    var next := Withdrawn(s, item);
    assert j == k;
    GrantNothing(next);
  }

  /** Giving back a slot passes it on to the first who waits, unless more slots are held
      than are allowed; the callback of the holder is neither finished nor deleted again. */
  lemma CancelHeld<T>(s: State<T>, item: T)
    requires Settled(s) && item in s.inProgress
    ensures Step(s, Cancel(item))
         == if s.waiting == [] || |s.inProgress| > s.maxAllowed then s.(inProgress := s.inProgress - {item})
            else s.(waiting := s.waiting[1..], inProgress := s.inProgress - {item} + {s.waiting[0].item},
                    finished := s.finished + [s.waiting[0].onReserved])
  {
    hide Grant;
    assert !Has(s.waiting, item);
    var next := s.(inProgress := s.inProgress - {item});
    assert |next.inProgress| == |s.inProgress| - 1;
    if s.waiting == [] || |s.inProgress| > s.maxAllowed {
      GrantNothing(next);
    } else {
      GrantFirst(next);
    }
  }

  /** Cancelling what neither waits nor holds a slot does nothing. */
  lemma CancelUnknown<T>(s: State<T>, item: T)
    requires Settled(s) && !Has(s.waiting, item) && item !in s.inProgress
    ensures Step(s, Cancel(item)) == s
  {
    hide Grant;
    assert s.inProgress - {item} == s.inProgress;
    GrantNothing(s);
  }

  /** The slots that a limit leaves free for those who wait. */
  function Free<T>(s: State<T>, max: nat): nat {
    if max <= |s.inProgress| then 0
    else if max - |s.inProgress| <= |s.waiting| then max - |s.inProgress|
    else |s.waiting|
  }

  lemma ItemsServed<T>(q: seq<Waiting<T>>, k: nat)
    requires k <= |q|
    ensures Items(q[..k]) == set i | 0 <= i < k :: q[i].item
  {
    var served := q[..k];
    forall x | x in Items(served) ensures exists i | 0 <= i < k :: q[i].item == x {
      var w :| w in served && w.item == x;
      var i :| 0 <= i < k && served[i] == w;
      assert q[i].item == x;
    }
    forall i | 0 <= i < k ensures q[i].item in Items(served) {
      assert served[i] in served;
    }
  }

  /** A new limit serves as many as it has room for, in order, and takes no slot away. */
  lemma SetMaxExact<T>(s: State<T>, max: nat)
    requires Settled(s)
    ensures var t, k := Step(s, SetMax(max)), Free(s, max);
            && t.maxAllowed == max && t.waiting == s.waiting[k..] && t.deleted == s.deleted
            && t.inProgress == s.inProgress + (set i | 0 <= i < k :: s.waiting[i].item)
            && |t.finished| == |s.finished| + k && s.finished <= t.finished
            && forall i | 0 <= i < k :: t.finished[|s.finished| + i] == s.waiting[i].onReserved
  {
    hide Items, Settled;
    var k := Free(s, max);
    var served := s.waiting[..k];
    ItemsServed(s.waiting, k);
    assert Step(s, SetMax(max)).finished == s.finished + Callbacks(served);
  }
}
