/** The reservation scheduler of common/AsyncReserver.h.

    The class keeps one list per priority, an index from items to list nodes,
    and the set of items that hold a slot.  Its methods are proved to act on the
    waiting list, which is all queues in one sequence in the order in which they
    will be served, by the operations of `Reservations`. */
module AsyncReserver {
  import opened Ordered
  import opened Reservations

  /** A list node.  A list iterator is a reference to one, so it stays good while
      other nodes come and go. */
  class ListNode<T> {
    const item: T
    const onReserved: Context

    constructor (item: T, onReserved: Context)
      ensures this.item == item && this.onReserved == onReserved
    {
      this.item := item;
      this.onReserved := onReserved;
    }
  }

  /** The first priority in reverse map order: higher ones come first. */
  ghost function Top(priorities: set<nat>): (p: nat)
    requires priorities != {}
    ensures IsFirst(p, priorities, Above)
  {
    First(priorities, Above)
  }

  ghost function Row<T>(prio: nat, nodes: seq<ListNode<T>>): (r: seq<Waiting<T>>)
    ensures |r| == |nodes|
    ensures forall i | 0 <= i < |r| :: r[i] == Waiting(prio, nodes[i].item, nodes[i].onReserved)
  {
    seq(|nodes|, i requires 0 <= i < |nodes| => Waiting(prio, nodes[i].item, nodes[i].onReserved))
  }

  /** The queues of some priorities, in serving order. */
  ghost function Flat<T>(queues: Queues<T>, priorities: set<nat>): seq<Waiting<T>>
    requires priorities <= queues.Keys
  {
    if priorities == {} then []
    else
      var p := Top(priorities);
      Row(p, queues[p]) + Flat(queues, priorities - {p})
  }

  lemma FlatTop<T>(q: Queues<T>, priorities: set<nat>)
    requires priorities != {} && priorities <= q.Keys
    ensures Flat(q, priorities)
         == Row(Top(priorities), q[Top(priorities)]) + Flat(q, priorities - {Top(priorities)})
  {
  }

  lemma {:induction false} FlatDepends<T>(q: Queues<T>, r: Queues<T>, priorities: set<nat>)
    requires priorities <= q.Keys && priorities <= r.Keys
    requires forall p | p in priorities :: q[p] == r[p]
    ensures Flat(q, priorities) == Flat(r, priorities)
  {
    if priorities != {} {
      FlatDepends(q, r, priorities - {Top(priorities)});
    }
  }

  /** push_back on one queue is insertion into the waiting list. */
  lemma {:induction false} FlatPush<T>(q: Queues<T>, priorities: set<nat>, p: nat, node: ListNode<T>)
    requires p in priorities && priorities <= q.Keys
    ensures Flat(q[p := q[p] + [node]], priorities)
         == Insert(Flat(q, priorities), Waiting(p, node.item, node.onReserved))
  {
    var top := Top(priorities);
    var w := Waiting(p, node.item, node.onReserved);
    var r := q[p := q[p] + [node]];
    var rest := priorities - {top};
    if top == p {
      FlatDepends(q, r, rest);
      assert Row(p, r[p]) == Row(p, q[p]) + [w];
      FlatBelow(q, rest, p);
      InsertAfter(Row(p, q[p]), Flat(q, rest), w);
      InsertFront(Flat(q, rest), w);
      Assoc(Row(p, q[p]), [w], Flat(q, rest));
    } else {
      FlatPush(q, rest, p, node);
      InsertAfter(Row(top, q[top]), Flat(q, rest), w);
    }
  }

  lemma {:induction false} FlatBelow<T>(q: Queues<T>, priorities: set<nat>, p: nat)
    requires priorities <= q.Keys && forall x | x in priorities :: x < p
    ensures forall w | w in Flat(q, priorities) :: w.prio < p
  {
    if priorities != {} {
      FlatBelow(q, priorities - {Top(priorities)}, p);
    }
  }

  /** A priority whose queue is empty does not show. */
  lemma {:induction false} FlatEmpty<T>(q: Queues<T>, priorities: set<nat>, p: nat)
    requires p in priorities && priorities <= q.Keys && q[p] == []
    ensures Flat(q, priorities) == Flat(q, priorities - {p})
  {
    var top := Top(priorities);
    if top == p {
      assert Row(p, q[p]) == [];
    } else {
      FlatEmpty(q, priorities - {top}, p);
      assert IsFirst(top, priorities - {p}, Above);
      assert Top(priorities - {p}) == top;
      assert priorities - {p} - {top} == priorities - {top} - {p};
    }
  }

  type Queues<T> = map<nat, seq<ListNode<T>>>
  type Pointers<T> = map<T, (nat, ListNode<T>)>

  /** queue_pointers is an index of the queues: it finds every queued node under
      its item, with its priority, and nothing else; no node is queued twice. */
  ghost predicate Indexed<T>(queues: Queues<T>, pointers: Pointers<T>) {
    && (forall p, i | p in queues && 0 <= i < |queues[p]| ::
          queues[p][i].item in pointers && pointers[queues[p][i].item] == (p, queues[p][i]))
    && (forall x | x in pointers ::
          pointers[x].0 in queues && pointers[x].1 in queues[pointers[x].0] && pointers[x].1.item == x)
    && (forall p, i, j | p in queues && 0 <= i < j < |queues[p]| :: queues[p][i] != queues[p][j])
  }

  lemma PushIndexed<T>(queues: Queues<T>, pointers: Pointers<T>, p: nat, node: ListNode<T>)
    requires Indexed(queues, pointers) && p in queues && node.item !in pointers
    ensures Indexed(queues[p := queues[p] + [node]], pointers[node.item := (p, node)])
  {
  }

  lemma ErasedNodes<T>(queues: Queues<T>, pointers: Pointers<T>, p: nat, i: nat, j: nat)
    requires Indexed(queues, pointers) && p in queues && i < |queues[p]| && j < |queues[p]| && i != j
    ensures queues[p][j].item != queues[p][i].item && queues[p][j].item in pointers
    ensures pointers[queues[p][j].item] == (p, queues[p][j])
  {
  }

  /** q is the queue of priority p without x: what is left is still indexed. */
  lemma ReplaceIndexed<T>(queues: Queues<T>, pointers: Pointers<T>, p: nat, q: seq<ListNode<T>>, x: T)
    requires Indexed(queues, pointers) && p in queues
    requires forall j | 0 <= j < |q| :: q[j].item != x && q[j].item in pointers && pointers[q[j].item] == (p, q[j])
    requires forall j, k | 0 <= j < k < |q| :: q[j] != q[k]
    requires forall y | y in pointers && y != x && pointers[y].0 == p :: pointers[y].1 in q
    requires x in pointers && pointers[x].0 == p
    ensures Indexed(queues[p := q], pointers - {x})
  {
  }

  lemma EraseIndexed<T>(queues: Queues<T>, pointers: Pointers<T>, p: nat, i: nat)
    requires Indexed(queues, pointers) && p in queues && i < |queues[p]|
    ensures Indexed(queues[p := queues[p][..i] + queues[p][i + 1..]], pointers - {queues[p][i].item})
  {
    var nodes := queues[p];
    var q, x := nodes[..i] + nodes[i + 1..], nodes[i].item;
    assert forall j | 0 <= j < |q| :: q[j] == nodes[if j < i then j else j + 1];
    forall j | 0 <= j < |q|
      ensures q[j].item != x && q[j].item in pointers && pointers[q[j].item] == (p, q[j])
    {
      ErasedNodes(queues, pointers, p, i, if j < i then j else j + 1);
    }
    forall y | y in pointers && y != x && pointers[y].0 == p ensures pointers[y].1 in q {
      var j :| 0 <= j < |nodes| && nodes[j] == pointers[y].1;
      assert q[if j < i then j else j - 1] == pointers[y].1;
    }
    ReplaceIndexed(queues, pointers, p, q, x);
  }

  /** erase through an iterator is removal from the waiting list. */
  lemma {:induction false} FlatErase<T>(queues: Queues<T>, pointers: Pointers<T>, priorities: set<nat>, p: nat, i: nat)
    requires Indexed(queues, pointers) && p in priorities && priorities <= queues.Keys && i < |queues[p]|
    ensures var flat, x := Flat(queues, priorities), queues[p][i].item;
            && Flat(queues[p := queues[p][..i] + queues[p][i + 1..]], priorities) == Remove(flat, x)
            && Has(flat, x) && CallbackOf(flat, x) == queues[p][i].onReserved
  {
    var top := Top(priorities);
    var rest := Flat(queues, priorities - {top});
    var x := queues[p][i].item;
    var r := queues[p := queues[p][..i] + queues[p][i + 1..]];
    FlatTop(queues, priorities);
    FlatTop(r, priorities);
    if top == p {
      FlatDepends(queues, r, priorities - {top});
      RowErase(p, queues[p], i, rest);
    } else {
      FlatErase(queues, pointers, priorities - {top}, p, i);
      RemoveAfter(Row(top, queues[top]), rest, x);
    }
  }

  lemma RowErase<T>(p: nat, nodes: seq<ListNode<T>>, i: nat, rest: seq<Waiting<T>>)
    requires i < |nodes| && forall j | 0 <= j < i :: nodes[j].item != nodes[i].item
    ensures var flat, x := Row(p, nodes) + rest, nodes[i].item;
            && Row(p, nodes[..i] + nodes[i + 1..]) + rest == Remove(flat, x)
            && Has(flat, x) && CallbackOf(flat, x) == nodes[i].onReserved
  {
    var row := Row(p, nodes);
    var before, after := row[..i], row[i + 1..] + rest;
    assert row + rest == before + ([row[i]] + after);
    assert ([row[i]] + after)[0] == row[i] && ([row[i]] + after)[1..] == after;
    RemoveAfter(before, [row[i]] + after, nodes[i].item);
    assert Row(p, nodes[..i] + nodes[i + 1..]) == before + row[i + 1..];
    Assoc(before, row[i + 1..], rest);
  }

  /** Priorities whose queues are empty can be skipped. */
  lemma {:induction false} FlatSkip<T>(q: Queues<T>, all: set<nat>, left: set<nat>)
    requires left <= all <= q.Keys && forall p | p in all - left :: q[p] == []
    ensures Flat(q, all) == Flat(q, left)
    decreases all
  {
    if left != all {
      var p :| p in all - left;
      FlatEmpty(q, all, p);
      FlatSkip(q, all - {p}, left);
    }
  }

  lemma RowTail<T>(p: nat, nodes: seq<ListNode<T>>)
    requires nodes != []
    ensures Row(p, nodes)[0] == Waiting(p, nodes[0].item, nodes[0].onReserved)
    ensures Row(p, nodes)[1..] == Row(p, nodes[1..])
  {
  }

  lemma FlatPop<T>(q: Queues<T>, left: set<nat>, p: nat)
    requires left != {} && left <= q.Keys && p == Top(left) && q[p] != []
    ensures var flat := Flat(q, left);
            && flat != []
            && flat[0] == Waiting(p, q[p][0].item, q[p][0].onReserved)
            && Flat(q[p := q[p][1..]], left) == flat[1..]
  {
    var r, rest := q[p := q[p][1..]], Flat(q, left - {p});
    FlatTop(q, left);
    FlatTop(r, left);
    FlatDepends(q, r, left - {p});
    RowTail(p, q[p]);
    TailOfConcat(Row(p, q[p]), rest);
  }

  /** Every priority outside `left` has an empty queue. */
  ghost predicate Visited<T>(q: Queues<T>, left: set<nat>) {
    left <= q.Keys && forall p | p in q.Keys - left :: q[p] == []
  }

  lemma VisitedNext<T>(q: Queues<T>, left: set<nat>, p: nat)
    requires Visited(q, left) && p in left && q[p] == []
    ensures Visited(q, left - {p})
  {
  }

  lemma IndexedQueues<T>(queues: Queues<T>, pointers: Pointers<T>, item: T)
    requires Indexed(queues, pointers)
    ensures item in pointers ==> pointers[item].0 in queues
  {
  }

  lemma HeadIndexed<T>(q: Queues<T>, pointers: Pointers<T>, p: nat)
    requires Indexed(q, pointers) && p in q && q[p] != []
    ensures q[p][0].item in pointers
  {
  }

  /** Popping the front of the topmost queue that is left pops the waiting list. */
  lemma PopFront<T>(q: Queues<T>, pointers: Pointers<T>, left: set<nat>, p: nat)
    requires Indexed(q, pointers) && Visited(q, left) && left != {} && p == Top(left) && q[p] != []
    ensures var flat, r := Flat(q, q.Keys), q[p := q[p][1..]];
            && flat != []
            && flat[0] == Waiting(p, q[p][0].item, q[p][0].onReserved)
            && r.Keys == q.Keys && Flat(r, r.Keys) == flat[1..]
            && Visited(r, left)
            && Indexed(r, pointers - {q[p][0].item})
  {
    hide Indexed, Flat, Top;
    var r := q[p := q[p][1..]];
    assert q[p][..0] + q[p][1..] == q[p][1..];
    EraseIndexed(q, pointers, p, 0);
    assert r.Keys == q.Keys;
    FlatSkip(q, q.Keys, left);
    FlatPop(q, left, p);
    FlatSkip(r, r.Keys, left);
  }

  /** queues[prio]: std::map makes an empty list when there is none. */
  function WithQueue<T>(q: Queues<T>, prio: nat): (r: Queues<T>)
    ensures prio in r
  {
    if prio in q then q else q[prio := []]
  }

  lemma WithQueueSame<T>(q: Queues<T>, pointers: Pointers<T>, prio: nat)
    requires Indexed(q, pointers)
    ensures var m := WithQueue(q, prio); Indexed(m, pointers) && Flat(m, m.Keys) == Flat(q, q.Keys)
  {
    var m := WithQueue(q, prio);
    if prio !in q {
      FlatEmpty(m, m.Keys, prio);
      assert m.Keys - {prio} == q.Keys;
      FlatDepends(q, m, q.Keys);
    }
  }

  /** Queueing a new node inserts into the waiting list. */
  lemma PushBack<T>(q: Queues<T>, pointers: Pointers<T>, prio: nat, node: ListNode<T>)
    requires Indexed(q, pointers) && node.item !in pointers
    ensures var m := WithQueue(q, prio);
            var r := m[prio := m[prio] + [node]];
            && Indexed(r, pointers[node.item := (prio, node)])
            && Flat(r, r.Keys) == Insert(Flat(q, q.Keys), Waiting(prio, node.item, node.onReserved))
  {
    var m := WithQueue(q, prio);
    WithQueueSame(q, pointers, prio);
    PushIndexed(m, pointers, prio, node);
    FlatPush(m, m.Keys, prio, node);
    assert m[prio := m[prio] + [node]].Keys == m.Keys;
  }

  /** Erasing a node through its iterator removes its item from the waiting list. */
  lemma EraseNode<T>(q: Queues<T>, pointers: Pointers<T>, prio: nat, i: nat)
    requires Indexed(q, pointers) && prio in q && i < |q[prio]|
    ensures var x := q[prio][i].item;
            var r := q[prio := q[prio][..i] + q[prio][i + 1..]];
            && Indexed(r, pointers - {x})
            && Has(Flat(q, q.Keys), x) && CallbackOf(Flat(q, q.Keys), x) == q[prio][i].onReserved
            && Flat(r, r.Keys) == Remove(Flat(q, q.Keys), x)
  {
    EraseIndexed(q, pointers, prio, i);
    FlatErase(q, pointers, q.Keys, prio, i);
    assert q[prio := q[prio][..i] + q[prio][i + 1..]].Keys == q.Keys;
  }

  class AsyncReserver<T(==,!new)> {
    var maxAllowed: nat
    var queues: Queues<T>
    var queuePointers: Pointers<T>
    var inProgress: set<T>
    var finisher: seq<Context>  // what the finisher was given, in order
    var deleted: seq<Context>   // the callbacks freed by delete

    ghost predicate Valid()
      reads this
    {
      Indexed(queues, queuePointers) && queuePointers.Keys !! inProgress
    }

    /** The state as a single waiting list. */
    ghost function Abstract(): State<T>
      reads this
    {
      State(maxAllowed, Flat(queues, queues.Keys), inProgress, finisher, deleted)
    }

    constructor (maxAllowed: nat)
      ensures Valid() && Abstract() == Initial(maxAllowed)
    {
      this.maxAllowed := maxAllowed;
      queues, queuePointers, inProgress, finisher, deleted := map[], map[], {}, [], [];
    }

    /** The body of the inner loop: the front of the topmost queue gets a slot. */
    method GrantFront(p: nat, ghost left: set<nat>, ghost start: State<T>, ghost g: nat)
      requires Valid() && Visited(queues, left) && left != {} && p == Top(left) && queues[p] != []
      requires Granting(start, Abstract(), g) && |inProgress| < maxAllowed
      modifies this
      ensures Valid() && Visited(queues, left) && queues.Keys == old(queues.Keys)
      ensures |queues[p]| == |old(queues[p])| - 1
      ensures Granting(start, Abstract(), g + 1)
    {
      hide Indexed, Flat, Granting, Top;
      ghost var now := Abstract();
      HeadIndexed(queues, queuePointers, p);
      PopFront(queues, queuePointers, left, p);
      var node := queues[p][0];
      queuePointers := queuePointers - {node.item};
      queues := queues[p := queues[p][1..]];
      finisher := finisher + [node.onReserved];
      inProgress := inProgress + {node.item};
      assert Abstract() == GrantedOne(now);
      GrantingNext(start, now, g);
    }

    /** The inner loop: serve one queue while there are free slots. */
    method ServeQueue(p: nat, ghost left: set<nat>, ghost start: State<T>, ghost g0: nat) returns (ghost g: nat)
      requires Valid() && Visited(queues, left) && left != {} && p == Top(left)
      requires Granting(start, Abstract(), g0)
      modifies this
      ensures Valid() && queues.Keys == old(queues.Keys)
      ensures Visited(queues, left - {p}) || |inProgress| >= maxAllowed
      ensures Granting(start, Abstract(), g)
    {
      g := g0;
      while |inProgress| < maxAllowed && queues[p] != []
        invariant Valid() && queues.Keys == old(queues.Keys) && Visited(queues, left)
        invariant Granting(start, Abstract(), g)
        decreases |queues[p]|
      {
        GrantFront(p, left, start, g);
        g := g + 1;
      }
      if queues[p] == [] {
        VisitedNext(queues, left, p);
      }
    }

    /** do_queues: the queues from the highest priority down. */
    method DoQueues()
      requires Valid()
      modifies this
      ensures Valid() && queues.Keys == old(queues.Keys)
      ensures Abstract() == Grant(old(Abstract()))
    {
      ghost var start, g := Abstract(), 0;
      GrantedNone(start);
      var left := queues.Keys;
      while left != {} && |inProgress| < maxAllowed
        invariant Valid() && queues.Keys == old(queues.Keys)
        invariant Visited(queues, left) || |inProgress| >= maxAllowed
        invariant Granting(start, Abstract(), g)
        decreases left
      {
        var p := Topmost(left);
        g := ServeQueue(p, left, start, g);
        left := left - {p};
      }
      if |inProgress| < maxAllowed {
        FlatSkip(queues, queues.Keys, {});
      }
      GrantingDone(start, Abstract(), g);
    }

    method SetMax(max: nat)
      requires Valid()
      modifies this
      ensures Valid()
      ensures Abstract() == Grant(old(Abstract()).(maxAllowed := max))
    {
      maxAllowed := max;
      DoQueues();
    }

    /** The first half of request_reservation: the item joins the queue of its
        priority, which is made if there is none. */
    method Enqueue(item: T, onReserved: Context, prio: nat)
      requires Valid() && item !in queuePointers && item !in inProgress
      modifies this
      ensures Valid()
      ensures Abstract()
           == old(Abstract()).(waiting := Insert(old(Abstract()).waiting, Waiting(prio, item, onReserved)))
    {
      var node := new ListNode(item, onReserved);
      PushBack(queues, queuePointers, prio, node);
      queues := WithQueue(queues, prio);
      queues := queues[prio := queues[prio] + [node]];
      queuePointers := queuePointers[item := (prio, node)];
    }

    /** request_reservation.  The source asserts that the item neither waits nor
        holds a slot. */
    method RequestReservation(item: T, onReserved: Context, prio: nat)
      requires Valid() && item !in queuePointers && item !in inProgress
      modifies this
      ensures Valid()
      ensures Abstract() == Requested(old(Abstract()), item, onReserved, prio)
    {
      Enqueue(item, onReserved, prio);
      DoQueues();
    }

    /** Cancelling an item that still waits: delete the callback, erase the
        node through its iterator, drop the iterator. */
    method Unqueue(item: T)
      requires Valid() && item in queuePointers
      modifies this
      ensures Valid() && Has(old(Abstract()).waiting, item)
      ensures Abstract() == Withdrawn(old(Abstract()), item)
    {
      hide Flat, Remove, CallbackOf, Has;
      var (prio, node) := queuePointers[item];
      var i := FindNode(queues[prio], node);
      EraseNode(queues, queuePointers, prio, i);
      deleted := deleted + [node.onReserved];
      queues := queues[prio := queues[prio][..i] + queues[prio][i + 1..]];
      queuePointers := queuePointers - {item};
    }

    method CancelReservation(item: T)
      requires Valid()
      modifies this
      ensures Valid()
      ensures Abstract() == Cancelled(old(Abstract()), item)
    {
      hide Flat, Indexed, Has, Grant, Remove, CallbackOf;
      FlatIndexed(queues, queuePointers, queues.Keys, item);
      IndexedQueues(queues, queuePointers, item);
      if item in queuePointers {
        Unqueue(item);
      } else {
        inProgress := inProgress - {item};
      }
      DoQueues();
    }
  }

  /** rbegin() of what is left. */
  method Topmost(left: set<nat>) returns (p: nat)
    requires left != {}
    ensures p in left && p == Top(left)
  {
    p := Least(left, Above);
    FirstIs(p, left, Above);
  }

  /** The place of the node that an iterator refers to. */
  method FindNode<T>(nodes: seq<ListNode<T>>, node: ListNode<T>) returns (i: nat)
    requires node in nodes
    ensures i < |nodes| && nodes[i] == node
  {
    i := 0;
    while nodes[i] != node
      invariant i < |nodes| && node in nodes[i..]
      decreases |nodes| - i
    {
      assert nodes[i..] == [nodes[i]] + nodes[i + 1..];
      i := i + 1;
    }
  }

  lemma HasConcat<T>(a: seq<Waiting<T>>, b: seq<Waiting<T>>, item: T)
    ensures Has(a + b, item) <==> Has(a, item) || Has(b, item)
  {
    if i: nat :| i < |a + b| && (a + b)[i].item == item {
      assert if i < |a| then a[i].item == item else b[i - |a|].item == item;
    }
    if i: nat :| i < |a| && a[i].item == item {
      assert (a + b)[i].item == item;
    }
    if i: nat :| i < |b| && b[i].item == item {
      assert (a + b)[|a| + i].item == item;
    }
  }

  lemma RowIndexed<T>(queues: Queues<T>, pointers: Pointers<T>, p: nat, item: T)
    requires Indexed(queues, pointers) && p in queues
    ensures Has(Row(p, queues[p]), item) <==> item in pointers && pointers[item].0 == p
  {
    var row := Row(p, queues[p]);
    if item in pointers && pointers[item].0 == p {
      var i :| 0 <= i < |queues[p]| && queues[p][i] == pointers[item].1;
      assert row[i].item == item;
    }
  }

  /** The waiting items are the indexed ones. */
  lemma {:induction false} FlatIndexed<T>(queues: Queues<T>, pointers: Pointers<T>, priorities: set<nat>, item: T)
    requires Indexed(queues, pointers) && priorities <= queues.Keys
    ensures Has(Flat(queues, priorities), item) <==> item in pointers && pointers[item].0 in priorities
  {
    if priorities != {} {
      var top := Top(priorities);
      FlatIndexed(queues, pointers, priorities - {top}, item);
      RowIndexed(queues, pointers, top, item);
      HasConcat(Row(top, queues[top]), Flat(queues, priorities - {top}), item);
    }
  }
}
