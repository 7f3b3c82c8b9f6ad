/** Every interleaving of the completion protocol is safe, and ends with each
    request called back and freed exactly once. */
module QemuAioSafety {
  import opened Basics
  import opened Bytes
  import opened Ordered
  import opened QemuAio

  lemma {:induction false} PointersAppend(a: seq<Addr>, addr: Addr)
    ensures Pointers(a + [addr]) == Pointers(a) + Encode(addr, PTR_SIZE)
  {
    if a == [] {
      assert a + [addr] == [addr];
      assert Pointers([addr]) == Encode(addr, PTR_SIZE) + Pointers([]);
    } else {
      assert (a + [addr])[1..] == a[1..] + [addr];
      PointersAppend(a[1..], addr);
      Assoc(Encode(a[0], PTR_SIZE), Pointers(a[1..]), Encode(addr, PTR_SIZE));
    }
  }

  lemma StartKeeps(s: State, id: nat, addr: Addr, cmd: Cmd, size: nat, bounce: seq<byte>)
    requires Inv(s) && id !in s.history && addr !in s.heap && |bounce| == BounceLength(cmd, size)
    ensures Inv(Started(s, id, addr, cmd, size, bounce))
  {
    var t := Started(s, id, addr, cmd, size, bounce);
    assert RequestOk(s, id) && AddrOk(s, addr);
    forall a ensures AddrOk(t, a) {
      assert AddrOk(s, a);
      if a in s.heap { assert RequestOk(s, s.heap[a].acb); }
    }
    forall x ensures RequestOk(t, x) {
      assert RequestOk(s, x);
    }
  }

  lemma FinishKeeps(s: State, addr: Addr, result: int, written: seq<byte>)
    requires Inv(s) && addr in s.library && FillsBounce(s, addr, written)
    ensures Finished(s, addr, result, written).Next? && Inv(Finished(s, addr, result, written).state)
  {
    hide Encode;
    var id := s.heap[addr].acb;
    assert AddrOk(s, addr) && RequestOk(s, id);
    var t := Finished(s, addr, result, written).state;
    PointersAppend(s.sent, addr);
    Assoc(s.eventRcb[..s.eventReaderPos], s.pipe, Encode(addr, PTR_SIZE));
    forall a ensures AddrOk(t, a) {
      assert AddrOk(s, a);
    }
    forall x ensures RequestOk(t, x) {
      assert RequestOk(s, x);
    }
  }

  /** What the callback gets from a settled acb. */
  lemma SettledResult(acb: Acb, h: History, r: int)
    requires !acb.error && acb.cmd == h.cmd && r == h.result
    requires acb.bounce == h.written && |acb.bounce| == BounceLength(h.cmd, h.size)
    ensures var done := Settled(acb, r, h.size);
            && (if done.ret > 0 then 0 else done.ret) == CallbackArgument(h.result)
            && done.bounce == Expected(h)
            && done.cancelled == acb.cancelled && done.inProgress == acb.inProgress
  {
    if acb.cmd == Read && r >= h.size {
      assert ZeroFrom(h.written, r) == h.written;
    }
  }

  lemma CompleteKeeps(s: State, addr: Addr)
    requires HeapOk(s) && RequestsOk(s) && s.sent != [] && s.sent[0] == addr
    ensures Completed(s, addr).Next?
    ensures HeapOk(Completed(s, addr).state) && RequestsOk(Completed(s, addr).state)
  {
    assert addr in s.sent && AddrOk(s, addr);
    var id := s.heap[addr].acb;
    assert RequestOk(s, id);
    SettledResult(s.acbs[id], s.history[id], s.heap[addr].ret);
    var t := Completed(s, addr).state;
    forall a ensures AddrOk(t, a) {
      assert AddrOk(s, a);
      SentTail(s.sent, a);
    }
    forall x ensures RequestOk(t, x) {
      assert RequestOk(s, x);
    }
  }

  lemma SentTail(sent: seq<Addr>, a: Addr)
    requires sent != [] && Distinct(sent)
    ensures a in sent[1..] <==> a in sent && a != sent[0]
  {
    if a in sent && a != sent[0] {
      var i :| 0 <= i < |sent| && sent[i] == a;
      assert sent[1..][i - 1] == a;
    }
    if a in sent[1..] {
      var i :| 0 <= i < |sent[1..]| && sent[1..][i] == a;
      assert sent[i + 1] == a;
    }
  }

  /** A read that does not fill the pointer. */
  lemma CollectKeeps(s: State, n: nat)
    requires PipeOk(s) && 0 < n <= |s.pipe| && s.eventReaderPos + n < PTR_SIZE
    ensures EventRead(s, n).Next? && PipeOk(EventRead(s, n).state)
  {
    var t := EventRead(s, n).state;
    assert t.eventRcb[..t.eventReaderPos] + t.pipe == s.eventRcb[..s.eventReaderPos] + s.pipe;
  }

  /** A read that fills the pointer has put together the oldest one sent, however
      its bytes were split. */
  lemma PointerCollected(s: State, n: nat)
    requires PipeOk(s) && 0 < n <= |s.pipe| && s.eventReaderPos + n == PTR_SIZE
    ensures var p := s.eventRcb[..s.eventReaderPos] + s.pipe[..n] + s.eventRcb[PTR_SIZE..];
            && s.sent != [] && Decode(p) == s.sent[0] && s.pipe[n..] == Pointers(s.sent[1..])
  {
    var all := s.eventRcb[..s.eventReaderPos] + s.pipe;
    var p := s.eventRcb[..s.eventReaderPos] + s.pipe[..n] + s.eventRcb[PTR_SIZE..];
    assert p == all[..PTR_SIZE];
    assert s.pipe[n..] == all[PTR_SIZE..];
    assert s.sent != [];
    var first := Encode(s.sent[0], PTR_SIZE);
    assert all == first + Pointers(s.sent[1..]);
    assert all[..PTR_SIZE] == first && all[PTR_SIZE..] == Pointers(s.sent[1..]);
    Powers();
    DecodeEncode(s.sent[0], PTR_SIZE);
  }

  lemma ReadKeeps(s: State, n: nat)
    requires Inv(s) && 0 < n <= |s.pipe| && s.eventReaderPos + n <= PTR_SIZE
    ensures EventRead(s, n).Next? && Inv(EventRead(s, n).state)
  {
    var pos := s.eventReaderPos;
    var t := Collected(s, n);
    var p := t.eventRcb;
    forall a ensures AddrOk(t, a) {
      assert AddrOk(s, a);
    }
    forall x ensures RequestOk(t, x) {
      assert RequestOk(s, x);
    }
    if pos + n < PTR_SIZE {
      CollectKeeps(s, n);
    } else {
      PointerCollected(s, n);
      PointerBound(p);
      CompleteKeeps(t, Decode(p));
      var u := Completed(t, Decode(p)).state;
      assert u.eventRcb[..0] + u.pipe == u.pipe;
    }
  }

  lemma BhKeeps(s: State, id: nat)
    requires Inv(s) && id in s.bhs
    ensures BhRun(s, id).Next? && Inv(BhRun(s, id).state)
  {
    assert RequestOk(s, id);
    var t := BhRun(s, id).state;
    forall a ensures AddrOk(t, a) {
      assert AddrOk(s, a);
    }
    forall x ensures RequestOk(t, x) {
      assert RequestOk(s, x);
      if x in s.acbs && x != id && x in s.history { assert AddrOk(s, s.history[x].addr); }
    }
  }

  lemma CancelBeginKeeps(s: State, id: nat)
    requires Inv(s) && Enabled(s, CancelBegin(id))
    ensures CancelBegun(s, id).Next? && Inv(CancelBegun(s, id).state)
  {
    var t := CancelBegun(s, id).state;
    forall a ensures AddrOk(t, a) {
      assert AddrOk(s, a);
    }
    forall x ensures RequestOk(t, x) {
      assert RequestOk(s, x);
    }
  }

  lemma CancelEndKeeps(s: State, id: nat)
    requires Inv(s) && Enabled(s, CancelEnd(id))
    ensures CancelEnded(s, id).Next? && Inv(CancelEnded(s, id).state)
  {
    assert RequestOk(s, id);
    var t := CancelEnded(s, id).state;
    forall a ensures AddrOk(t, a) {
      assert AddrOk(s, a);
    }
    forall x ensures RequestOk(t, x) {
      assert RequestOk(s, x);
    }
  }

  /** No step of any party touches freed memory, and each keeps the invariant. */
  lemma StepKeeps(s: State, a: Action)
    requires Inv(s) && Enabled(s, a)
    ensures Step(s, a).Next? && Inv(Step(s, a).state)
  {
    match a
    case Start(id, addr, cmd, size, bounce) => StartKeeps(s, id, addr, cmd, size, bounce);
    case Finish(addr, result, written) => FinishKeeps(s, addr, result, written);
    case ReadEvent(n) => ReadKeeps(s, n);
    case RunBh(id) => BhKeeps(s, id);
    case CancelBegin(id) => CancelBeginKeeps(s, id);
    case CancelEnd(id) => CancelEndKeeps(s, id);
  }

  // ----- runs -----

  /** Each action is enabled when its turn comes, unless a fault came first. */
  predicate Run(s: State, actions: seq<Action>)
    decreases |actions|
  {
    actions == [] ||
    (Enabled(s, actions[0])
     && (Step(s, actions[0]).Next? ==> Run(Step(s, actions[0]).state, actions[1..])))
  }

  function End(s: State, actions: seq<Action>): Outcome
    requires Run(s, actions)
    decreases |actions|
  {
    if actions == [] then Next(s)
    else
      match Step(s, actions[0])
      case UseAfterFree => UseAfterFree
      case Next(t) => End(t, actions[1..])
  }

  /** A request's callback never runs twice, none of its blocks is freed twice,
      and its acb is given back only after the callback. */
  ghost predicate AtMostOnce(h: History) {
    && |h.callbacks| <= 1 && h.rcbFrees <= 1 && h.releases <= 1
    && (h.releases == 1 ==> |h.callbacks| == 1) && (|h.callbacks| == 1 ==> h.rcbFrees == 1)
  }

  /** Exactly once, with an error of the library or 0, and with its data, of which a read
      gets zeros where nothing was read. */
  ghost predicate ExactlyOnce(h: History) {
    && h.rcbFrees == 1 && h.releases == 1
    && h.callbacks == [if h.result < 0 then h.result else 0]
    && |h.delivered| == |h.written|
    && forall i | 0 <= i < |h.written| :: h.delivered[i] == if h.cmd == Read && i >= h.result then 0 else h.written[i]
  }

  lemma InitialInv()
    ensures Inv(Initial())
  {
    assert Initial().eventRcb[..0] + [] == [];
  }

  lemma {:induction false} RunKeeps(s: State, actions: seq<Action>)
    requires Inv(s) && Run(s, actions)
    ensures End(s, actions).Next? && Inv(End(s, actions).state)
    decreases |actions|
  {
    if actions != [] {
      StepKeeps(s, actions[0]);
      RunKeeps(Step(s, actions[0]).state, actions[1..]);
    }
  }

  /** Safety of every run: no use after free, and at most once for everything. */
  lemma EveryRunSafe(actions: seq<Action>)
    requires Run(Initial(), actions)
    ensures var end := End(Initial(), actions);
            end.Next? && forall id | id in end.state.history :: AtMostOnce(end.state.history[id])
  {
    InitialInv();
    RunKeeps(Initial(), actions);
    var t := End(Initial(), actions).state;
    forall id | id in t.history ensures AtMostOnce(t.history[id]) {
      assert RequestOk(t, id);
    }
  }

  // ----- completion -----

  /** Nothing is left to do for the library, the reader, the bottom halves and
      the cancellers. */
  ghost predicate Quiescent(s: State) {
    && s.library == {} && s.pipe == [] && s.bhs == {}
    && forall id | id in s.cancelling :: !Enabled(s, CancelEnd(id))
  }

  /** When everything has come to rest, every request was called back exactly once
      with its own result and data, and its blocks were freed exactly once. */
  lemma QuiescentDone(s: State)
    requires Inv(s) && Quiescent(s)
    ensures s.acbs == map[] && s.heap == map[] && s.eventReaderPos == 0
    ensures forall id | id in s.history :: ExactlyOnce(s.history[id])
  {
    assert |Pointers(s.sent)| < PTR_SIZE;
    assert s.sent == [];
    forall a ensures a !in s.heap {
      assert AddrOk(s, a);
    }
    forall id ensures id !in s.acbs {
      assert RequestOk(s, id);
    }
    forall id | id in s.history ensures ExactlyOnce(s.history[id]) {
      assert RequestOk(s, id);
    }
  }

  /** The work that is left. */
  function Work(s: State): nat {
    20 * |s.library| + 10 * |s.sent| + |s.pipe| + |s.bhs| + |s.cancelling|
  }

  /** Steps that only the environment takes. */
  predicate External(a: Action) {
    a.Start? || a.CancelBegin?
  }

  lemma FinishProgresses(s: State, addr: Addr, result: int, written: seq<byte>)
    requires addr in s.library && Finished(s, addr, result, written).Next?
    ensures Work(Finished(s, addr, result, written).state) < Work(s)
  {
    assert |s.library - {addr}| == |s.library| - 1;
  }

  lemma ReadProgresses(s: State, n: nat)
    requires Inv(s) && 0 < n <= |s.pipe| && s.eventReaderPos + n <= PTR_SIZE && EventRead(s, n).Next?
    ensures Work(EventRead(s, n).state) < Work(s)
  {
    if s.eventReaderPos + n == PTR_SIZE {
      PointerCollected(s, n);
    }
  }

  lemma BhProgresses(s: State, id: nat)
    requires id in s.bhs && BhRun(s, id).Next?
    ensures Work(BhRun(s, id).state) < Work(s)
  {
    assert |s.bhs - {id}| == |s.bhs| - 1;
  }

  lemma CancelEndProgresses(s: State, id: nat)
    requires id in s.cancelling && CancelEnded(s, id).Next?
    ensures Work(CancelEnded(s, id).state) < Work(s)
  {
    assert |s.cancelling - {id}| == |s.cancelling| - 1;
  }

  /** Every step of the driver and the library brings the end nearer, so nothing
      can keep a request from completing for ever. */
  lemma StepProgresses(s: State, a: Action)
    requires Inv(s) && Enabled(s, a) && !External(a)
    ensures Step(s, a).Next? && Work(Step(s, a).state) < Work(s)
  {
    StepKeeps(s, a);
    match a
    case Finish(addr, result, written) => FinishProgresses(s, addr, result, written);
    case ReadEvent(n) => ReadProgresses(s, n);
    case RunBh(id) => BhProgresses(s, id);
    case CancelEnd(id) => CancelEndProgresses(s, id);
  }

  /** A run of such steps is no longer than the work there was. */
  lemma {:induction false} InternalRunEnds(s: State, actions: seq<Action>)
    requires Inv(s) && Run(s, actions) && forall a | a in actions :: !External(a)
    ensures |actions| <= Work(s)
    decreases |actions|
  {
    if actions != [] {
      assert actions[0] in actions;
      StepKeeps(s, actions[0]);
      StepProgresses(s, actions[0]);
      InternalRunEnds(Step(s, actions[0]).state, actions[1..]);
    }
  }

  /** Unless all is quiet, some such step is enabled. */
  lemma NotStuck(s: State) returns (a: Action)
    requires Inv(s) && !Quiescent(s)
    ensures Enabled(s, a) && !External(a)
  {
    if s.library != {} {
      var addr :| addr in s.library;
      assert AddrOk(s, addr);
      a := Finish(addr, 0, Zeros(|s.acbs[s.heap[addr].acb].bounce|));
    } else if s.pipe != [] {
      a := ReadEvent(1);
    } else if s.bhs != {} {
      var id :| id in s.bhs;
      a := RunBh(id);
    } else {
      var id :| id in s.cancelling && Enabled(s, CancelEnd(id));
      a := CancelEnd(id);
    }
  }

  /** Every run that has come to rest has completed every request, once. */
  lemma RestingRunCompletes(actions: seq<Action>)
    requires Run(Initial(), actions) && End(Initial(), actions).Next?
    requires Quiescent(End(Initial(), actions).state)
    ensures forall id | id in End(Initial(), actions).state.history ::
              ExactlyOnce(End(Initial(), actions).state.history[id])
  {
    InitialInv();
    RunKeeps(Initial(), actions);
    QuiescentDone(End(Initial(), actions).state);
  }

  // ----- answers -----

  /** The library has answered this request. */
  ghost predicate Answered(s: State, id: nat) {
    id in s.history && forall a | a in s.library && a in s.heap :: s.heap[a].acb != id
  }

  ghost predicate SameAnswer(s: State, t: State, id: nat) {
    && id in s.history && id in t.history
    && t.history[id].cmd == s.history[id].cmd && t.history[id].result == s.history[id].result
    && t.history[id].written == s.history[id].written
  }

  /** These change neither what the library works on nor any answer. */
  ghost predicate NoAnswer(s: State, t: State) {
    && t.library == s.library && (forall a | a in t.heap :: a in s.heap && t.heap[a] == s.heap[a])
    && (forall id | id in s.history :: SameAnswer(s, t, id))
  }

  lemma NoAnswerKept(s: State, t: State, id: nat)
    requires Answered(s, id) && NoAnswer(s, t)
    ensures Answered(t, id) && SameAnswer(s, t, id)
  {
    assert SameAnswer(s, t, id);
  }

  lemma CompletedAnswers(s: State, addr: Addr)
    requires Completed(s, addr).Next?
    ensures NoAnswer(s, Completed(s, addr).state)
  {
    hide Settled;
  }

  lemma ReadAnswers(s: State, n: nat)
    requires Enabled(s, ReadEvent(n)) && EventRead(s, n).Next?
    ensures NoAnswer(s, EventRead(s, n).state)
  {
    hide Completed, Decode;
    var t := Collected(s, n);
    if s.eventReaderPos + n == PTR_SIZE {
      PointerBound(t.eventRcb);
      CompletedAnswers(t, Decode(t.eventRcb));
      assert forall id | id in s.history :: SameAnswer(t, EventRead(s, n).state, id);
    }
  }

  lemma OtherAnswers(s: State, a: Action)
    requires Enabled(s, a) && Step(s, a).Next? && (a.RunBh? || a.CancelBegin? || a.CancelEnd?)
    ensures NoAnswer(s, Step(s, a).state)
  {
    hide Settled, EventRead, Finished, Started;
  }

  lemma StartAnswers(s: State, a: Action, id: nat)
    requires a.Start? && Enabled(s, a) && Answered(s, id)
    ensures Step(s, a).Next? && Answered(Step(s, a).state, id) && SameAnswer(s, Step(s, a).state, id)
  {
    hide EventRead, Finished;
  }

  lemma FinishOthers(s: State, a: Action, id: nat)
    requires a.Finish? && Enabled(s, a) && Step(s, a).Next? && Answered(s, id)
    ensures Answered(Step(s, a).state, id) && SameAnswer(s, Step(s, a).state, id)
  {
    hide EventRead, Started, Encode;
  }

  lemma AnswerKept(s: State, a: Action, id: nat)
    requires Inv(s) && Enabled(s, a) && Answered(s, id)
    ensures Step(s, a).Next? && Answered(Step(s, a).state, id) && SameAnswer(s, Step(s, a).state, id)
  {
    hide Inv, Answered, SameAnswer, NoAnswer, EventRead, Started, Finished, BhRun, CancelBegun, CancelEnded;
    StepKeeps(s, a);
    if a.Start? {
      StartAnswers(s, a, id);
    } else if a.Finish? {
      FinishOthers(s, a, id);
    } else {
      if a.ReadEvent? {
        ReadAnswers(s, a.n);
      } else {
        OtherAnswers(s, a);
      }
      NoAnswerKept(s, Step(s, a).state, id);
    }
  }

  lemma {:induction false} AnswersKept(s: State, actions: seq<Action>, id: nat)
    requires Inv(s) && Run(s, actions) && Answered(s, id)
    ensures End(s, actions).Next? && SameAnswer(s, End(s, actions).state, id)
    decreases |actions|
  {
    hide Inv, Answered, Enabled, Step;
    if actions != [] {
      AnswerKept(s, actions[0], id);
      StepKeeps(s, actions[0]);
      AnswersKept(Step(s, actions[0]).state, actions[1..], id);
    } else {
      AnswerThere(s, id);
    }
  }

  lemma AnswerThere(s: State, id: nat)
    requires Answered(s, id)
    ensures id in s.history
  {
  }

  lemma FinishAnswers(s: State, addr: Addr, result: int, written: seq<byte>)
    requires Inv(s) && Enabled(s, Finish(addr, result, written))
    ensures addr in s.heap && Step(s, Finish(addr, result, written)).Next?
    ensures var id, t := s.heap[addr].acb, Step(s, Finish(addr, result, written)).state;
            Inv(t) && Answered(t, id) && t.history[id].result == result && t.history[id].written == written
  {
    hide Encode;
    StepKeeps(s, Finish(addr, result, written));
    assert AddrOk(s, addr);
    forall a | a in s.library && a in s.heap && a != addr ensures s.heap[a].acb != s.heap[addr].acb {
      assert AddrOk(s, a);
    }
  }

  /** Whatever happens before and after the library answers a request: once everything
      has come to rest, its callback was given that answer, once. */
  lemma AnswerDelivered(before: seq<Action>, addr: Addr, result: int, written: seq<byte>, after: seq<Action>)
    requires Run(Initial(), before) && End(Initial(), before).Next?
    requires Enabled(End(Initial(), before).state, Finish(addr, result, written))
    requires Step(End(Initial(), before).state, Finish(addr, result, written)).Next?
    requires Run(Step(End(Initial(), before).state, Finish(addr, result, written)).state, after)
    requires var t := Step(End(Initial(), before).state, Finish(addr, result, written)).state;
             End(t, after).Next? && Quiescent(End(t, after).state)
    ensures var s := End(Initial(), before).state;
            var end := End(Step(s, Finish(addr, result, written)).state, after).state;
            && addr in s.heap && s.heap[addr].acb in end.history
            && var h := end.history[s.heap[addr].acb];
               && h.callbacks == [if result < 0 then result else 0] && |h.delivered| == |written|
               && (forall i | 0 <= i < |written| ::
                     h.delivered[i] == if h.cmd == Read && i >= result then 0 else written[i])
               && h.rcbFrees == 1 && h.releases == 1
  {
    hide Inv, Step, Enabled, Run, Answered, Quiescent, Initial;
    InitialInv();
    RunKeeps(Initial(), before);
    var s := End(Initial(), before).state;
    FinishAnswers(s, addr, result, written);
    var t := Step(s, Finish(addr, result, written)).state;
    var id := s.heap[addr].acb;
    RunKeeps(t, after);
    AnswersKept(t, after, id);
    QuiescentDone(End(t, after).state);
  }

  /** What qemu_rbd_complete_aio leaves in the block: a read that was cut short counts as
      a full one, and an earlier error stays. */
  lemma SettledExact(acb: Acb, r: int, size: nat)
    ensures var done := Settled(acb, r, size);
            && done.error == (acb.error || r < 0)
            && done.ret == (if r < 0 then r else if acb.error then acb.ret
                            else if acb.cmd == Read && r >= size then r else size)
            && |done.bounce| == |acb.bounce|
            && (forall i | 0 <= i < |acb.bounce| ::
                  done.bounce[i] == if acb.cmd == Read && r < size && i >= r then 0 else acb.bounce[i])
  {
  }
}
