/** Completion of asynchronous requests in the qemu rbd driver, rbd.c.

    Four parties act in any order: a librbd thread that finishes a request and
    sends its rcb pointer down a pipe, the event reader that collects pointer
    bytes, the bottom half that runs the callback, and a canceller that waits for
    the bottom half.  Each action below is one atomic step of one of them. */
module QemuAio {
  import opened Basics
  import opened Bytes

  const PTR_SIZE: nat := 8

  type Addr = a: int | 0 <= a < 0x1_0000_0000_0000_0000

  datatype Cmd = Read | Write | Discard | Flush

  /** RBDAIOCB: `inProgress` is status == -EINPROGRESS, `bounce` the buffer; the
      null pointer of a discard or a flush is an empty one. */
  datatype Acb = Acb(cmd: Cmd, ret: int, error: bool, cancelled: bool, inProgress: bool, bh: bool,
                     bounce: seq<byte>)

  /** RADOSCB; its buffer is the bounce buffer of its acb. */
  datatype Rcb = Rcb(acb: nat, size: nat, ret: int)

  /** What happened to a request: the arguments and the data of its callbacks, how
      often its two control blocks were freed, and what the library answered. */
  datatype History = History(
    addr: Addr, cmd: Cmd, size: nat, result: int, written: seq<byte>,
    callbacks: seq<int>, delivered: seq<byte>, rcbFrees: nat, releases: nat)

  datatype State = State(
    acbs: map<nat, Acb>,        // control blocks that qemu has not taken back
    heap: map<Addr, Rcb>,       // rcbs that are allocated
    library: set<Addr>,         // rcbs that librbd works on
    pipe: seq<byte>,            // bytes written and not yet read
    eventReaderPos: nat,
    eventRcb: seq<byte>,        // the pointer that the reader puts together
    bhs: set<nat>,              // scheduled bottom halves
    cancelling: set<nat>,       // requests that a cancel waits for
    sent: seq<Addr>,            // pointers sent and not yet put together
    history: map<nat, History>)

  /** A step either leads to a state or touches freed memory. */
  datatype Outcome = Next(state: State) | UseAfterFree

  function Initial(): State {
    State(map[], map[], {}, [], 0, [0, 0, 0, 0, 0, 0, 0, 0], {}, {}, [], map[])
  }

  datatype Action =
    | Start(id: nat, addr: Addr, cmd: Cmd, size: nat, bounce: seq<byte>)
    | Finish(addr: Addr, result: int, written: seq<byte>)
    | ReadEvent(n: nat)
    | RunBh(id: nat)
    | CancelBegin(id: nat)
    | CancelEnd(id: nat)

  /** The length of the bounce buffer: only reads and writes have one. */
  function BounceLength(cmd: Cmd, size: nat): nat {
    if cmd == Discard || cmd == Flush then 0 else size
  }

  /** rbd_start_aio, on its way to success: fresh blocks, the rcb anywhere that is
      not in use. */
  function Started(s: State, id: nat, addr: Addr, cmd: Cmd, size: nat, bounce: seq<byte>): State {
    s.(acbs := s.acbs[id := Acb(cmd, 0, false, false, true, false, bounce)],
       heap := s.heap[addr := Rcb(id, size, 0)],
       library := s.library + {addr},
       history := s.history[id := History(addr, cmd, size, 0, [], [], [], 0, 0)])
  }

  /** rbd_finish_aiocb, in a librbd thread: the library has filled the buffer, the
      result is stored, and the pointer goes down the pipe in one write. */
  function Finished(s: State, addr: Addr, result: int, written: seq<byte>): Outcome {
    if addr !in s.heap || s.heap[addr].acb !in s.acbs || s.heap[addr].acb !in s.history then UseAfterFree
    else
      var id := s.heap[addr].acb;
      Next(s.(acbs := s.acbs[id := s.acbs[id].(bounce := written)],
              heap := s.heap[addr := s.heap[addr].(ret := result)],
              library := s.library - {addr},
              pipe := s.pipe + Encode(addr, PTR_SIZE),
              sent := s.sent + [addr],
              history := s.history[id := s.history[id].(result := result, written := written)]))
  }

  /** The buffer after the part beyond r is cleared. */
  function ZeroFrom(buf: seq<byte>, r: int): (z: seq<byte>)
    ensures |z| == |buf| && forall i | 0 <= i < |buf| :: z[i] == if i < r then buf[i] else 0
  {
    seq(|buf|, i requires 0 <= i < |buf| => if i < r then buf[i] else 0)
  }

  /** The bookkeeping of qemu_rbd_complete_aio. */
  function Settled(acb: Acb, r: int, size: nat): Acb {
    if acb.cmd != Read then
      if r < 0 then acb.(ret := r, error := true)
      else if !acb.error then acb.(ret := size)
      else acb
    else if r < 0 then acb.(bounce := ZeroFrom(acb.bounce, 0), ret := r, error := true)
    else if r < size then
      var cleared := acb.(bounce := ZeroFrom(acb.bounce, r));
      if !acb.error then cleared.(ret := size) else cleared
    else if !acb.error then acb.(ret := r)
    else acb
  }

  /** qemu_rbd_complete_aio: settle the acb, schedule the bottom half, free the
      rcb. */
  function Completed(s: State, addr: Addr): Outcome {
    if addr !in s.heap || s.heap[addr].acb !in s.acbs || s.heap[addr].acb !in s.history then UseAfterFree
    else
      var rcb := s.heap[addr];
      var id := rcb.acb;
      var h := s.history[id];
      Next(s.(acbs := s.acbs[id := Settled(s.acbs[id], rcb.ret, rcb.size).(bh := true)],
              heap := s.heap - {addr},
              bhs := s.bhs + {id},
              sent := if s.sent == [] then [] else s.sent[1..],
              history := s.history[id := h.(rcbFrees := h.rcbFrees + 1)]))
  }

  /** The read of the event reader, when it returns n bytes. */
  function Collected(s: State, n: nat): State
    requires 0 < n <= |s.pipe| && s.eventReaderPos + n <= PTR_SIZE == |s.eventRcb|
  {
    var pos := s.eventReaderPos;
    s.(pipe := s.pipe[n..],
       eventRcb := s.eventRcb[..pos] + s.pipe[..n] + s.eventRcb[pos + n..],
       eventReaderPos := if pos + n == PTR_SIZE then 0 else pos + n)
  }

  /** qemu_rbd_aio_event_reader: a complete pointer is acted on at once. */
  function EventRead(s: State, n: nat): Outcome
    requires 0 < n <= |s.pipe| && s.eventReaderPos + n <= PTR_SIZE == |s.eventRcb|
  {
    var t := Collected(s, n);
    if s.eventReaderPos + n == PTR_SIZE then PointerBound(t.eventRcb); Completed(t, Decode(t.eventRcb)) else Next(t)
  }

  lemma PointerBound(p: seq<byte>)
    requires |p| == PTR_SIZE
    ensures Decode(p) < U64
  {
    Powers();
    DecodeBound(p);
  }

  /** rbd_aio_bh_cb: run the callback, drop the bottom half, and give the acb back
      unless a canceller will. */
  function BhRun(s: State, id: nat): Outcome {
    if id !in s.acbs || id !in s.history then UseAfterFree
    else
      var acb, h := s.acbs[id], s.history[id];
      var called := h.(callbacks := h.callbacks + [if acb.ret > 0 then 0 else acb.ret], delivered := acb.bounce);
      var t := s.(bhs := s.bhs - {id});
      if acb.cancelled then
        Next(t.(acbs := s.acbs[id := acb.(bh := false, inProgress := false)], history := s.history[id := called]))
      else
        Next(t.(acbs := s.acbs - {id}, history := s.history[id := called.(releases := called.releases + 1)]))
  }

  /** qemu_rbd_aio_cancel, up to its waiting loop. */
  function CancelBegun(s: State, id: nat): Outcome {
    if id !in s.acbs then UseAfterFree
    else Next(s.(acbs := s.acbs[id := s.acbs[id].(cancelled := true)], cancelling := s.cancelling + {id}))
  }

  /** The rest of qemu_rbd_aio_cancel, once the request is not in progress. */
  function CancelEnded(s: State, id: nat): Outcome {
    if id !in s.acbs || id !in s.history then UseAfterFree
    else
      var h := s.history[id];
      Next(s.(acbs := s.acbs - {id}, cancelling := s.cancelling - {id},
              history := s.history[id := h.(releases := h.releases + 1)]))
  }

  /** When a step can be taken.  Cancel is only called on a live request that is
      not being cancelled already, and it ends once the status has changed. */
  predicate Enabled(s: State, a: Action) {
    match a
    case Start(id, addr, cmd, size, bounce) =>
      id !in s.history && addr !in s.heap && |bounce| == BounceLength(cmd, size)
    case Finish(addr, _, written) => addr in s.library && FillsBounce(s, addr, written)
    case ReadEvent(n) => 0 < n <= |s.pipe| && s.eventReaderPos + n <= PTR_SIZE == |s.eventRcb|
    case RunBh(id) => id in s.bhs
    case CancelBegin(id) => id in s.acbs && !s.acbs[id].cancelled && s.acbs[id].inProgress
    case CancelEnd(id) => id in s.cancelling && (id in s.acbs ==> !s.acbs[id].inProgress)
  }

  /** The library fills the buffer that it was given, and no more. */
  predicate FillsBounce(s: State, addr: Addr, written: seq<byte>) {
    addr in s.heap && (s.heap[addr].acb in s.acbs ==> |written| == |s.acbs[s.heap[addr].acb].bounce|)
  }

  function Step(s: State, a: Action): Outcome
    requires Enabled(s, a)
  {
    match a
    case Start(id, addr, cmd, size, bounce) => Next(Started(s, id, addr, cmd, size, bounce))
    case Finish(addr, result, written) => Finished(s, addr, result, written)
    case ReadEvent(n) => EventRead(s, n)
    case RunBh(id) => BhRun(s, id)
    case CancelBegin(id) => CancelBegun(s, id)
    case CancelEnd(id) => CancelEnded(s, id)
  }

  // ----- the invariant -----

  function Pointers(addrs: seq<Addr>): (r: seq<byte>)
    ensures |r| == PTR_SIZE * |addrs|
  {
    if addrs == [] then [] else Encode(addrs[0], PTR_SIZE) + Pointers(addrs[1..])
  }

  /** The bytes collected and the bytes still in the pipe are whole pointers. */
  ghost predicate PipeOk(s: State) {
    && |s.eventRcb| == PTR_SIZE && s.eventReaderPos < PTR_SIZE
    && s.eventRcb[..s.eventReaderPos] + s.pipe == Pointers(s.sent)
  }

  /** An allocated rcb is with the library or on its way through the pipe; it
      belongs to a live request that has no bottom half yet. */
  ghost predicate AddrOk(s: State, a: Addr) {
    && (a in s.heap <==> a in s.library || a in s.sent)
    && (a in s.library ==> a !in s.sent)
    && (a in s.heap ==>
          var id := s.heap[a].acb;
          && id in s.acbs && id in s.history && s.history[id].addr == a && id !in s.bhs && s.acbs[id].inProgress
          && s.heap[a].size == s.history[id].size
          && (a in s.sent ==> s.heap[a].ret == s.history[id].result
                              && s.acbs[id].bounce == s.history[id].written))
  }

  ghost predicate HeapOk(s: State) {
    && Distinct(s.sent)
    && (forall a :: AddrOk(s, a))
  }

  /** The request is still in the library or the pipe. */
  ghost predicate Flying(s: State, id: nat)
    requires id in s.acbs && id in s.history
  {
    var acb, h := s.acbs[id], s.history[id];
    && h.addr in s.heap && s.heap[h.addr].acb == id
    && acb.inProgress && !acb.bh && !acb.error && acb.cmd == h.cmd && |acb.bounce| == BounceLength(h.cmd, h.size)
    && h.callbacks == [] && h.rcbFrees == 0 && h.releases == 0
  }

  /** What the callback is given for a result. */
  function CallbackArgument(result: int): int {
    if result < 0 then result else 0
  }

  /** The bytes of a read, cleared where the library returned none. */
  function Expected(h: History): seq<byte> {
    if h.cmd == Read then ZeroFrom(h.written, h.result) else h.written
  }

  ghost predicate Landed(s: State, id: nat)
    requires id in s.acbs && id in s.history
  {
    var acb, h := s.acbs[id], s.history[id];
    && acb.inProgress && acb.bh
    && (if acb.ret > 0 then 0 else acb.ret) == CallbackArgument(h.result)
    && acb.bounce == Expected(h)
    && h.callbacks == [] && h.rcbFrees == 1 && h.releases == 0
  }

  ghost predicate CalledBack(h: History) {
    h.callbacks == [CallbackArgument(h.result)] && h.delivered == Expected(h) && h.rcbFrees == 1
  }

  /** A request flies, or has landed, or was called back and waits for its
      canceller, or is done: called back once, its rcb freed once, its acb given
      back once. */
  ghost predicate RequestOk(s: State, id: nat) {
    if id in s.acbs then
      && id in s.history
      && (s.acbs[id].cancelled <==> id in s.cancelling)
      && (if id in s.bhs then Landed(s, id)
          else if s.acbs[id].inProgress then Flying(s, id)
          else s.acbs[id].cancelled && CalledBack(s.history[id]) && s.history[id].releases == 0)
    else
      && id !in s.bhs && id !in s.cancelling
      && (id in s.history ==> CalledBack(s.history[id]) && s.history[id].releases == 1)
  }

  ghost predicate RequestsOk(s: State) {
    forall id :: RequestOk(s, id)
  }

  ghost predicate Inv(s: State) {
    PipeOk(s) && HeapOk(s) && RequestsOk(s)
  }
}
