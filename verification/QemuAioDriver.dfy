/** The handlers of rbd.c that run in the qemu thread, statement by statement.

    They are proved to be the steps of `QemuAio`; a driver in a state that
    satisfies the invariant of the protocol meets their preconditions. */
module QemuAioDriver {
  import opened Bytes
  import opened QemuAio
  import opened QemuAioSafety

  class RbdDriver {
    var acbs: map<nat, Acb>
    var heap: map<Addr, Rcb>
    var pipe: seq<byte>
    var eventReaderPos: nat
    var eventRcb: array<byte>
    var bhs: set<nat>
    ghost var library: set<Addr>
    ghost var cancelling: set<nat>
    ghost var sent: seq<Addr>
    ghost var history: map<nat, History>

    ghost function Now(): State
      reads this, eventRcb
    {
      State(acbs, heap, library, pipe, eventReaderPos, eventRcb[..], bhs, cancelling, sent, history)
    }

    /** qemu_rbd_complete_aio */
    method CompleteAio(addr: Addr)
      requires addr in heap && heap[addr].acb in acbs && heap[addr].acb in history
      modifies this
      ensures Next(Now()) == old(Completed(Now(), addr)) && eventRcb == old(eventRcb)
    {
      var rcb := heap[addr];
      var acb := SettleAcb(acbs[rcb.acb], rcb.ret, rcb.size);
      acb := acb.(bh := true);
      acbs := acbs[rcb.acb := acb];
      bhs := bhs + {rcb.acb};
      heap := heap - {addr};
      sent := if sent == [] then [] else sent[1..];
      history := history[rcb.acb := history[rcb.acb].(rcbFrees := history[rcb.acb].rcbFrees + 1)];
    }

    /** The read of the event reader, into the pointer behind what is there. */
    method Collect() returns (ret: nat)
      requires pipe != [] && eventReaderPos < PTR_SIZE == eventRcb.Length
      modifies this, eventRcb
      ensures 0 < ret <= |old(pipe)| && old(eventReaderPos) + ret <= PTR_SIZE && eventRcb == old(eventRcb)
      ensures Now() == old(Collected(Now(), ret))
    {
      ret :| 1 <= ret <= |pipe| && ret <= PTR_SIZE - eventReaderPos;
      ghost var was := eventRcb[..];
      forall i | 0 <= i < ret {
        eventRcb[eventReaderPos + i] := pipe[i];
      }
      assert eventRcb[..] == was[..eventReaderPos] + pipe[..ret] + was[eventReaderPos + ret..];
      pipe := pipe[ret..];
      eventReaderPos := eventReaderPos + ret;
      if eventReaderPos == PTR_SIZE {
        eventReaderPos := 0;
      }
    }

    /** qemu_rbd_aio_event_reader: one read, of as many bytes as the pointer still
        lacks at most. */
    method EventReader() returns (ret: nat)
      requires Inv(Now()) && pipe != []
      modifies this, eventRcb
      ensures Inv(Now())
      ensures old(Enabled(Now(), ReadEvent(ret))) && Next(Now()) == old(EventRead(Now(), ret))
    {
      ghost var start := Now();
      ret := Collect();
      ReadKeeps(start, ret);
      if start.eventReaderPos + ret == PTR_SIZE {
        PointerBound(eventRcb[..]);
      }
      if eventReaderPos == 0 {
        var addr := Decode(eventRcb[..]);
        CompleteAio(addr);
      }
    }

    /** rbd_aio_bh_cb; `argument` is what the callback is given. */
    method AioBhCb(id: nat) returns (argument: int)
      requires Inv(Now()) && id in bhs
      modifies this
      ensures Inv(Now()) && Next(Now()) == old(BhRun(Now(), id)) && eventRcb == old(eventRcb)
      ensures argument == CallbackArgument(old(history)[id].result)
    {
      BhKeeps(Now(), id);
      assert RequestOk(Now(), id);
      var acb := acbs[id];
      ghost var h := history[id];
      argument := if acb.ret > 0 then 0 else acb.ret;
      h := h.(callbacks := h.callbacks + [argument], delivered := acb.bounce);
      bhs := bhs - {id};
      if !acb.cancelled {
        acbs := acbs - {id};
        h := h.(releases := h.releases + 1);
      } else {
        acbs := acbs[id := acb.(bh := false, inProgress := false)];
      }
      history := history[id := h];
    }
  }

  /** The first part of qemu_rbd_complete_aio: result, error flag and buffer. */
  method SettleAcb(acb0: Acb, r: int, size: nat) returns (acb: Acb)
    ensures acb == Settled(acb0, r, size)
  {
    acb := acb0;
    if acb.cmd != Read {
      if r < 0 {
        acb := acb.(ret := r, error := true);
      } else if !acb.error {
        acb := acb.(ret := size);
      }
    } else {
      if r < 0 {
        acb := acb.(bounce := ZeroFrom(acb.bounce, 0));
        acb := acb.(ret := r, error := true);
      } else if r < size {
        acb := acb.(bounce := ZeroFrom(acb.bounce, r));
        if !acb.error {
          acb := acb.(ret := size);
        }
      } else if !acb.error {
        acb := acb.(ret := r);
      }
    }
  }
}
