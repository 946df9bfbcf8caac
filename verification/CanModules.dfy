/** The transmit half of the CANopen driver in the form it has in the firmware:
    fields updated by methods and an interrupt handler. Each method refines the
    transition system of CanTransmit. */
module CanModules {
  import opened CanTransmit

  class CanModule {
    var slots: seq<Slot>
    var count: nat
    var busy: nat
    var inhibit: bool
    var first: bool
    var overflow: bool
    var late: bool
    /** The ledger of the model; the firmware has no such fields. */
    var fates: seq<Fate>
    var log: seq<nat>
    var excess: nat

    ghost function State(): Tx
      reads this
    {
      Tx(slots, count, busy, inhibit, first, overflow, late, fates, log, excess)
    }

    constructor (syncs: seq<bool>)
      ensures State() == InitialState(syncs)
    {
      slots := seq(|syncs|, i requires 0 <= i < |syncs| => Slot(false, syncs[i], 0));
      count, busy := 0, 0;
      inhibit, first, overflow, late := false, true, false, false;
      fates, log, excess := [], [], 0;
    }

    /** The hardware takes the frame of send `ticket` unless all mailboxes are busy. */
    method TryTransmit(ticket: nat) returns (refused: bool)
      modifies `busy, `log
      ensures refused == (old(busy) >= MAILBOXES)
      ensures busy == old(busy) + if refused then 0 else 1
      ensures log == old(log) + if refused then [] else [ticket]
    {
      refused := busy >= MAILBOXES;
      if !refused {
        busy, log := busy + 1, log + [ticket];
      }
    }

    /** Mailboxes complete and raise one interrupt. */
    method Complete(done: nat)
      requires 1 <= done <= busy
      modifies this
      ensures State() == Step(old(State()), Done(done)) && |slots| == old(|slots|)
    {
      busy := busy - done;
      TxCallback();
    }

    /** Takes the first full buffer out of the queue and gives it to the hardware. */
    method SubmitFirst(i: nat)
      requires i < |slots| && slots[i].full && count > 0 && !first
      requires Pending(slots) != [] && Pending(slots)[0] == i
      modifies this
      ensures State() == Callback(old(State())) && |slots| == old(|slots|)
    {
      var ticket := slots[i].ticket;
      slots := slots[i := slots[i].(full := false)];
      count := Down(count);
      inhibit := slots[i].sync;
      var refused := TryTransmit(ticket);
      fates := SetFate(fates, ticket, if refused then Lost else Placed);
    }

    method TxCallback()
      modifies this
      ensures State() == Callback(old(State())) && |slots| == old(|slots|)
    {
      first, inhibit := false, false;
      if count > 0 {
        var i := 0;
        while i < |slots|
          invariant i <= |slots| && forall j :: 0 <= j < i ==> !slots[j].full
        {
          if slots[i].full {
            FirstPending(slots, i);
            SubmitFirst(i);
            return;
          }
          i := i + 1;
        }
        NonePending(slots);
        count, excess := 0, 0;
      }
    }

    /** The overflow check of a send, before its lock. */
    method CheckOverflow(i: nat) returns (err: bool)
      requires i < |slots|
      modifies `overflow
      ensures err == slots[i].full && State() == Step(old(State()), Check(i))
    {
      err := false;
      if slots[i].full {
        if !first {
          overflow := true;
        }
        err := true;
      }
    }

    /** The locked part of a send. If mailboxes complete meanwhile, their interrupt
        is taken when the lock is released. */
    method LockedPart(i: nat, done: nat)
      requires i < |slots| && done <= busy
      modifies this
      ensures State() == Step(old(State()), Event.Send(i, done)) && |slots| == old(|slots|)
    {
      busy := busy - done;
      assert State() == Free(old(State()), done);
      LockedSend(i);
      if done > 0 {
        TxCallback();
      }
    }

    /** Anything may happen between the check and the lock: `events` are the steps
        of other threads, sends of the same buffer included, and of interrupts. */
    method Send(i: nat) returns (err: bool, ghost events: seq<Event>, done: nat)
      requires i < |slots|
      modifies this
      ensures err == old(slots[i].full)
      ensures Runnable(Step(old(State()), Check(i)), events)
      ensures var s := Run(Step(old(State()), Check(i)), events);
        Enabled(s, Event.Send(i, done)) && State() == Step(s, Event.Send(i, done))
    {
      err := CheckOverflow(i);
      events := Interleave();
      done := *;
      if done > busy {
        done := 0;
      }
      LockedPart(i, done);
    }

    /** One step of another thread, or of an interrupt, if it is possible. */
    method OtherStep() returns (ghost event: Event, taken: bool)
      modifies this
      ensures taken ==> Enabled(old(State()), event) && State() == Step(old(State()), event)
      ensures !taken ==> State() == old(State())
      ensures |slots| == old(|slots|)
    {
      var kind: nat, i: nat, done: nat, sync: bool := *, *, *, *;
      taken := true;
      StepLength(State(), ClearSync);
      StepLength(State(), Init(i, sync));
      if kind == 0 && 1 <= done <= busy {
        event := Done(done);
        Complete(done);
      } else if kind == 1 && i < |slots| && done <= busy {
        event := Event.Send(i, done);
        LockedPart(i, done);
      } else if kind == 2 && i < |slots| {
        event := Check(i);
        var err := CheckOverflow(i);
      } else if kind == 3 {
        event := ClearSync;
        ClearPendingSyncPDOs();
      } else if kind == 4 {
        event := Init(i, sync);
        var found := TxBufferInit(i, sync);
      } else {
        event, taken := ClearSync, false;
      }
    }

    method Interleave() returns (ghost events: seq<Event>)
      modifies this
      ensures Runnable(old(State()), events) && State() == Run(old(State()), events)
      ensures |slots| == old(|slots|)
    {
      events := [];
      var n: nat := *;
      while n > 0
        invariant Runnable(old(State()), events) && State() == Run(old(State()), events)
        invariant |slots| == old(|slots|)
      {
        ghost var s := State();
        ghost var event;
        var taken;
        event, taken := OtherStep();
        if taken {
          RunAppend(old(State()), events, event);
          events := events + [event];
        }
        n := n - 1;
      }
    }

    /** The part of a send under the lock. */
    method LockedSend(i: nat)
      requires i < |slots|
      modifies this
      ensures State() == Commit(old(State()), i) && |slots| == old(|slots|)
    {
      var ticket := |fates|;
      var refused := true;
      if count == 0 {
        refused := TryTransmit(ticket);
      }
      if !refused {
        inhibit := slots[i].sync;
        fates := fates + [Placed];
      } else {
        fates := fates + [if slots[i].full then Merged else Waiting(i)];
        excess := excess + if slots[i].full then 1 else 0;
        slots := slots[i := if slots[i].full then slots[i] else Slot(true, slots[i].sync, ticket)];
        count := Up(count);
      }
    }

    method ClearPendingSyncPDOs()
      modifies this
      ensures State() == Clear(old(State()))
    {
      if inhibit {
        inhibit, late := false, true;
      }
      if count != 0 {
        ghost var s := State();
        var i := 0;
        while i < |slots|
          invariant i <= |slots| == |s.slots|
          invariant ClearFrom(State(), i) == ClearFrom(s, 0)
        {
          if slots[i].full && slots[i].sync {
            fates := SetFate(fates, slots[i].ticket, Late);
            slots := slots[i := slots[i].(full := false)];
            count := Down(count);
            late := true;
          }
          i := i + 1;
        }
      }
    }

    method TxBufferInit(i: nat, sync: bool) returns (found: bool)
      modifies this
      ensures found == (i < old(|slots|)) && State() == Step(old(State()), Init(i, sync))
    {
      found := i < |slots|;
      if found {
        if slots[i].full {
          fates := SetFate(fates, slots[i].ticket, Discarded);
          excess := excess + 1;
        }
        slots := slots[i := slots[i].(full := false, sync := sync)];
      }
    }
  }
}
