/** What the status flags of the CANopen driver mean, in terms of the events of a
    run and of the frames given to the hardware. */
module CanStatus {
  import opened CanTransmit
  import opened CanLedger

  /** The run taken apart at its last step. */
  lemma {:induction false} RunLast(s: Tx, es: seq<Event>)
    requires Runnable(s, es) && es != []
    ensures var n := |es| - 1;
      Runnable(s, es[..n]) && Enabled(Run(s, es[..n]), es[n]) && Run(s, es) == Step(Run(s, es[..n]), es[n])
    decreases |es|
  {
    var n := |es| - 1;
    if n == 0 {
      assert es[..n] == [] && es[1..] == [];
    } else {
      RunLast(Step(s, es[0]), es[1..]);
      assert es[1..][..n - 1] == es[..n][1..];
    }
  }

  lemma {:induction false} PossibleLast(s: Tx, es: seq<Event>)
    requires Possible(s, es) && es != []
    ensures Possible(s, es[..|es| - 1])
    ensures es[|es| - 1].Send? ==> Run(s, es[..|es| - 1]).count < COUNTER - 1
    decreases |es|
  {
    var n := |es| - 1;
    if n == 0 {
      assert es[..n] == [];
    } else {
      PossibleLast(Step(s, es[0]), es[1..]);
      assert es[1..][..n - 1] == es[..n][1..];
    }
  }

  // ----- the sync flag of a buffer -----

  /** The flag that the last initialisation of buffer `i` gave it. */
  function LastSync(es: seq<Event>, i: nat, sync: bool): bool {
    if es == [] then sync
    else if es[|es| - 1].Init? && es[|es| - 1].buffer == i then es[|es| - 1].sync
    else LastSync(es[..|es| - 1], i, sync)
  }

  lemma {:induction false} ClearSyncFlags(s: Tx, k: nat, i: nat)
    requires k <= |s.slots| && i < |s.slots|
    ensures i < |ClearFrom(s, k).slots| && ClearFrom(s, k).slots[i].sync == s.slots[i].sync
  {
    ClearFromRemoves(s, k);
  }

  lemma CallbackSyncFlags(s: Tx, i: nat)
    requires i < |s.slots|
    ensures i < |Callback(s).slots| && Callback(s).slots[i].sync == s.slots[i].sync
  {
    CallbackLength(s);
    PendingInRange(s.slots);
  }

  lemma CommitSyncFlags(s: Tx, j: nat, i: nat)
    requires i < |s.slots| && j < |s.slots|
    ensures i < |Commit(s, j).slots| && Commit(s, j).slots[i].sync == s.slots[i].sync
  {
  }

  lemma StepSyncFlag(s: Tx, e: Event, i: nat)
    requires Enabled(s, e) && i < |s.slots|
    ensures i < |Step(s, e).slots|
    ensures Step(s, e).slots[i].sync == if e.Init? && e.buffer == i then e.sync else s.slots[i].sync
  {
    match e
    case Check(_) =>
    case Send(j, k) =>
      CommitSyncFlags(Free(s, k), j, i);
      CallbackSyncFlags(Commit(Free(s, k), j), i);
    case Done(k) => CallbackSyncFlags(Free(s, k), i);
    case ClearSync => ClearSyncFlags(if s.inhibit then s.(inhibit := false, late := true) else s, 0, i);
    case Init(_, _) =>
  }

  /** A buffer has the sync flag of its last initialisation. */
  lemma {:induction false} RunSyncFlag(s: Tx, es: seq<Event>, i: nat)
    requires Runnable(s, es) && i < |s.slots|
    ensures i < |Run(s, es).slots| && Run(s, es).slots[i].sync == LastSync(es, i, s.slots[i].sync)
    decreases |es|
  {
    if es == [] {
    } else {
      RunLast(s, es);
      RunSyncFlag(s, es[..|es| - 1], i);
      StepSyncFlag(Run(s, es[..|es| - 1]), es[|es| - 1], i);
    }
  }

  // ----- the flag set by a synchronous frame given to the hardware -----

  /** The frame of send `t` came from a synchronous buffer: of the send just made,
      or of the one that waited for it. */
  predicate FrameSync(s: Tx, e: Event, t: nat) {
    if t == |s.fates| then e.Send? && e.buffer < |s.slots| && s.slots[e.buffer].sync
    else exists i :: 0 <= i < |s.slots| && s.slots[i].full && s.slots[i].ticket == t && s.slots[i].sync
  }

  /** The flag after step `e` from `s`, by which the frames given to the hardware
      have become `log`, when it was `flag` before. */
  predicate Flagged(s: Tx, e: Event, log: seq<nat>, flag: bool) {
    match e
    case Check(_) => flag
    case Init(_, _) => flag
    case ClearSync => false
    case Done(_) => |log| > |s.log| && FrameSync(s, e, log[|log| - 1])
    case Send(_, done) =>
      // a frame that is placed at once is followed by the interrupt of the completed mailboxes
      if done > 0 && s.count == 0 then false
      else if |log| > |s.log| then FrameSync(s, e, log[|log| - 1])
      else flag
  }

  lemma SubmittedSync(s: Tx)
    requires s.busy < MAILBOXES && s.count > 0 && Pending(s.slots) != []
    ensures var i := Pending(s.slots)[0];
      i < |s.slots| &&
      Callback(s).log == s.log + [s.slots[i].ticket] && Callback(s).inhibit == s.slots[i].sync
  {
    PendingInRange(s.slots);
  }

  /** Full buffers hold different sends. */
  lemma TicketOwner(s: Tx, i: nat, e: Event)
    requires WaitingMatch(s.slots, s.fates) && i < |s.slots| && s.slots[i].full
    ensures s.slots[i].ticket < |s.fates| && (FrameSync(s, e, s.slots[i].ticket) <==> s.slots[i].sync)
  {
    forall j | 0 <= j < |s.slots| && s.slots[j].full && s.slots[j].ticket == s.slots[i].ticket ensures j == i {
      assert s.fates[s.slots[j].ticket] == Waiting(j);
    }
  }

  lemma DoneFlag(s: Tx, k: nat)
    requires Inv(s) && Enabled(s, Done(k))
    ensures Step(s, Done(k)).inhibit <==> Flagged(s, Done(k), Step(s, Done(k)).log, s.inhibit)
  {
    var f := Free(s, k);
    if s.count > 0 && Pending(s.slots) != [] {
      PendingInRange(s.slots);
      SubmittedSync(f);
      TicketOwner(s, Pending(s.slots)[0], Done(k));
    }
  }

  lemma CommitSlots(s: Tx, i: nat, j: nat)
    requires i < |s.slots| && j < |s.slots| && s.count > 0
    ensures var c := Commit(s, i);
      && |c.slots| == |s.slots| && c.log == s.log && c.slots[j].sync == s.slots[j].sync
      && (s.slots[j].full ==> c.slots[j] == s.slots[j])
      && (!s.slots[j].full && c.slots[j].full ==> j == i && c.slots[j].ticket == |s.fates|)
  {
  }

  lemma CountedUp(s: Tx, i: nat)
    requires i < |s.slots| && 0 < s.count < COUNTER - 1
    ensures Commit(s, i).count == s.count + 1 && Commit(s, i).busy == s.busy
  {
    assert Up(s.count) == s.count + 1;
  }

  lemma BusyCommit(s: Tx, i: nat, k: nat)
    requires i < |s.slots| && 0 < k <= s.busy <= MAILBOXES && 0 < s.count < COUNTER - 1
    ensures var c := Commit(Free(s, k), i); c.busy < MAILBOXES && c.count > 0 && Pending(c.slots) != []
  {
    CommitCounts(Free(s, k), i);
    CountedUp(Free(s, k), i);
  }

  /** A send during which mailboxes complete, while others wait. */
  lemma BusySendFlag(s: Tx, i: nat, k: nat)
    requires Inv(s) && Enabled(s, Send(i, k)) && s.count < COUNTER - 1 && k > 0 && s.count > 0
    ensures Step(s, Send(i, k)).inhibit <==> Flagged(s, Send(i, k), Step(s, Send(i, k)).log, s.inhibit)
  {
    var c := Commit(Free(s, k), i);
    BusyCommit(s, i, k);
    SubmittedSync(c);
    PendingInRange(c.slots);
    var j := Pending(c.slots)[0];
    CommitSlots(Free(s, k), i, j);
    if s.slots[j].full {
      TicketOwner(s, j, Send(i, k));
    }
  }

  /** A send that finds nothing waiting is placed, and then interrupted. */
  lemma IdleSendFlag(s: Tx, i: nat, k: nat)
    requires Enabled(s, Send(i, k)) && k > 0 && s.count == 0 && s.busy <= MAILBOXES
    ensures !Step(s, Send(i, k)).inhibit
  {
  }

  /** The flag after every step is explained by the frames given to the hardware. */
  lemma StepFlag(s: Tx, e: Event)
    requires Inv(s) && Enabled(s, e) && (e.Send? ==> s.count < COUNTER - 1)
    ensures Step(s, e).inhibit <==> Flagged(s, e, Step(s, e).log, s.inhibit)
  {
    match e
    case Check(_) =>
    case Send(i, k) =>
      if k > 0 && s.count > 0 {
        BusySendFlag(s, i, k);
      } else if k > 0 {
        IdleSendFlag(s, i, k);
      }
    case Done(k) => DoneFlag(s, k);
    case ClearSync => ClearUnflags(s);
    case Init(_, _) =>
  }

  lemma {:induction false} ClearKeepsFlag(s: Tx, k: nat)
    requires k <= |s.slots|
    ensures ClearFrom(s, k).inhibit == s.inhibit
    decreases |s.slots| - k
  {
    if k == |s.slots| {
    } else {
      ClearKeepsFlag(if s.slots[k].full && s.slots[k].sync then Take(s, k, Late).(late := true) else s, k + 1);
    }
  }

  lemma ClearUnflags(s: Tx)
    ensures !Clear(s).inhibit
  {
    ClearKeepsFlag(if s.inhibit then s.(inhibit := false, late := true) else s, 0);
  }

  /** What the frames given to the hardware during a run make of the flag. */
  predicate FlagHistory(s: Tx, es: seq<Event>, flag: bool)
    requires Runnable(s, es)
    decreases |es|
  {
    if es == [] then flag
    else FlagHistory(Step(s, es[0]), es[1..], Flagged(s, es[0], Step(s, es[0]).log, flag))
  }

  lemma {:induction false} RunFlag(s: Tx, es: seq<Event>)
    requires Inv(s) && Possible(s, es)
    ensures Run(s, es).inhibit <==> FlagHistory(s, es, s.inhibit)
    decreases |es|
  {
    if es == [] {
    } else {
      StepKeeps(s, es[0]);
      StepFlag(s, es[0]);
      RunFlag(Step(s, es[0]), es[1..]);
    }
  }

  // ----- the two status bits and the first interrupt -----

  predicate Interrupts(e: Event) {
    e.Done? || (e.Send? && e.done > 0)
  }

  predicate Interrupted(es: seq<Event>) {
    exists k :: 0 <= k < |es| && Interrupts(es[k])
  }

  predicate SyncWaits(slots: seq<Slot>) {
    exists i :: 0 <= i < |slots| && slots[i].full && slots[i].sync
  }

  /** Step `k` of the run is a check that finds its buffer full, after a first interrupt. */
  predicate Overflows(s: Tx, es: seq<Event>, k: nat)
    requires k < |es| && Runnable(s, es[..k])
  {
    es[k].Check? && es[k].buffer < |Run(s, es[..k]).slots| && Run(s, es[..k]).slots[es[k].buffer].full &&
    (!s.first || Interrupted(es[..k]))
  }

  /** Step `k` of the run is a clear that finds a synchronous frame waiting, or one
      given to the hardware with no interrupt since. */
  predicate Deletes(s: Tx, es: seq<Event>, k: nat)
    requires k < |es| && Runnable(s, es[..k])
  {
    es[k].ClearSync? && (SyncWaits(Run(s, es[..k]).slots) || FlagHistory(s, es[..k], s.inhibit))
  }

  lemma CallbackStatus(s: Tx)
    ensures !Callback(s).first && Callback(s).overflow == s.overflow && Callback(s).late == s.late
  {
  }

  lemma {:induction false} ClearStatus(s: Tx, k: nat)
    requires k <= |s.slots|
    ensures ClearFrom(s, k).first == s.first && ClearFrom(s, k).overflow == s.overflow
    decreases |s.slots| - k
  {
    if k == |s.slots| {
    } else {
      ClearStatus(if s.slots[k].full && s.slots[k].sync then Take(s, k, Late).(late := true) else s, k + 1);
    }
  }

  lemma CommitStatus(s: Tx, i: nat)
    requires i < |s.slots|
    ensures Commit(s, i).first == s.first && Commit(s, i).overflow == s.overflow && Commit(s, i).late == s.late
  {
  }

  lemma LockedStatus(s: Tx, i: nat, k: nat)
    requires i < |s.slots| && k <= s.busy
    ensures Locked(s, i, k).first <==> s.first && k == 0
    ensures Locked(s, i, k).overflow == s.overflow && Locked(s, i, k).late == s.late
  {
    CommitStatus(Free(s, k), i);
    CallbackStatus(Commit(Free(s, k), i));
  }

  /** Which event may change which bit, and when. */
  lemma StepStatus(s: Tx, e: Event)
    requires Inv(s) && Enabled(s, e)
    ensures Step(s, e).first <==> s.first && !Interrupts(e)
    ensures Step(s, e).overflow <==> s.overflow || (e.Check? && s.slots[e.buffer].full && !s.first)
    ensures Step(s, e).late <==> s.late || (e.ClearSync? && (s.inhibit || SyncWaits(s.slots)))
  {
    match e
    case Check(_) =>
    case Send(i, k) => LockedStatus(s, i, k);
    case Done(k) => CallbackStatus(Free(s, k));
    case ClearSync =>
      ClearRemoves(s);
      ClearStatus(if s.inhibit then s.(inhibit := false, late := true) else s, 0);
    case Init(_, _) =>
  }

  lemma InterruptedLast(es: seq<Event>)
    requires es != []
    ensures Interrupted(es) <==> Interrupted(es[..|es| - 1]) || Interrupts(es[|es| - 1])
  {
    var n := |es| - 1;
    if Interrupts(es[n]) {
      assert Interrupted(es);
    }
    if Interrupted(es[..n]) {
      var k :| 0 <= k < n && Interrupts(es[..n][k]);
      assert Interrupts(es[k]);
    }
  }

  lemma {:induction false} RunFirst(s: Tx, es: seq<Event>)
    requires Inv(s) && Possible(s, es)
    ensures Run(s, es).first <==> s.first && !Interrupted(es)
    decreases |es|
  {
    if es == [] {
    } else {
      var n := |es| - 1;
      RunLast(s, es);
      PossibleLast(s, es);
      RunKeeps(s, es[..n]);
      RunFirst(s, es[..n]);
      StepStatus(Run(s, es[..n]), es[n]);
      InterruptedLast(es);
    }
  }

  lemma {:induction false} PrefixRunnable(s: Tx, es: seq<Event>, k: nat)
    requires Runnable(s, es) && k <= |es|
    ensures Runnable(s, es[..k])
    decreases |es|
  {
    if k == |es| {
      assert es[..k] == es;
    } else {
      RunLast(s, es);
      PrefixRunnable(s, es[..|es| - 1], k);
      assert es[..|es| - 1][..k] == es[..k];
    }
  }

  lemma AllPrefixes(s: Tx, es: seq<Event>)
    requires Runnable(s, es)
    ensures forall k :: 0 <= k <= |es| ==> Runnable(s, es[..k])
  {
    forall k | 0 <= k <= |es| ensures Runnable(s, es[..k]) {
      PrefixRunnable(s, es, k);
    }
  }

  ghost predicate SomeOverflow(s: Tx, es: seq<Event>)
    requires Runnable(s, es)
  {
    AllPrefixes(s, es);
    exists k :: 0 <= k < |es| && Overflows(s, es, k)
  }

  ghost predicate SomeDeletion(s: Tx, es: seq<Event>)
    requires Runnable(s, es)
  {
    AllPrefixes(s, es);
    exists k :: 0 <= k < |es| && Deletes(s, es, k)
  }

  lemma PrefixOf(es: seq<Event>, k: nat)
    requires k < |es| - 1
    ensures es[..|es| - 1][..k] == es[..k] && es[..|es| - 1][k] == es[k]
  {
  }

  lemma OverflowLast(s: Tx, es: seq<Event>, n: nat)
    requires n == |es| - 1 && Runnable(s, es) && Runnable(s, es[..n])
    ensures SomeOverflow(s, es) <==> SomeOverflow(s, es[..n]) || Overflows(s, es, n)
  {
    AllPrefixes(s, es);
    AllPrefixes(s, es[..n]);
    forall k | 0 <= k < n ensures Overflows(s, es[..n], k) <==> Overflows(s, es, k) {
      PrefixOf(es, k);
    }
  }

  lemma DeletionLast(s: Tx, es: seq<Event>, n: nat)
    requires n == |es| - 1 && Runnable(s, es) && Runnable(s, es[..n])
    ensures SomeDeletion(s, es) <==> SomeDeletion(s, es[..n]) || Deletes(s, es, n)
  {
    AllPrefixes(s, es);
    AllPrefixes(s, es[..n]);
    forall k | 0 <= k < n ensures Deletes(s, es[..n], k) <==> Deletes(s, es, k) {
      PrefixOf(es, k);
    }
  }

  /** The overflow bit is set exactly by a check that found its buffer full after a first interrupt. */
  lemma {:induction false} RunOverflow(s: Tx, es: seq<Event>)
    requires Inv(s) && Possible(s, es)
    ensures Run(s, es).overflow <==> s.overflow || SomeOverflow(s, es)
    decreases |es|
  {
    if es == [] {
    } else {
      var n := |es| - 1;
      RunLast(s, es);
      PossibleLast(s, es);
      RunKeeps(s, es[..n]);
      RunFirst(s, es[..n]);
      RunOverflow(s, es[..n]);
      StepStatus(Run(s, es[..n]), es[n]);
      OverflowLast(s, es, n);
    }
  }

  /** Late PDOs are reported exactly after a clear that found a synchronous frame
      waiting, or given to the hardware with no interrupt since. */
  lemma {:induction false} RunLate(s: Tx, es: seq<Event>)
    requires Inv(s) && Possible(s, es)
    ensures Run(s, es).late <==> s.late || SomeDeletion(s, es)
    decreases |es|
  {
    if es == [] {
    } else {
      var n := |es| - 1;
      RunLast(s, es);
      PossibleLast(s, es);
      RunKeeps(s, es[..n]);
      RunFlag(s, es[..n]);
      RunLate(s, es[..n]);
      StepStatus(Run(s, es[..n]), es[n]);
      DeletionLast(s, es, n);
    }
  }

  /** From initialisation all four flags are explained by the run alone; the
      overflow bit stays clear until a first interrupt. */
  lemma InitialStatus(syncs: seq<bool>, es: seq<Event>)
    requires Possible(InitialState(syncs), es)
    ensures var s0, s := InitialState(syncs), Run(InitialState(syncs), es);
      && (s.first <==> !Interrupted(es))
      && (s.overflow <==> SomeOverflow(s0, es))
      && (s.late <==> SomeDeletion(s0, es))
      && (s.inhibit <==> FlagHistory(s0, es, false))
    ensures Run(InitialState(syncs), es).overflow ==> Interrupted(es)
  {
    var s0 := InitialState(syncs);
    InitialInv(syncs);
    RunFirst(s0, es);
    RunOverflow(s0, es);
    RunLate(s0, es);
    RunFlag(s0, es);
    AllPrefixes(s0, es);
    if SomeOverflow(s0, es) {
      var k :| 0 <= k < |es| && Overflows(s0, es, k);
      assert Interrupted(es[..k]);
      var j :| 0 <= j < k && Interrupts(es[..k][j]);
      assert Interrupts(es[j]);
    }
  }
}
