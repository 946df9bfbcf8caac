/** CO_CANsend checks for overflow before it takes its lock. When other threads
    and interrupts run in between, is a merged frame still reported? */
module CanOverflow {
  import opened CanTransmit
  import opened CanLedger

  /** The locked part of a send of buffer `i`, `done` mailboxes having completed,
      merges its frame into the one already waiting there. */
  predicate Merges(s: Tx, i: nat, done: nat)
    requires i < |s.slots| && done <= s.busy
  {
    Last(Commit(Free(s, done), i).fates) == Merged
  }

  lemma MergesIffFull(s: Tx, i: nat, done: nat)
    requires Core(s) && i < |s.slots| && done <= s.busy
    ensures Merges(s, i, done) <==> s.slots[i].full
  {
    CommitEvolves(Free(s, done), i);
    PendingAre(s.slots);
    assert s.slots[i].full ==> i in Pending(s.slots);
  }

  lemma CommitFills(s: Tx, j: nat, i: nat)
    requires i < |s.slots| && j < |s.slots| && i != j
    ensures i < |Commit(s, j).slots| && Commit(s, j).slots[i] == s.slots[i]
  {
  }

  lemma LockedFills(s: Tx, j: nat, k: nat, i: nat)
    requires i < |s.slots| && j < |s.slots| && i != j && k <= s.busy
    ensures i < |Locked(s, j, k).slots| && (Locked(s, j, k).slots[i].full ==> s.slots[i].full)
  {
    CommitFills(Free(s, k), j, i);
    CallbackEmpties(Commit(Free(s, k), j), i);
  }

  lemma ClearEmpties(s: Tx, i: nat)
    requires i < |s.slots|
    ensures i < |Clear(s).slots| && (Clear(s).slots[i].full ==> s.slots[i].full)
  {
    ClearFromRemoves(if s.inhibit then s.(inhibit := false, late := true) else s, 0);
  }

  /** No step but a send of buffer `i` fills it. */
  lemma OnlySendFills(s: Tx, e: Event, i: nat)
    requires Enabled(s, e) && i < |s.slots| && (e.Send? ==> e.buffer != i)
    ensures i < |Step(s, e).slots| && (Step(s, e).slots[i].full ==> s.slots[i].full)
  {
    match e
    case Check(_) =>
    case Send(j, k) => LockedFills(s, j, k, i);
    case Done(k) => CallbackEmpties(Free(s, k), i);
    case ClearSync => ClearEmpties(s, i);
    case Init(j, _) =>
  }

  lemma CallbackEmpties(s: Tx, i: nat)
    requires i < |s.slots|
    ensures i < |Callback(s).slots| && (Callback(s).slots[i].full ==> s.slots[i].full)
  {
    CallbackLength(s);
    PendingAre(s.slots);
    assert Pending(s.slots) != [] ==> Pending(s.slots)[0] in Pending(s.slots);
  }

  /** Whatever completions, clears, re-initialisations and sends of other buffers
      come between the check of a send and its lock, a frame that is merged was
      reported as an overflow. */
  lemma {:induction false} MergedWasReported(s: Tx, es: seq<Event>, i: nat, done: nat)
    requires Inv(s) && Possible(s, es) && i < |s.slots| && done <= Run(s, es).busy
    requires forall e :: e in es && e.Send? ==> e.buffer != i
    ensures i < |Run(s, es).slots| && (Merges(Run(s, es), i, done) ==> s.slots[i].full)
    decreases |es|
  {
    if es == [] {
      MergesIffFull(s, i, done);
    } else {
      assert es[0] in es;
      StepKeeps(s, es[0]);
      OnlySendFills(s, es[0], i);
      MergedWasReported(Step(s, es[0]), es[1..], i, done);
    }
  }

  /** A send of buffer `i` made after the first `n` sends is still waiting. */
  predicate StillWaiting(fates: seq<Fate>, i: nat, n: nat) {
    exists t :: n <= t < |fates| && fates[t] == Waiting(i)
  }

  /** In general a frame is merged without a report exactly when the buffer was
      empty at the check and a send of the same buffer, made between the check
      and the lock, is still waiting at the lock. */
  lemma UnreportedIff(s: Tx, es: seq<Event>, i: nat, done: nat)
    requires Inv(s) && Possible(s, es) && i < |s.slots| && done <= Run(s, es).busy
    ensures i < |Run(s, es).slots|
    ensures Merges(Run(s, es), i, done) && !s.slots[i].full <==>
      !s.slots[i].full && StillWaiting(Run(s, es).fates, i, |s.fates|)
  {
    var r := Run(s, es);
    RunKeeps(s, es);
    RunLength(s, es);
    RunConserves(s, es);
    MergesIffFull(r, i, done);
    if r.slots[i].full && !s.slots[i].full {
      assert r.fates[r.slots[i].ticket] == Waiting(i);
      assert r.slots[i].ticket >= |s.fates|;
    }
  }

  /** With all mailboxes busy, a send of an empty buffer that is overtaken by
      another send of it is merged without a report. */
  lemma UnreportedMerge(s: Tx, i: nat)
    requires Inv(s) && i < |s.slots| && !s.slots[i].full && s.busy == MAILBOXES && s.count < COUNTER - 1
    ensures Possible(s, [Check(i)] + [Send(i, 0)])
    ensures var r := Run(s, [Check(i)] + [Send(i, 0)]);
      i < |r.slots| && Merges(r, i, 0) && r.overflow == s.overflow
  {
    var s1 := Step(s, Check(i));
    var s2 := Step(s1, Send(i, 0));
    PossibleOne(s1, Send(i, 0));
    PossibleCons(s, Check(i), [Send(i, 0)]);
    StepKeeps(s1, Send(i, 0));
    MergesIffFull(s2, i, 0);
  }

  lemma PossibleCons(s: Tx, e: Event, es: seq<Event>)
    requires Enabled(s, e) && (e.Send? ==> s.count < COUNTER - 1) && Possible(Step(s, e), es)
    ensures Possible(s, [e] + es) && Run(s, [e] + es) == Run(Step(s, e), es)
  {
    assert ([e] + es)[1..] == es;
  }

  lemma PossibleOne(s: Tx, e: Event)
    requires Enabled(s, e) && (e.Send? ==> s.count < COUNTER - 1)
    ensures Possible(s, [e]) && Run(s, [e]) == Step(s, e)
  {
    assert [e][1..] == [];
  }

  /** Such a state is reachable: three sends fill the mailboxes. */
  lemma UnreportedReachable() returns (es: seq<Event>, s: Tx)
    ensures Possible(InitialState([false]), es) && s == Run(InitialState([false]), es)
    ensures Inv(s) && |s.slots| == 1 && !s.slots[0].full && s.busy == MAILBOXES && s.count == 0 && !s.overflow
  {
    var e := Send(0, 0);
    var s0 := InitialState([false]);
    var s1 := Placing(s0);
    var s2 := Placing(s1);
    s := Placing(s2);
    es := [e] + ([e] + [e]);
    PossibleOne(s2, e);
    PossibleCons(s1, e, [e]);
    PossibleCons(s0, e, [e] + [e]);
    InitialInv([false]);
    RunKeeps(s0, es);
  }

  lemma Placing(s: Tx) returns (t: Tx)
    requires |s.slots| == 1 && !s.slots[0].full && s.count == 0 && s.busy < MAILBOXES
    ensures t == Step(s, Send(0, 0)) && |t.slots| == 1 && !t.slots[0].full && t.count == 0
    ensures t.busy == s.busy + 1 && t.overflow == s.overflow
  {
    t := Step(s, Send(0, 0));
  }
}
