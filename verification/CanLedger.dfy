/** What one step, and a whole run, may do to the fates of messages and to the
    transmit buffers. */
module CanLedger {
  import opened CanTransmit

  /** How a send that was waiting may be settled by `e`. */
  predicate Settles(e: Event, was: Fate, now: Fate) {
    was.Waiting? && match e
      case Send(_, done) => now == Placed && done > 0
      case Done(_) => now == Placed
      case ClearSync => now == Late
      case Init(i, _) => now == Discarded && was.buffer == i
      case Check(_) => false
  }

  /** How the fates of sends may change from `before` to `after` by `e`: at most one
      new one, settled fates stay, and what settles is settled by the right event. */
  predicate Evolves(e: Event, before: seq<Fate>, after: seq<Fate>) {
    |after| == |before| + (if e.Send? then 1 else 0) &&
    forall t :: 0 <= t < |before| ==> after[t] == before[t] || Settles(e, before[t], after[t])
  }

  /** The fate of a new send: placed only if nothing waited and a mailbox was
      free or an interrupt followed, merged only into a full buffer. */
  predicate Accepted(s: Tx, i: nat, done: nat, f: Fate)
    requires i < |s.slots|
  {
    match f
    case Placed => done > 0 || (Pending(s.slots) == [] && s.busy < MAILBOXES)
    case Merged => s.slots[i].full && s.count > 0
    case Waiting(b) => b == i && !s.slots[i].full
    case _ => false
  }

  lemma CallbackEvolves(s: Tx, e: Event)
    requires Core(s) && (s.count > 0 ==> s.busy < MAILBOXES)
    requires e.Done? || (e.Send? && e.done > 0)
    ensures OnlySettles(e, s.fates, Callback(s).fates)
  {
    PendingAre(s.slots);
    if Pending(s.slots) != [] {
      assert Pending(s.slots)[0] in Pending(s.slots);
    }
  }

  lemma CommitEvolves(s: Tx, i: nat)
    requires Core(s) && i < |s.slots|
    ensures |Commit(s, i).fates| == |s.fates| + 1 && Commit(s, i).fates[..|s.fates|] == s.fates
    ensures Accepted(s, i, 0, Commit(s, i).fates[|s.fates|])
  {
    PendingAre(s.slots);
    if s.count == 0 {
      assert |Pending(s.slots)| == 0;
    }
    if s.slots[i].full {
      assert i in Pending(s.slots);
    }
  }

  /** Nothing but waiting sends settled, each by `e`. */
  predicate OnlySettles(e: Event, before: seq<Fate>, after: seq<Fate>) {
    |after| == |before| && forall t :: 0 <= t < |before| ==> after[t] == before[t] || Settles(e, before[t], after[t])
  }

  lemma SettlesTransitive(e: Event, f: seq<Fate>, g: seq<Fate>, h: seq<Fate>)
    requires OnlySettles(e, f, g) && OnlySettles(e, g, h)
    ensures OnlySettles(e, f, h)
  {
  }

  lemma AppendEvolves(e: Event, f: seq<Fate>, g: seq<Fate>, h: seq<Fate>)
    requires e.Send? && |g| == |f| + 1 && g[..|f|] == f && OnlySettles(e, g, h)
    ensures Evolves(e, f, h) && (h[|f|] == g[|f|] || Settles(e, g[|f|], h[|f|]))
  {
    assert forall t :: 0 <= t < |f| ==> g[t] == g[..|f|][t];
  }

  lemma LockedEvolves(s: Tx, i: nat, k: nat)
    requires Inv(s) && i < |s.slots| && k <= s.busy && s.count < COUNTER - 1
    ensures Evolves(Send(i, k), s.fates, Locked(s, i, k).fates)
    ensures Accepted(s, i, k, Locked(s, i, k).fates[|s.fates|])
  {
    var c := Commit(Free(s, k), i);
    CommitEvolves(Free(s, k), i);
    if k > 0 {
      CommitKeeps(Free(s, k), i);
      CommitWaits(Free(s, k), i);
      CallbackEvolves(c, Send(i, k));
    }
    AppendEvolves(Send(i, k), s.fates, c.fates, Locked(s, i, k).fates);
  }

  lemma TakeEvolves(s: Tx, k: nat)
    requires Core(s) && k < |s.slots| && s.slots[k].full
    ensures OnlySettles(ClearSync, s.fates, Take(s, k, Late).fates)
  {
  }

  /** Removal of late frames settles only waiting sends, and only as late. */
  lemma {:induction false} ClearEvolves(s: Tx, k: nat)
    requires Core(s) && k <= |s.slots|
    ensures OnlySettles(ClearSync, s.fates, ClearFrom(s, k).fates)
    decreases |s.slots| - k
  {
    if k == |s.slots| {
    } else {
      if s.slots[k].full && s.slots[k].sync {
        var t := Take(s, k, Late).(late := true);
        TakeKeeps(s, k, Late);
        TakeEvolves(s, k);
        ClearEvolves(t, k + 1);
        SettlesTransitive(ClearSync, s.fates, t.fates, ClearFrom(s, k).fates);
      } else {
        ClearEvolves(s, k + 1);
      }
    }
  }

  lemma InitEvolves(s: Tx, i: nat, sync: bool)
    requires Inv(s)
    ensures OnlySettles(Init(i, sync), s.fates, Step(s, Init(i, sync)).fates)
  {
    if i < |s.slots| && s.slots[i].full {
      assert s.fates[s.slots[i].ticket] == Waiting(i);
    }
  }

  lemma SettlesEvolves(e: Event, f: seq<Fate>, g: seq<Fate>)
    requires !e.Send? && OnlySettles(e, f, g)
    ensures Evolves(e, f, g)
  {
  }

  /** Every step accounts for every message. */
  lemma StepEvolves(s: Tx, e: Event)
    requires Inv(s) && Enabled(s, e) && (e.Send? ==> s.count < COUNTER - 1)
    ensures Evolves(e, s.fates, Step(s, e).fates)
    ensures e.Send? ==> Accepted(s, e.buffer, e.done, Step(s, e).fates[|s.fates|])
  {
    var t := Step(s, e);
    match e {
      case Check(i) =>
      case Send(i, k) => LockedEvolves(s, i, k);
      case Done(k) => CallbackEvolves(Free(s, k), e);
      case ClearSync => ClearEvolves(if s.inhibit then s.(inhibit := false, late := true) else s, 0);
      case Init(i, sync) => InitEvolves(s, i, sync);
    }
    if !e.Send? {
      SettlesEvolves(e, s.fates, t.fates);
    }
  }

  /** The sends that were merged, and the frames discarded by a re-initialisation. */
  ghost function Extras(fates: seq<Fate>): nat {
    multiset(fates)[Merged] + multiset(fates)[Discarded]
  }

  /** An interrupt that finds the counter ahead of the buffers and clears it. */
  predicate Resynchronises(s: Tx, e: Event) {
    e.Done? && s.count > 0 && Pending(s.slots) == []
  }

  lemma AppendExtras(fates: seq<Fate>, f: Fate)
    ensures Extras(fates + [f]) == Extras(fates) + if f == Merged || f == Discarded then 1 else 0
  {
  }

  lemma SettleExtras(fates: seq<Fate>, t: nat, f: Fate)
    requires t < |fates| && fates[t].Waiting? && f != Merged
    ensures Extras(SetFate(fates, t, f)) == Extras(fates) + if f == Discarded then 1 else 0
  {
    assert multiset(fates[t := f]) == multiset(fates) - multiset{fates[t]} + multiset{f};
  }

  lemma CommitExtras(s: Tx, i: nat)
    requires i < |s.slots|
    ensures Commit(s, i).excess + Extras(s.fates) == s.excess + Extras(Commit(s, i).fates)
  {
    AppendExtras(s.fates, Placed);
    AppendExtras(s.fates, Merged);
    AppendExtras(s.fates, Waiting(i));
  }

  /** A send leaves something waiting, or it was placed and nothing is counted. */
  lemma CommitCounts(s: Tx, i: nat)
    requires i < |s.slots|
    ensures Commit(s, i).count == 0 || Pending(Commit(s, i).slots) != []
  {
    var c := Commit(s, i);
    PendingAre(c.slots);
    assert c.slots[i].full ==> i in Pending(c.slots);
  }

  lemma CallbackExtras(s: Tx)
    requires Core(s) && (s.count == 0 || Pending(s.slots) != [])
    ensures Callback(s).excess == s.excess && Extras(Callback(s).fates) == Extras(s.fates)
  {
    PendingAre(s.slots);
    if s.count > 0 {
      var i := Pending(s.slots)[0];
      assert i in Pending(s.slots);
      SettleExtras(s.fates, s.slots[i].ticket, Placed);
      SettleExtras(s.fates, s.slots[i].ticket, Lost);
    }
  }

  lemma TakeExtras(s: Tx, k: nat)
    requires Core(s) && k < |s.slots| && s.slots[k].full
    ensures Extras(Take(s, k, Late).fates) == Extras(s.fates)
  {
    SettleExtras(s.fates, s.slots[k].ticket, Late);
  }

  lemma {:induction false} ClearExtras(s: Tx, k: nat)
    requires Core(s) && k <= |s.slots|
    ensures ClearFrom(s, k).excess == s.excess && Extras(ClearFrom(s, k).fates) == Extras(s.fates)
    decreases |s.slots| - k
  {
    if k == |s.slots| {
    } else {
      if s.slots[k].full && s.slots[k].sync {
        TakeKeeps(s, k, Late);
        TakeExtras(s, k);
        ClearExtras(Take(s, k, Late).(late := true), k + 1);
      } else {
        ClearExtras(s, k + 1);
      }
    }
  }

  lemma LockedExtras(s: Tx, i: nat, k: nat)
    requires Inv(s) && i < |s.slots| && k <= s.busy && s.count < COUNTER - 1
    ensures Locked(s, i, k).excess + Extras(s.fates) == s.excess + Extras(Locked(s, i, k).fates)
  {
    CommitExtras(Free(s, k), i);
    if k > 0 {
      CommitKeeps(Free(s, k), i);
      CommitCounts(Free(s, k), i);
      CallbackExtras(Commit(Free(s, k), i));
    }
  }

  lemma StepExtras(s: Tx, e: Event)
    requires Inv(s) && Enabled(s, e) && (e.Send? ==> s.count < COUNTER - 1) && !Resynchronises(s, e)
    ensures Step(s, e).excess + Extras(s.fates) == s.excess + Extras(Step(s, e).fates)
  {
    match e
    case Check(i) =>
    case Send(i, k) => LockedExtras(s, i, k);
    case Done(k) => CallbackExtras(Free(s, k));
    case ClearSync => ClearExtras(if s.inhibit then s.(inhibit := false, late := true) else s, 0);
    case Init(i, sync) =>
      if i < |s.slots| && s.slots[i].full {
        SettleExtras(s.fates, s.slots[i].ticket, Discarded);
      }
  }

  /** No interrupt of the run resynchronises the counter. */
  predicate Unsynchronised(s: Tx, es: seq<Event>)
    requires Runnable(s, es)
    decreases |es|
  {
    es == [] || (!Resynchronises(s, es[0]) && Unsynchronised(Step(s, es[0]), es[1..]))
  }

  /** Over a run without a resynchronisation the excess of the counter grows by
      exactly the sends merged and the full buffers re-initialised during it. */
  lemma {:induction false} RunExcess(s: Tx, es: seq<Event>)
    requires Inv(s) && Possible(s, es) && Unsynchronised(s, es)
    ensures Run(s, es).excess - s.excess == Extras(Run(s, es).fates) - Extras(s.fates)
    decreases |es|
  {
    if es == [] {
    } else {
      StepKeeps(s, es[0]);
      StepExtras(s, es[0]);
      RunExcess(Step(s, es[0]), es[1..]);
    }
  }

  /** The number of sends in a run. */
  function Sends(es: seq<Event>): nat {
    if es == [] then 0 else (if es[0].Send? then 1 else 0) + Sends(es[1..])
  }

  /** Message conservation: every send of a run has one fate, and a fate once
      settled never changes. */
  lemma {:induction false} RunConserves(s: Tx, es: seq<Event>)
    requires Inv(s) && Possible(s, es)
    ensures |Run(s, es).fates| == |s.fates| + Sends(es)
    ensures forall t :: 0 <= t < |s.fates| && !s.fates[t].Waiting? ==> Run(s, es).fates[t] == s.fates[t]
    ensures forall t :: 0 <= t < |s.fates| && Run(s, es).fates[t].Waiting? ==> Run(s, es).fates[t] == s.fates[t]
    decreases |es|
  {
    if es == [] {
    } else {
      StepKeeps(s, es[0]);
      StepEvolves(s, es[0]);
      RunConserves(Step(s, es[0]), es[1..]);
    }
  }

  /** From `k` on no synchronous frame waits, and nothing else has changed. */
  predicate SyncRemoved(before: seq<Slot>, after: seq<Slot>, k: nat) {
    |after| == |before| && forall i :: 0 <= i < |before| ==>
      after[i] == if k <= i && before[i].sync then before[i].(full := false) else before[i]
  }

  lemma {:induction false} ClearFromRemoves(s: Tx, k: nat)
    requires k <= |s.slots|
    ensures SyncRemoved(s.slots, ClearFrom(s, k).slots, k)
    ensures ClearFrom(s, k).late <==> s.late || exists i :: k <= i < |s.slots| && s.slots[i].full && s.slots[i].sync
    decreases |s.slots| - k
  {
    if k == |s.slots| {
    } else {
      ClearFromRemoves(if s.slots[k].full && s.slots[k].sync then Take(s, k, Late).(late := true) else s, k + 1);
    }
  }

  /** After a clear no synchronous frame waits and every other buffer is as it
      was; late PDOs are reported exactly if one was waiting or was the last frame submitted. */
  lemma ClearRemoves(s: Tx)
    requires Inv(s)
    ensures SyncRemoved(s.slots, Clear(s).slots, 0)
    ensures Clear(s).late <==>
      s.late || s.inhibit || exists i :: 0 <= i < |s.slots| && s.slots[i].full && s.slots[i].sync
  {
    PendingAre(s.slots);
    if s.count == 0 {
      assert Pending(s.slots) == [];
      assert forall i :: 0 <= i < |s.slots| && s.slots[i].full ==> i in Pending(s.slots);
    } else {
      ClearFromRemoves(if s.inhibit then s.(inhibit := false, late := true) else s, 0);
    }
  }
}
