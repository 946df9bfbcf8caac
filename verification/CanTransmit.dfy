/** The transmit side of the CANopen driver as a transition system: sends,
    mailbox completions with their interrupt, removal of late synchronous PDOs
    and re-initialisation of buffers, in any order. */
module CanTransmit {
  const MAILBOXES := 3
  /** CANtxCount is a 16-bit counter. */
  const COUNTER := 65536

  /** What became of one call of CO_CANsend. `Lost` would be a frame taken from
      its buffer and refused by the hardware. */
  datatype Fate = Placed | Waiting(buffer: nat) | Merged | Late | Discarded | Lost

  /** A transmit buffer. `ticket` is the number of the send it is full for. */
  datatype Slot = Slot(full: bool, sync: bool, ticket: nat)

  /** The driver, the number of busy mailboxes, and a ledger: the fate of every
      send so far, the sends given to the hardware in order, and how far the
      counter exceeds the number of full buffers. */
  datatype Tx = Tx(slots: seq<Slot>, count: nat, busy: nat, inhibit: bool, first: bool,
                   overflow: bool, late: bool, fates: seq<Fate>, log: seq<nat>, excess: nat)

  datatype Event =
    | Check(buffer: nat)            // the overflow check of a send, before its lock
    | Send(buffer: nat, done: nat)  // its locked part, during which `done` mailboxes complete
    | Done(done: nat)               // completions and their one interrupt
    | ClearSync
    | Init(buffer: nat, sync: bool)

  /** The full buffers, lowest index first. */
  function Pending(slots: seq<Slot>): seq<nat> {
    if slots == [] then [] else
      var n := |slots| - 1;
      Pending(slots[..n]) + if slots[n].full then [n] else []
  }

  function Up(count: nat): nat {
    (count + 1) % COUNTER
  }

  function Down(count: nat): nat {
    (count + COUNTER - 1) % COUNTER
  }

  function Commit(s: Tx, i: nat): Tx
    requires i < |s.slots|
  {
    if s.count == 0 && s.busy < MAILBOXES then
      s.(busy := s.busy + 1, inhibit := s.slots[i].sync, fates := s.fates + [Placed], log := s.log + [|s.fates|])
    else if s.slots[i].full then
      s.(count := Up(s.count), fates := s.fates + [Merged], excess := s.excess + 1)
    else
      s.(slots := s.slots[i := Slot(true, s.slots[i].sync, |s.fates|)],
         count := Up(s.count), fates := s.fates + [Waiting(i)])
  }

  function SetFate(fates: seq<Fate>, t: nat, f: Fate): seq<Fate> {
    if t < |fates| then fates[t := f] else fates
  }

  /** Takes full buffer `i` out of the queue. */
  function Take(s: Tx, i: nat, f: Fate): Tx
    requires i < |s.slots|
  {
    s.(slots := s.slots[i := s.slots[i].(full := false)], count := Down(s.count),
       fates := SetFate(s.fates, s.slots[i].ticket, f))
  }

  function Callback(s: Tx): Tx {
    var s := s.(first := false, inhibit := false);
    if s.count == 0 then s
    else if Pending(s.slots) == [] then s.(count := 0, excess := 0)
    else
      PendingAre(s.slots);
      var i := Pending(s.slots)[0];
      assert i in Pending(s.slots);
      if s.busy < MAILBOXES then
        Take(s, i, Placed).(inhibit := s.slots[i].sync, busy := s.busy + 1, log := s.log + [s.slots[i].ticket])
      else
        Take(s, i, Lost).(inhibit := s.slots[i].sync)
  }

  function ClearFrom(s: Tx, k: nat): Tx
    requires k <= |s.slots|
    decreases |s.slots| - k
  {
    if k == |s.slots| then s
    else if s.slots[k].full && s.slots[k].sync then ClearFrom(Take(s, k, Late).(late := true), k + 1)
    else ClearFrom(s, k + 1)
  }

  function Clear(s: Tx): Tx {
    var s := if s.inhibit then s.(inhibit := false, late := true) else s;
    if s.count != 0 then ClearFrom(s, 0) else s
  }

  predicate Enabled(s: Tx, e: Event) {
    match e
    case Check(i) => i < |s.slots|
    case Send(i, k) => i < |s.slots| && k <= s.busy
    case Done(k) => 1 <= k <= s.busy
    case ClearSync => true
    case Init(i, _) => true
  }

  /** `k` mailboxes complete. */
  function Free(s: Tx, k: nat): Tx
    requires k <= s.busy
  {
    s.(busy := s.busy - k)
  }

  /** The locked part of a send; if mailboxes completed meanwhile, their interrupt
      is taken as soon as the lock is released. */
  function Locked(s: Tx, i: nat, k: nat): Tx
    requires i < |s.slots| && k <= s.busy
  {
    if k > 0 then Callback(Commit(Free(s, k), i)) else Commit(Free(s, k), i)
  }

  function Step(s: Tx, e: Event): Tx
    requires Enabled(s, e)
  {
    match e
    case Check(i) => s.(overflow := s.overflow || (s.slots[i].full && !s.first))
    case Send(i, k) => Locked(s, i, k)
    case Done(k) => Callback(Free(s, k))
    case ClearSync => Clear(s)
    case Init(i, sync) =>
      if i >= |s.slots| then s
      else if s.slots[i].full then
        s.(slots := s.slots[i := s.slots[i].(full := false, sync := sync)],
           fates := SetFate(s.fates, s.slots[i].ticket, Discarded), excess := s.excess + 1)
      else s.(slots := s.slots[i := s.slots[i].(full := false, sync := sync)])
  }

  /** A run: every step is possible where it is taken. */
  predicate Runnable(s: Tx, es: seq<Event>)
    decreases |es|
  {
    es == [] || (Enabled(s, es[0]) && Runnable(Step(s, es[0]), es[1..]))
  }

  function Run(s: Tx, es: seq<Event>): Tx
    requires Runnable(s, es)
    decreases |es|
  {
    if es == [] then s else Run(Step(s, es[0]), es[1..])
  }

  /** A run that never counts beyond 16 bits. */
  predicate Possible(s: Tx, es: seq<Event>)
    ensures Possible(s, es) ==> Runnable(s, es)
    decreases |es|
  {
    es == [] || (Enabled(s, es[0]) && (es[0].Send? ==> s.count < COUNTER - 1) && Possible(Step(s, es[0]), es[1..]))
  }

  /** CO_CANmodule_init: every buffer empty, nothing counted, all mailboxes free. */
  function InitialState(syncs: seq<bool>): Tx {
    Tx(seq(|syncs|, i requires 0 <= i < |syncs| => Slot(false, syncs[i], 0)),
       0, 0, false, true, false, false, [], [], 0)
  }

  /** Full buffers and waiting sends correspond one to one. */
  predicate WaitingMatch(slots: seq<Slot>, fates: seq<Fate>) {
    (forall i :: 0 <= i < |slots| && slots[i].full ==>
      slots[i].ticket < |fates| && fates[slots[i].ticket] == Waiting(i)) &&
    (forall t :: 0 <= t < |fates| && fates[t].Waiting? ==>
      fates[t].buffer < |slots| && slots[fates[t].buffer].full && slots[fates[t].buffer].ticket == t)
  }

  /** The sends placed in a mailbox are exactly those given to the hardware, each once. */
  predicate PlacedOnce(fates: seq<Fate>, log: seq<nat>) {
    (forall k :: 0 <= k < |log| ==> log[k] < |fates| && fates[log[k]] == Placed) &&
    (forall t :: 0 <= t < |fates| && fates[t] == Placed ==> t in log) &&
    (forall j, k :: 0 <= j < k < |log| ==> log[j] != log[k])
  }

  /** No frame is lost, and a removed synchronous PDO is reported. */
  predicate NoneLost(fates: seq<Fate>, late: bool) {
    forall t :: 0 <= t < |fates| ==> fates[t] != Lost && (fates[t] == Late ==> late)
  }

  predicate Counted(s: Tx) {
    s.count == |Pending(s.slots)| + s.excess && s.count < COUNTER && s.busy <= MAILBOXES
  }

  /** Something waiting to be sent implies that a completion interrupt is still to come. */
  predicate Awake(s: Tx) {
    s.count > 0 ==> s.busy > 0
  }

  predicate Core(s: Tx) {
    Counted(s) && WaitingMatch(s.slots, s.fates) && PlacedOnce(s.fates, s.log) && NoneLost(s.fates, s.late)
  }

  predicate Inv(s: Tx) {
    Core(s) && Awake(s)
  }

  lemma {:induction false} PendingMember(slots: seq<Slot>, i: nat)
    ensures i in Pending(slots) <==> i < |slots| && slots[i].full
  {
    if slots == [] {
    } else {
      var n := |slots| - 1;
      PendingMember(slots[..n], i);
      assert slots[n].full ==> Pending(slots)[|Pending(slots)| - 1] == n;
    }
  }

  lemma {:induction false} PendingAscends(slots: seq<Slot>)
    ensures forall j :: 0 <= j < |Pending(slots)| ==> Pending(slots)[j] < |slots|
    ensures forall j, k :: 0 <= j < k < |Pending(slots)| ==> Pending(slots)[j] < Pending(slots)[k]
    ensures |Pending(slots)| <= |slots|
  {
    if slots == [] {
    } else {
      PendingAscends(slots[..|slots| - 1]);
    }
  }

  lemma PendingAre(slots: seq<Slot>)
    ensures forall i :: i in Pending(slots) <==> 0 <= i < |slots| && slots[i].full
    ensures forall j, k :: 0 <= j < k < |Pending(slots)| ==> Pending(slots)[j] < Pending(slots)[k]
    ensures |Pending(slots)| <= |slots|
  {
    forall i: nat ensures i in Pending(slots) <==> i < |slots| && slots[i].full {
      PendingMember(slots, i);
    }
    PendingAscends(slots);
  }

  /** Filling an empty buffer, or emptying a full one, changes the number of full buffers by one. */
  lemma {:induction false} PendingUpdate(slots: seq<Slot>, i: nat, x: Slot)
    requires i < |slots|
    ensures |Pending(slots[i := x])| - |Pending(slots)| == (if x.full then 1 else 0) - (if slots[i].full then 1 else 0)
    ensures x.full == slots[i].full ==> Pending(slots[i := x]) == Pending(slots)
  {
    var n := |slots| - 1;
    if i == n {
      assert slots[i := x][..n] == slots[..n];
    } else {
      assert slots[i := x][..n] == slots[..n][i := x];
      PendingUpdate(slots[..n], i, x);
    }
  }

  lemma TailJoined(a: seq<nat>, b: seq<nat>)
    requires a != []
    ensures (a + b)[1..] == a[1..] + b && (a + b)[0] == a[0]
  {
  }

  /** Emptying the lowest full buffer leaves the others, in order. */
  lemma {:induction false} PendingTake(slots: seq<Slot>, x: Slot)
    requires Pending(slots) != [] && !x.full
    ensures Pending(slots)[0] < |slots| && slots[Pending(slots)[0]].full
    ensures Pending(slots[Pending(slots)[0] := x]) == Pending(slots)[1..]
  {
    var n := |slots| - 1;
    PendingAre(slots);
    var i := Pending(slots)[0];
    if Pending(slots[..n]) == [] {
      assert slots[i := x][..n] == slots[..n];
    } else {
      PendingTake(slots[..n], x);
      assert slots[i := x][..n] == slots[..n][i := x];
      TailJoined(Pending(slots[..n]), if slots[n].full then [n] else []);
    }
  }

  /** A new send that is placed at once. */
  lemma AppendPlaced(fates: seq<Fate>, log: seq<nat>)
    requires PlacedOnce(fates, log)
    ensures PlacedOnce(fates + [Placed], log + [|fates|])
  {
    forall t | 0 <= t < |fates + [Placed]| && (fates + [Placed])[t] == Placed ensures t in log + [|fates|] {
      if t < |fates| {
        assert t in log;
      } else {
        assert (log + [|fates|])[|log|] == t;
      }
    }
  }

  /** A new send that is not placed. */
  lemma AppendOther(fates: seq<Fate>, log: seq<nat>, f: Fate)
    requires PlacedOnce(fates, log) && f != Placed
    ensures PlacedOnce(fates + [f], log)
  {
  }

  /** A waiting send that is placed, or given up. */
  lemma SettlePlaced(fates: seq<Fate>, log: seq<nat>, t: nat, f: Fate)
    requires PlacedOnce(fates, log) && t < |fates| && fates[t].Waiting?
    ensures f == Placed ==> PlacedOnce(fates[t := f], log + [t])
    ensures f != Placed ==> PlacedOnce(fates[t := f], log)
  {
    forall u | 0 <= u < |fates| && fates[t := f][u] == Placed ensures u in log + [t] && (u != t ==> u in log) {
      if u == t {
        assert (log + [t])[|log|] == u;
      } else {
        assert u in log;
      }
    }
  }

  lemma FillMatches(slots: seq<Slot>, fates: seq<Fate>, i: nat)
    requires WaitingMatch(slots, fates) && i < |slots| && !slots[i].full
    ensures WaitingMatch(slots[i := Slot(true, slots[i].sync, |fates|)], fates + [Waiting(i)])
  {
  }

  lemma EmptyMatches(slots: seq<Slot>, fates: seq<Fate>, i: nat, x: Slot, f: Fate)
    requires WaitingMatch(slots, fates) && i < |slots| && slots[i].full && !x.full && !f.Waiting?
    ensures WaitingMatch(slots[i := x], fates[slots[i].ticket := f])
  {
  }

  lemma PlacedKeeps(s: Tx, inhibit: bool)
    requires Core(s) && s.busy < MAILBOXES
    ensures Core(s.(busy := s.busy + 1, inhibit := inhibit, fates := s.fates + [Placed], log := s.log + [|s.fates|]))
  {
    AppendPlaced(s.fates, s.log);
  }

  lemma MergedKeeps(s: Tx)
    requires Core(s) && s.count < COUNTER - 1
    ensures Core(s.(count := Up(s.count), fates := s.fates + [Merged], excess := s.excess + 1))
  {
    AppendOther(s.fates, s.log, Merged);
  }

  lemma WaitingKeeps(s: Tx, i: nat)
    requires Core(s) && i < |s.slots| && !s.slots[i].full && s.count < COUNTER - 1
    ensures Core(s.(slots := s.slots[i := Slot(true, s.slots[i].sync, |s.fates|)],
                    count := Up(s.count), fates := s.fates + [Waiting(i)]))
  {
    PendingUpdate(s.slots, i, Slot(true, s.slots[i].sync, |s.fates|));
    AppendOther(s.fates, s.log, Waiting(i));
    FillMatches(s.slots, s.fates, i);
  }

  lemma CommitKeeps(s: Tx, i: nat)
    requires Core(s) && i < |s.slots| && s.count < COUNTER - 1
    ensures Core(Commit(s, i))
  {
    if s.count == 0 && s.busy < MAILBOXES {
      PlacedKeeps(s, s.slots[i].sync);
    } else if s.slots[i].full {
      MergedKeeps(s);
    } else {
      WaitingKeeps(s, i);
    }
  }

  /** Taking a full buffer out of the queue, whether to place it or as late. */
  lemma TakeKeeps(s: Tx, i: nat, f: Fate)
    requires Core(s) && i < |s.slots| && s.slots[i].full && (f == Placed || f == Late)
    ensures var t := Take(s, i, f).(late := s.late || f == Late,
      log := if f == Placed then s.log + [s.slots[i].ticket] else s.log); Core(t) && t.count < s.count
  {
    PendingUpdate(s.slots, i, s.slots[i].(full := false));
    SettlePlaced(s.fates, s.log, s.slots[i].ticket, f);
    EmptyMatches(s.slots, s.fates, i, s.slots[i].(full := false), f);
  }

  lemma CallbackKeeps(s: Tx)
    requires Core(s) && (s.count > 0 ==> s.busy < MAILBOXES)
    ensures Inv(Callback(s))
  {
    PendingAre(s.slots);
    if Pending(s.slots) != [] {
      var i := Pending(s.slots)[0];
      assert i in Pending(s.slots);
      TakeKeeps(s.(first := false, inhibit := false), i, Placed);
    }
  }

  lemma {:induction false} ClearKeeps(s: Tx, k: nat)
    requires Inv(s) && k <= |s.slots|
    ensures Inv(ClearFrom(s, k))
    decreases |s.slots| - k
  {
    if k == |s.slots| {
    } else {
      if s.slots[k].full && s.slots[k].sync {
        TakeKeeps(s, k, Late);
        ClearKeeps(Take(s, k, Late).(late := true), k + 1);
      } else {
        ClearKeeps(s, k + 1);
      }
    }
  }

  lemma DiscardKeeps(s: Tx, i: nat, x: Slot)
    requires Inv(s) && i < |s.slots| && s.slots[i].full && !x.full
    ensures Inv(s.(slots := s.slots[i := x], fates := SetFate(s.fates, s.slots[i].ticket, Discarded),
                   excess := s.excess + 1))
  {
    PendingUpdate(s.slots, i, x);
    SettlePlaced(s.fates, s.log, s.slots[i].ticket, Discarded);
    EmptyMatches(s.slots, s.fates, i, x, Discarded);
  }

  lemma ResetKeeps(s: Tx, i: nat, x: Slot)
    requires Inv(s) && i < |s.slots| && !s.slots[i].full && !x.full
    ensures Inv(s.(slots := s.slots[i := x]))
  {
    PendingUpdate(s.slots, i, x);
  }

  lemma InitKeeps(s: Tx, i: nat, sync: bool)
    requires Inv(s)
    ensures Inv(Step(s, Init(i, sync)))
  {
    if i < |s.slots| {
      if s.slots[i].full {
        DiscardKeeps(s, i, s.slots[i].(full := false, sync := sync));
      } else {
        ResetKeeps(s, i, s.slots[i].(full := false, sync := sync));
      }
    }
  }

  lemma CommitWaits(s: Tx, i: nat)
    requires Counted(s) && i < |s.slots| && s.count < COUNTER - 1
    ensures Commit(s, i).count > 0 ==> Commit(s, i).busy == s.busy && (s.count > 0 || s.busy == MAILBOXES)
  {
  }

  lemma LockedKeeps(s: Tx, i: nat, k: nat)
    requires Inv(s) && i < |s.slots| && k <= s.busy && s.count < COUNTER - 1
    ensures Inv(Locked(s, i, k))
  {
    if k > 0 {
      CommitKeeps(Free(s, k), i);
      CommitWaits(Free(s, k), i);
      CallbackKeeps(Commit(Free(s, k), i));
    } else {
      CommitKeeps(Free(s, k), i);
      CommitWaits(Free(s, k), i);
    }
  }

  /** Every step but a send at the top of the 16-bit counter keeps the invariant. */
  lemma StepKeeps(s: Tx, e: Event)
    requires Inv(s) && Enabled(s, e) && (e.Send? ==> s.count < COUNTER - 1)
    ensures Inv(Step(s, e))
  {
    match e
    case Check(i) =>
    case Send(i, k) => LockedKeeps(s, i, k);
    case Done(k) => CallbackKeeps(Free(s, k));
    case ClearSync => ClearKeeps(if s.inhibit then s.(inhibit := false, late := true) else s, 0);
    case Init(i, sync) => InitKeeps(s, i, sync);
  }

  lemma {:induction false} NonePending(slots: seq<Slot>)
    requires forall i :: 0 <= i < |slots| ==> !slots[i].full
    ensures Pending(slots) == []
  {
    if slots == [] {
    } else {
      NonePending(slots[..|slots| - 1]);
    }
  }

  lemma InitialInv(syncs: seq<bool>)
    ensures Inv(InitialState(syncs))
  {
    NonePending(InitialState(syncs).slots);
  }

  /** The invariant holds in every state of every run. */
  lemma {:induction false} RunKeeps(s: Tx, es: seq<Event>)
    requires Inv(s) && Possible(s, es)
    ensures Inv(Run(s, es))
    decreases |es|
  {
    if es == [] {
    } else {
      StepKeeps(s, es[0]);
      RunKeeps(Step(s, es[0]), es[1..]);
    }
  }

  /** A send keeps the invariant exactly when the counter is not about to wrap. */
  lemma SendKeepsIff(s: Tx, i: nat, k: nat)
    requires Inv(s) && Enabled(s, Send(i, k))
    ensures Inv(Step(s, Send(i, k))) <==> s.count < COUNTER - 1
  {
    if s.count < COUNTER - 1 {
      LockedKeeps(s, i, k);
    } else {
      CommitWraps(Free(s, k), i);
    }
  }

  lemma CommitWraps(s: Tx, i: nat)
    requires Counted(s) && i < |s.slots| && s.count == COUNTER - 1
    ensures Commit(s, i).count == 0 && !Counted(Commit(s, i)) && !Counted(Callback(Commit(s, i)))
  {
    PendingUpdate(s.slots, i, Slot(true, s.slots[i].sync, |s.fates|));
  }

  /** Repeated sends of one full buffer, without a completion. */
  function Resends(n: nat): seq<Event> {
    if n == 0 then [] else [Send(0, 0)] + Resends(n - 1)
  }

  lemma {:induction false} ResendsCount(s: Tx, n: nat)
    requires |s.slots| == 1 && s.slots[0].full && 1 <= s.count && s.count + n < COUNTER
    ensures Possible(s, Resends(n))
    ensures Run(s, Resends(n)).slots == s.slots && Run(s, Resends(n)).count == s.count + n
    ensures Run(s, Resends(n)).busy == s.busy
    decreases n
  {
    if n == 0 {
    } else {
      ResendsCount(Step(s, Send(0, 0)), n - 1);
      ResendFirst(s, n);
    }
  }

  /** The counter can wrap: after 65538 sends of one buffer (three placed, the rest
      of them while it waits) the next one leaves it waiting with a counter of
      zero, and no completion will send it. */
  lemma WrapLosesWakeup(n: nat) returns (s: Tx)
    requires n == COUNTER + 2
    ensures Possible(InitialState([false]), Resends(n)) && s == Run(InitialState([false]), Resends(n))
    ensures Enabled(s, Send(0, 0)) && Enabled(Step(s, Send(0, 0)), Done(3))
    ensures var t := Step(Step(s, Send(0, 0)), Done(3));
      |t.slots| == 1 && t.slots[0].full && t.count == 0 && t.busy == 0
  {
    var s3, s4 := FirstSends(n);
    ResendsCount(s4, n - 4);
    s := Run(s4, Resends(n - 4));
    ResendFirst(s3, n - 3);
  }

  /** Three sends fill the mailboxes; the fourth waits. */
  lemma FirstSends(n: nat) returns (s3: Tx, s4: Tx)
    requires n > 3
    ensures Enabled(s3, Send(0, 0)) && s3.count == 0 && s4 == Step(s3, Send(0, 0))
    ensures |s4.slots| == 1 && s4.slots[0].full && s4.count == 1 && s4.busy == 3
    ensures Possible(s3, Resends(n - 3)) ==>
      Possible(InitialState([false]), Resends(n)) && Run(InitialState([false]), Resends(n)) == Run(s3, Resends(n - 3))
  {
    var s0 := InitialState([false]);
    var s1 := Step(s0, Send(0, 0));
    var s2 := Step(s1, Send(0, 0));
    s3 := Step(s2, Send(0, 0));
    s4 := Step(s3, Send(0, 0));
    if Possible(s3, Resends(n - 3)) {
      ResendFirst(s2, n - 2);
      ResendFirst(s1, n - 1);
      ResendFirst(s0, n);
    }
  }

  lemma ResendFirst(s: Tx, n: nat)
    requires n > 0 && Enabled(s, Send(0, 0)) && s.count < COUNTER - 1 && Possible(Step(s, Send(0, 0)), Resends(n - 1))
    ensures Possible(s, Resends(n)) && Run(s, Resends(n)) == Run(Step(s, Send(0, 0)), Resends(n - 1))
  {
    assert Resends(n)[1..] == Resends(n - 1);
  }

  /** The sends that the listed buffers are full for. */
  function Tickets(slots: seq<Slot>, p: seq<nat>): seq<nat>
    requires forall k :: 0 <= k < |p| ==> p[k] < |slots|
  {
    if p == [] then [] else [slots[p[0]].ticket] + Tickets(slots, p[1..])
  }

  lemma {:induction false} TicketsElsewhere(slots: seq<Slot>, p: seq<nat>, i: nat, x: Slot)
    requires (forall k :: 0 <= k < |p| ==> p[k] < |slots| && p[k] != i) && i < |slots|
    ensures Tickets(slots[i := x], p) == Tickets(slots, p)
  {
    if p == [] {
    } else {
      TicketsElsewhere(slots, p[1..], i, x);
    }
  }

  /** `t` is `s` after its `n` lowest full buffers have been sent, in order. */
  ghost predicate Drained(s: Tx, t: Tx, n: nat) {
    var p := Pending(s.slots);
    n <= |p| && (forall k :: 0 <= k < |p| ==> p[k] < |s.slots|) &&
    Pending(t.slots) == p[n..] && t.log == s.log + Tickets(s.slots, p[..n])
  }

  /** Without new sends each interrupt sends one more waiting buffer, lowest index first. */
  lemma {:induction false} Drain(s: Tx, es: seq<Event>)
    requires Inv(s) && Possible(s, es) && forall e :: e in es ==> e.Done?
    requires |es| <= |Pending(s.slots)|
    ensures Drained(s, Run(s, es), |es|)
    decreases |es|
  {
    PendingInRange(s.slots);
    if es == [] {
    } else {
      StepKeeps(s, es[0]);
      DrainOne(s, es[0]);
      Drain(Step(s, es[0]), es[1..]);
      DrainedStep(s, Step(s, es[0]), Run(s, es), |es|);
    }
  }

  /** The queue can always be emptied: an interrupt is to come for every full buffer. */
  lemma {:induction false} CanDrain(s: Tx) returns (es: seq<Event>)
    requires Inv(s)
    ensures Possible(s, es) && |es| == |Pending(s.slots)| && forall e :: e in es ==> e.Done?
    ensures Pending(Run(s, es).slots) == [] && Drained(s, Run(s, es), |es|)
    decreases |Pending(s.slots)|
  {
    if Pending(s.slots) == [] {
      es := [];
    } else {
      var e := Done(1);
      StepKeeps(s, e);
      DrainOne(s, e);
      var rest := CanDrain(Step(s, e));
      es := [e] + rest;
      assert es[1..] == rest;
    }
    Drain(s, es);
  }

  lemma DrainedStep(s: Tx, t: Tx, u: Tx, n: nat)
    requires 1 <= n <= |Pending(s.slots)| && Drained(t, u, n - 1) && Pending(t.slots) == Pending(s.slots)[1..]
    requires forall k :: 0 <= k < |Pending(s.slots)| ==> Pending(s.slots)[k] < |s.slots|
    requires forall k :: 0 < k < |Pending(s.slots)| ==> Pending(s.slots)[k] != Pending(s.slots)[0]
    requires t.slots == s.slots[Pending(s.slots)[0] := s.slots[Pending(s.slots)[0]].(full := false)]
    requires t.log == s.log + [s.slots[Pending(s.slots)[0]].ticket]
    ensures Drained(s, u, n)
  {
    DrainedTickets(s.slots, Pending(s.slots), n);
  }

  lemma ShiftedSlices(p: seq<nat>, n: nat)
    requires 1 <= n <= |p|
    ensures p[1..][n - 1..] == p[n..] && p[..n][1..] == p[1..][..n - 1]
  {
  }

  lemma DrainedTickets(slots: seq<Slot>, p: seq<nat>, n: nat)
    requires (forall k :: 0 <= k < |p| ==> p[k] < |slots|) && (forall k :: 0 < k < |p| ==> p[k] != p[0])
    requires 1 <= n <= |p|
    ensures p[1..][n - 1..] == p[n..]
    ensures [slots[p[0]].ticket] + Tickets(slots[p[0] := slots[p[0]].(full := false)], p[1..][..n - 1])
      == Tickets(slots, p[..n])
  {
    ShiftedSlices(p, n);
    TicketsElsewhere(slots, p[1..][..n - 1], p[0], slots[p[0]].(full := false));
  }

  lemma PendingInRange(slots: seq<Slot>)
    ensures forall k :: 0 <= k < |Pending(slots)| ==> Pending(slots)[k] < |slots| && slots[Pending(slots)[k]].full
    ensures forall k :: 0 < k < |Pending(slots)| ==> Pending(slots)[k] != Pending(slots)[0]
  {
    PendingAre(slots);
    assert forall k :: 0 <= k < |Pending(slots)| ==> Pending(slots)[k] in Pending(slots);
  }

  lemma DrainOne(s: Tx, e: Event)
    requires Inv(s) && e.Done? && Enabled(s, e) && Pending(s.slots) != []
    ensures Pending(s.slots)[0] < |s.slots|
    ensures Step(s, e).slots == s.slots[Pending(s.slots)[0] := s.slots[Pending(s.slots)[0]].(full := false)]
    ensures Step(s, e).log == s.log + [s.slots[Pending(s.slots)[0]].ticket]
    ensures Pending(Step(s, e).slots) == Pending(s.slots)[1..]
  {
    PendingAre(s.slots);
    assert Pending(s.slots)[0] in Pending(s.slots);
    PendingTake(s.slots, s.slots[Pending(s.slots)[0]].(full := false));
  }

  /** No lost wakeup: in every reachable state, a waiting buffer or a non-zero
      counter means that a completion interrupt is still to come. */
  lemma WakeupToCome(syncs: seq<bool>, es: seq<Event>)
    requires Possible(InitialState(syncs), es)
    ensures var s := Run(InitialState(syncs), es);
      Pending(s.slots) != [] || s.count > 0 ==> s.count >= |Pending(s.slots)| && Enabled(s, Done(1))
  {
    InitialInv(syncs);
    RunKeeps(InitialState(syncs), es);
  }

  /** Once nothing waits, one more interrupt resynchronises the counter. */
  lemma Resynchronise(s: Tx, e: Event)
    requires Inv(s) && e.Done? && Enabled(s, e) && Pending(s.slots) == []
    ensures Step(s, e).count == 0 && Step(s, e).excess == 0 && Pending(Step(s, e).slots) == []
  {
  }

  function Last(fates: seq<Fate>): Fate {
    if fates == [] then Lost else fates[|fates| - 1]
  }

  /** The first full buffer met from the start is the lowest pending one. */
  lemma {:induction false} FirstPending(slots: seq<Slot>, i: nat)
    requires i < |slots| && slots[i].full && forall j :: 0 <= j < i ==> !slots[j].full
    ensures Pending(slots) != [] && Pending(slots)[0] == i
  {
    var n := |slots| - 1;
    if i == n {
      NonePending(slots[..n]);
    } else {
      FirstPending(slots[..n], i);
    }
  }

  lemma {:induction false} RunAppend(s: Tx, es: seq<Event>, e: Event)
    requires Runnable(s, es) && Enabled(Run(s, es), e)
    ensures Runnable(s, es + [e]) && Run(s, es + [e]) == Step(Run(s, es), e)
    decreases |es|
  {
    if es == [] {
      assert es + [e] == [e] && [e][1..] == [];
    } else {
      assert (es + [e])[1..] == es[1..] + [e];
      RunAppend(Step(s, es[0]), es[1..], e);
    }
  }

  lemma {:induction false} ClearLength(s: Tx, k: nat)
    requires k <= |s.slots|
    ensures |ClearFrom(s, k).slots| == |s.slots|
    decreases |s.slots| - k
  {
    if k == |s.slots| {
    } else {
      ClearLength(if s.slots[k].full && s.slots[k].sync then Take(s, k, Late).(late := true) else s, k + 1);
    }
  }

  lemma CallbackLength(s: Tx)
    ensures |Callback(s).slots| == |s.slots|
  {
    PendingAre(s.slots);
    assert Pending(s.slots) != [] ==> Pending(s.slots)[0] in Pending(s.slots);
  }

  lemma StepLength(s: Tx, e: Event)
    requires Enabled(s, e)
    ensures |Step(s, e).slots| == |s.slots|
  {
    match e
    case Check(i) =>
    case Send(i, k) => CallbackLength(Commit(Free(s, k), i));
    case Done(k) => CallbackLength(Free(s, k));
    case ClearSync => ClearLength(if s.inhibit then s.(inhibit := false, late := true) else s, 0);
    case Init(i, sync) =>
  }

  lemma {:induction false} RunLength(s: Tx, es: seq<Event>)
    requires Runnable(s, es)
    ensures |Run(s, es).slots| == |s.slots|
    decreases |es|
  {
    if es == [] {
    } else {
      StepLength(s, es[0]);
      RunLength(Step(s, es[0]), es[1..]);
    }
  }
}
