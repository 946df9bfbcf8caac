/** The node being updated, seen through an unreliable CAN link. Every command
    may be lost, refused or cut short by a power failure. */
module Remote {
  import opened Flash
  import opened Sequences

  const FLASH_START := 0x0800_0000

  /** The data frames that carry `d`: full frames of 8 bytes, then the rest. */
  function Frames(d: seq<byte>): (fs: seq<seq<byte>>) {
    if d == [] then [] else if |d| <= 8 then [d] else [d[..8]] + Frames(d[8..])
  }

  /** Splitting into frames loses nothing, and uses ceil(n / 8) frames of 1 to 8 bytes. */
  lemma {:induction false} FramesRoundTrip(d: seq<byte>)
    ensures Flatten(Frames(d)) == d
    ensures 8 * |Frames(d)| - 8 < |d| <= 8 * |Frames(d)|
    ensures forall f :: f in Frames(d) ==> 1 <= |f| <= 8
  {
    if d == [] {
    } else if |d| <= 8 {
      FlattenAppend([], d);
      assert [] + [d] == [d];
    } else {
      FramesRoundTrip(d[8..]);
      FlattenCons(d[..8], Frames(d[8..]));
      assert d == d[..8] + d[8..];
    }
  }

  /** From history `before` to `after` the flash only moved towards holding the
      window [a, z) of the data `d` placed at `at`. */
  ghost predicate Tried(before: seq<seq<byte>>, after: seq<seq<byte>>, at: int, d: seq<byte>, a: nat, z: int) {
    before != [] && before <= after &&
    forall k :: |before| - 1 <= k < |after| ==> Programming(before[|before| - 1], after[k], at, d, a, z)
  }

  /** From history `before` to `after` the flash only moved towards [lo, hi) being
      erased; when erasing is atomic it did so in one step. */
  ghost predicate Wiped(before: seq<seq<byte>>, after: seq<seq<byte>>, lo: int, hi: int, atomic: bool) {
    before != [] && before <= after &&
    (forall j, k :: |before| - 1 <= j <= k < |after| ==> Erasing(after[j], after[k], lo, hi)) &&
    (atomic ==> forall k :: |before| - 1 <= k < |after| ==>
      after[k] == before[|before| - 1] || Blank(after[k], lo, hi))
  }

  lemma TriedCompose(h0: seq<seq<byte>>, h1: seq<seq<byte>>, h2: seq<seq<byte>>, at: int, d: seq<byte>, a: nat, z: int)
    requires Tried(h0, h1, at, d, a, z) && Tried(h1, h2, at, d, a, z)
    ensures Tried(h0, h2, at, d, a, z)
  {
    var f, g := h0[|h0| - 1], h1[|h1| - 1];
    forall k | |h0| - 1 <= k < |h2| ensures Programming(f, h2[k], at, d, a, z) {
      if k < |h1| {
        assert h2[k] == h1[k];
      } else {
        assert Programming(f, g, at, d, a, z);
        ProgramCompose(f, g, h2[k], at, d, a, z);
      }
    }
  }

  lemma TriedWiden(h0: seq<seq<byte>>, h1: seq<seq<byte>>, part: seq<byte>,
                   at: int, d: seq<byte>, c: nat, a: nat, z: int)
    requires Tried(h0, h1, at + c, part, 0, |part|)
    requires a <= c && c + |part| <= z && c + |part| <= |d| && part == d[c..c + |part|]
    ensures Tried(h0, h1, at, d, a, z)
  {
    var o := h0[|h0| - 1];
    forall k | |h0| - 1 <= k < |h1| ensures Programming(o, h1[k], at, d, a, z) {
      ProgramWiden(o, h1[k], part, at, d, c, a, z);
    }
  }

  lemma WipedCompose(h0: seq<seq<byte>>, h1: seq<seq<byte>>, h2: seq<seq<byte>>, lo: int, hi: int, atomic: bool)
    requires Wiped(h0, h1, lo, hi, atomic) && Wiped(h1, h2, lo, hi, atomic)
    ensures Wiped(h0, h2, lo, hi, atomic)
  {
    var last := |h1| - 1;
    assert forall k :: 0 <= k < |h1| ==> h2[k] == h1[k];
    forall j, k | |h0| - 1 <= j <= k < |h2| ensures Erasing(h2[j], h2[k], lo, hi) {
      if j < last < k {
        EraseCompose(h2[j], h2[last], h2[k], lo, hi, lo, hi);
      }
    }
  }

  /** A history that grows by one more state of the same erase. */
  lemma WipedStep(h: seq<seq<byte>>, next: seq<byte>, lo: int, hi: int, atomic: bool)
    requires h != [] && Erasing(h[|h| - 1], next, lo, hi)
    requires atomic ==> next == h[|h| - 1] || Blank(next, lo, hi)
    ensures Wiped(h, h + [next], lo, hi, atomic)
  {
    EraseReflexive(h[|h| - 1], lo, hi);
    EraseReflexive(next, lo, hi);
  }

  class RemoteNode {
    /** Whether a page erase cut short by a power failure leaves the page either
        as it was or completely erased. */
    const atomicErase: bool
    const size: nat
    var flash: seq<byte>
    /** Every content the flash has had, the present one last. */
    ghost var history: seq<seq<byte>>
    /** Commands and data frames that reached the link; those that the node could
        have carried out but that were not acknowledged; announcements heard. */
    ghost var commands: nat
    ghost var faults: nat
    ghost var announcements: nat
    /** Reads answered completely. */
    ghost var answered: nat

    /** The write command being served. */
    var writeAt: int
    var expected: nat
    var pending: seq<byte>
    ghost var frames: seq<seq<byte>>

    ghost predicate Valid()
      reads this
    {
      history != [] && history[|history| - 1] == flash &&
      |flash| == size && size % PAGE_SIZE == 0 && size <= 255 * PAGE_SIZE
    }

    /** The node announces itself, or is not heard in time. */
    method Announce() returns (heard: bool)
      modifies `announcements
      ensures announcements == old(announcements) + if heard then 1 else 0
    {
      heard := *;
      if heard {
        announcements := announcements + 1;
      }
    }

    /** Leaves the flash in some state that programming `d` at `at` may pass through. */
    method Disturb(at: int, d: seq<byte>)
      requires Valid()
      modifies `flash, `history
      ensures Valid() && Tried(old(history), history, at, d, 0, |d|)
    {
      ProgramReflexive(flash, at, d, 0, |d|);
      var steps: nat := *;
      while steps > 0
        invariant Valid() && Tried(old(history), history, at, d, 0, |d|)
      {
        var next: seq<byte> := *;
        if Programming(flash, next, at, d, 0, |d|) {
          ghost var h := history;
          flash, history := next, history + [next];
          ProgramReflexive(h[|h| - 1], at, d, 0, |d|);
          TriedCompose(old(history), h, history, at, d, 0, |d|);
        }
        steps := steps - 1;
      }
    }

    method BeginWrite(address: nat, count: nat) returns (ack: bool)
      modifies `writeAt, `expected, `pending, `frames, `commands, `faults
      ensures commands > old(commands) && faults == old(faults) + if ack then 0 else 1
      ensures ack ==> writeAt == address - FLASH_START && expected == count
      ensures ack ==> pending == [] && frames == []
    {
      ack := *;
      commands := commands + 1;
      if !ack {
        faults := faults + 1;
      } else {
        writeAt, expected, pending, frames := address - FLASH_START, count, [], [];
      }
    }

    /** The node may program what it has received at once, later, or not at all. */
    method DataFrame(data: seq<byte>) returns (ack: bool)
      requires Valid() && |data| <= 8
      modifies `flash, `history, `pending, `frames, `commands, `faults
      ensures commands > old(commands) && faults == old(faults) + if ack then 0 else 1
      ensures Valid() && Tried(old(history), history, writeAt, old(pending) + data, 0, |old(pending) + data|)
      ensures ack ==> pending == old(pending) + data && frames == old(frames) + [data]
    {
      Disturb(writeAt, pending + data);
      ack := *;
      commands := commands + 1;
      if !ack {
        faults := faults + 1;
      } else {
        pending, frames := pending + data, frames + [data];
      }
    }

    /** The final acknowledgement of a write is truthful. */
    method FinishWrite() returns (ack: bool)
      requires Valid()
      modifies `flash, `history, `faults
      ensures var complete := |pending| == expected && 0 <= writeAt && writeAt + |pending| <= size;
        faults == old(faults) + if complete && !ack then 1 else 0
      ensures Valid() && Tried(old(history), history, writeAt, pending, 0, |pending|)
      ensures ack ==> |pending| == expected && Programmed(old(flash), flash, writeAt, pending, 0, |pending|)
    {
      Disturb(writeAt, pending);
      ack := *;
      ghost var complete := |pending| == expected && 0 <= writeAt && writeAt + |pending| <= size;
      if !ack && complete {
        faults := faults + 1;
      }
      if ack && |pending| == expected && 0 <= writeAt && writeAt + |pending| <= |flash| {
        var next := Program(flash, writeAt, pending);
        RetryIsIdempotent(old(flash), flash, next, writeAt, pending, 0, |pending|);
        ghost var h := history;
        ProgramReflexive(flash, writeAt, pending, 0, |pending|);
        flash, history := next, history + [next];
        TriedCompose(old(history), h, history, writeAt, pending, 0, |pending|);
      } else {
        ack := false;
      }
    }

    /** A positive acknowledgement of an erase is truthful; a page that the flash
        does not have is refused. */
    method Erase(page: nat) returns (ack: bool)
      requires Valid()
      modifies `flash, `history, `commands, `faults
      ensures Valid() && commands > old(commands)
      ensures faults == old(faults) + if !ack && (page + 1) * PAGE_SIZE <= size then 1 else 0
      ensures Wiped(old(history), history, page * PAGE_SIZE, (page + 1) * PAGE_SIZE, atomicErase)
      ensures ack ==> (page + 1) * PAGE_SIZE <= |flash| && Blank(flash, page * PAGE_SIZE, (page + 1) * PAGE_SIZE)
    {
      var lo, hi := page * PAGE_SIZE, (page + 1) * PAGE_SIZE;
      EraseReflexive(flash, lo, hi);
      commands := commands + 1;
      if hi > |flash| {
        return false;
      }
      var steps: nat := *;
      while steps > 0
        invariant Valid() && faults == old(faults) && commands > old(commands)
        invariant Wiped(old(history), history, lo, hi, atomicErase)
      {
        var next: seq<byte> := *;
        if Erasing(flash, next, lo, hi) && (atomicErase ==> Blank(next, lo, hi)) {
          ghost var h := history;
          flash, history := next, history + [next];
          WipedStep(h, next, lo, hi, atomicErase);
          WipedCompose(old(history), h, history, lo, hi, atomicErase);
        }
        steps := steps - 1;
      }
      ack := *;
      if !Blank(flash, lo, hi) {
        ack := false;
      }
      if !ack {
        faults := faults + 1;
      }
    }

    /** When both acknowledgements arrive, so did all data frames. */
    method ReadMemory(address: nat, count: nat) returns (ack: bool, data: seq<seq<byte>>, done: bool)
      modifies `commands, `faults, `answered
      ensures commands > old(commands) && answered == old(answered) + if ack && done then 1 else 0
      ensures var at, n := address - FLASH_START, count + 1;
        faults == old(faults) + if !(ack && done) && 0 <= at && at + n <= |flash| then 1 else 0
      ensures forall f :: f in data ==> |f| <= 8
      ensures ack && done ==>
        var at, n := address - FLASH_START, count + 1;
        0 <= at && at + n <= |flash| && data == Frames(flash[at..at + n])
    {
      var at, n := address - FLASH_START, count + 1;
      ack, done := *, *;
      commands := commands + 1;
      data := [];
      if 0 <= at && at + n <= |flash| {
        FramesRoundTrip(flash[at..at + n]);
        data := Frames(flash[at..at + n]);
      } else {
        done := false;
      }
      if ack && done {
        answered := answered + 1;
      }
      if !(ack && done) && 0 <= at && at + n <= |flash| {
        faults := faults + 1;
      }
      if !(ack && done) {
        var sent: nat := *;
        data := if 0 <= sent <= |data| then data[..sent] else data;
      }
    }
  }
}
