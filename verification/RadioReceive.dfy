/** The receive worker of the AX5043 driver: chunks are reassembled into frames,
    and every frame buffer is held, freed or sent. */
module RadioReceive {
  import opened Bytes
  import opened Wrappers

  /** A chunk read from the FIFO: packet data, or a measurement. */
  datatype RxChunk = Data(start: bool, end: bool, data: seq<octet>) | Measurement

  predicate IsStart(c: RxChunk) {
    c.Data? && c.start
  }

  predicate IsEnd(c: RxChunk) {
    c.Data? && c.end
  }

  function DataOf(c: RxChunk): seq<octet> {
    if c.Data? then c.data else []
  }

  /** The data of the chunks from `s` up to `n`. */
  function Joined(chunks: seq<RxChunk>, s: nat, n: nat): seq<octet>
    requires n <= |chunks|
  {
    if n <= s then [] else Joined(chunks, s, n - 1) + DataOf(chunks[n - 1])
  }

  /** After `n` chunks a packet that began with chunk `s` is being received and has not been too long. */
  predicate Open(chunks: seq<RxChunk>, s: nat, n: nat, max: nat) {
    s < n <= |chunks| && IsStart(chunks[s]) &&
    (forall k :: s < k < n ==> !IsStart(chunks[k])) && (forall k :: s <= k < n ==> !IsEnd(chunks[k])) &&
    |Joined(chunks, s, n)| <= max
  }

  /** Chunks `s` to `e` are one packet that fits a frame buffer. */
  predicate IsPacket(chunks: seq<RxChunk>, s: nat, e: nat, max: nat) {
    s <= e < |chunks| && IsStart(chunks[s]) && IsEnd(chunks[e]) &&
    (forall k :: s < k <= e ==> !IsStart(chunks[k])) && (forall k :: s <= k < e ==> !IsEnd(chunks[k])) &&
    |Joined(chunks, s, e + 1)| <= max
  }

  /** What the radio guarantees, and the driver asserts: data that does not start
      a packet belongs to an open one. In particular an aborted packet is over. */
  ghost predicate WellFramed(chunks: seq<RxChunk>, max: nat) {
    forall n :: 0 <= n < |chunks| ==> Continues(chunks, n, max)
  }

  ghost predicate Continues(chunks: seq<RxChunk>, n: nat, max: nat)
    requires n < |chunks|
  {
    chunks[n].Data? && !chunks[n].start ==> exists s :: Open(chunks, s, n, max)
  }

  lemma {:induction false} JoinedPrefix(chunks: seq<RxChunk>, more: seq<RxChunk>, s: nat, n: nat)
    requires n <= |chunks|
    ensures Joined(chunks + more, s, n) == Joined(chunks, s, n)
  {
    if n <= s {
    } else {
      JoinedPrefix(chunks, more, s, n - 1);
    }
  }

  /** How one more chunk changes which packet is open. */
  lemma OpenStep(chunks: seq<RxChunk>, c: RxChunk, s: nat, max: nat)
    ensures Open(chunks + [c], s, |chunks| + 1, max) <==>
      !IsEnd(c) && |Joined(chunks + [c], s, |chunks| + 1)| <= max &&
      ((s == |chunks| && IsStart(c)) || (!IsStart(c) && Open(chunks, s, |chunks|, max)))
    ensures Joined(chunks + [c], s, |chunks| + 1) ==
      if s <= |chunks| then Joined(chunks, s, |chunks|) + DataOf(c) else []
  {
    var all, n := chunks + [c], |chunks|;
    assert forall k :: 0 <= k < n ==> all[k] == chunks[k];
    JoinedPrefix(chunks, [c], s, n);
  }

  /** The packets after one more chunk: those before, and the one it completes. */
  lemma PacketStep(chunks: seq<RxChunk>, c: RxChunk, s: nat, e: nat, max: nat)
    ensures IsPacket(chunks + [c], s, e, max) <==>
      (e < |chunks| && IsPacket(chunks, s, e, max)) ||
      (e == |chunks| && s <= e && IsEnd(c) && |Joined(chunks + [c], s, e + 1)| <= max &&
       ((s == e && IsStart(c)) || (!IsStart(c) && Open(chunks, s, e, max))))
    ensures e < |chunks| ==> Joined(chunks + [c], s, e + 1) == Joined(chunks, s, e + 1)
  {
    var all, n := chunks + [c], |chunks|;
    assert forall k :: 0 <= k < n ==> all[k] == chunks[k];
    JoinedPrefix(chunks, [c], s, n);
    if e < n {
      JoinedPrefix(chunks, [c], s, e + 1);
    }
  }

  /** The frames sent are the packets received so far, in order and without exception. */
  ghost predicate Delivered(seen: seq<RxChunk>, sent: seq<seq<octet>>, packets: seq<(nat, nat)>, max: nat) {
    |packets| == |sent| &&
    (forall k :: 0 <= k < |sent| ==> IsPacket(seen, packets[k].0, packets[k].1, max)) &&
    (forall k :: 0 <= k < |sent| ==> sent[k] == Joined(seen, packets[k].0, packets[k].1 + 1)) &&
    (forall j, k :: 0 <= j < k < |packets| ==> packets[j].1 < packets[k].1) &&
    (forall s: nat, e: nat :: IsPacket(seen, s, e, max) ==> (s, e) in packets)
  }

  /** A buffer is being filled exactly while a packet is open, and holds its data so far. */
  ghost predicate Filling(seen: seq<RxChunk>, held: bool, content: seq<octet>, began: nat, max: nat) {
    if held then Open(seen, began, |seen|, max) && content == Joined(seen, began, |seen|)
    else forall s: nat :: !Open(seen, s, |seen|, max)
  }

  lemma DeliveredSame(seen: seq<RxChunk>, c: RxChunk, sent: seq<seq<octet>>, packets: seq<(nat, nat)>, max: nat)
    requires Delivered(seen, sent, packets, max)
    requires forall s: nat :: !IsPacket(seen + [c], s, |seen|, max)
    ensures Delivered(seen + [c], sent, packets, max)
  {
    forall s: nat, e: nat
      ensures IsPacket(seen + [c], s, e, max) <==> IsPacket(seen, s, e, max)
      ensures e < |seen| ==> Joined(seen + [c], s, e + 1) == Joined(seen, s, e + 1)
    {
      PacketStep(seen, c, s, e, max);
    }
  }

  lemma DeliveredMore(seen: seq<RxChunk>, c: RxChunk, sent: seq<seq<octet>>, packets: seq<(nat, nat)>, s: nat, max: nat)
    requires Delivered(seen, sent, packets, max) && IsPacket(seen + [c], s, |seen|, max)
    ensures Delivered(seen + [c], sent + [Joined(seen + [c], s, |seen| + 1)], packets + [(s, |seen|)], max)
  {
    var all, more := seen + [c], packets + [(s, |seen|)];
    forall t: nat, e: nat
      ensures e < |seen| ==> (IsPacket(all, t, e, max) <==> IsPacket(seen, t, e, max))
      ensures e < |seen| ==> Joined(all, t, e + 1) == Joined(seen, t, e + 1)
    {
      PacketStep(seen, c, t, e, max);
    }
    forall t: nat, e: nat | IsPacket(all, t, e, max) ensures (t, e) in more {
      if e < |seen| {
        assert (t, e) in packets;
      } else {
        assert t == s && more[|packets|] == (t, e);
      }
    }
  }

  /** A chunk without packet data changes nothing. */
  lemma MeasurementStep(seen: seq<RxChunk>, sent: seq<seq<octet>>, packets: seq<(nat, nat)>,
                        held: bool, content: seq<octet>, began: nat, max: nat)
    requires Delivered(seen, sent, packets, max) && Filling(seen, held, content, began, max)
    ensures Delivered(seen + [Measurement], sent, packets, max)
    ensures Filling(seen + [Measurement], held, content, began, max)
  {
    forall s: nat ensures !IsPacket(seen + [Measurement], s, |seen|, max) {
      PacketStep(seen, Measurement, s, |seen|, max);
    }
    DeliveredSame(seen, Measurement, sent, packets, max);
    var all := seen + [Measurement];
    forall s: nat ensures Open(all, s, |all|, max) <==> Open(seen, s, |seen|, max) {
      OpenStep(seen, Measurement, s, max);
    }
    OpenStep(seen, Measurement, began, max);
  }

  /** A data chunk extends the open packet, completes it, or makes it too long. */
  lemma DataStep(seen: seq<RxChunk>, c: RxChunk, sent: seq<seq<octet>>, packets: seq<(nat, nat)>,
                 held: bool, content: seq<octet>, began: nat, max: nat)
    requires Delivered(seen, sent, packets, max) && Filling(seen, held, content, began, max)
    requires c.Data? && (c.start || held)
    ensures var s := if c.start then |seen| else began;
      var all := (if c.start then [] else content) + c.data;
      if |all| > max then Delivered(seen + [c], sent, packets, max) && Filling(seen + [c], false, all, s, max)
      else if c.end then
        Delivered(seen + [c], sent + [all], packets + [(s, |seen|)], max) && Filling(seen + [c], false, all, s, max)
      else Delivered(seen + [c], sent, packets, max) && Filling(seen + [c], true, all, s, max)
  {
    var s, n := if c.start then |seen| else began, |seen|;
    var all := (if c.start then [] else content) + c.data;
    OpenStep(seen, c, s, max);
    PacketStep(seen, c, s, n, max);
    assert Joined(seen + [c], s, n + 1) == all;
    forall t: nat
      ensures IsPacket(seen + [c], t, n, max) || Open(seen + [c], t, n + 1, max) ==> t == s
    {
      PacketStep(seen, c, t, n, max);
      OpenStep(seen, c, t, max);
    }
    if |all| <= max && c.end {
      DeliveredMore(seen, c, sent, packets, s, max);
    } else {
      DeliveredSame(seen, c, sent, packets, max);
    }
  }

  datatype BufferFate = Held | Freed | Sent

  class RxWorker {
    const max: nat
    /** The frame buffer being filled, by the number of its allocation. */
    var held: Option<nat>
    var content: seq<octet>
    /** What became of every frame buffer allocated so far. */
    var fates: seq<BufferFate>
    var sent: seq<seq<octet>>
    ghost var sentBuffers: seq<nat>
    ghost var packets: seq<(nat, nat)>
    ghost var seen: seq<RxChunk>
    /** The chunk that started the packet being received. */
    ghost var began: nat

    /** A buffer is held exactly when it is the one being filled, and sent
        exactly when it is one of those handed on, each once and in order. */
    ghost predicate Owned()
      reads this
    {
      (forall i :: 0 <= i < |fates| ==> (fates[i] == Held <==> held == Some(i))) &&
      (held.Some? ==> held.value == |fates| - 1) &&
      |sentBuffers| == |sent| &&
      (forall k :: 0 <= k < |sentBuffers| ==> sentBuffers[k] < |fates| && fates[sentBuffers[k]] == Sent) &&
      (forall i :: 0 <= i < |fates| && fates[i] == Sent ==> i in sentBuffers) &&
      (forall j, k :: 0 <= j < k < |sentBuffers| ==> sentBuffers[j] < sentBuffers[k])
    }

    ghost predicate Valid()
      reads this
    {
      Owned() && Delivered(seen, sent, packets, max) && Filling(seen, held.Some?, content, began, max)
    }

    constructor (max: nat)
      ensures Valid() && this.max == max && seen == [] && held == None
    {
      this.max := max;
      held, content, fates, sent := None, [], [], [];
      sentBuffers, packets, seen, began := [], [], [], 0;
    }

    method Allocate()
      requires Owned() && held.None?
      modifies `held, `content, `fates
      ensures Owned() && held == Some(old(|fates|)) && content == [] && fates == old(fates) + [Held]
    {
      held, content, fates := Some(|fates|), [], fates + [Held];
    }

    method Free()
      requires Owned() && held.Some?
      modifies `held, `fates
      ensures Owned() && held.None? && fates == old(fates)[old(held.value) := Freed]
    {
      fates, held := fates[held.value := Freed], None;
    }

    method Hand(ghost s: nat, ghost e: nat)
      requires Owned() && held.Some?
      modifies `held, `fates, `sent, `sentBuffers, `packets
      ensures Owned() && held.None? && fates == old(fates)[old(held.value) := Sent]
      ensures sent == old(sent) + [content] && packets == old(packets) + [(s, e)]
      ensures sentBuffers == old(sentBuffers) + [old(held.value)]
    {
      sentBuffers, packets := sentBuffers + [held.value], packets + [(s, e)];
      fates, sent, held := fates[held.value := Sent], sent + [content], None;
      assert sentBuffers[|sentBuffers| - 1] in sentBuffers;
      assert forall i :: i in old(sentBuffers) ==> i in sentBuffers;
    }

    /** What a data chunk does to the buffers: the packet that `c` belongs to began at `s`. */
    method Fill(c: RxChunk, ghost s: nat)
      requires Owned() && c.Data? && (c.start || held.Some?)
      modifies `held, `content, `fates, `sent, `sentBuffers, `packets
      ensures Owned()
      ensures var all := (if c.start then [] else old(content)) + c.data;
        if |all| > max then held.None? && sent == old(sent) && packets == old(packets)
        else if c.end then held.None? && sent == old(sent) + [all] && packets == old(packets) + [(s, |seen|)]
        else held.Some? && content == all && sent == old(sent) && packets == old(packets)
    {
      if c.start {
        if held.Some? {
          Free();
        }
        Allocate();
      }
      if |content| + |c.data| <= max {
        content := content + c.data;
      } else {
        Free();
      }
      if c.end && held.Some? {
        Hand(s, |seen|);
      }
    }

    /** One pass of the worker's loop. */
    method Process(c: RxChunk)
      requires Valid() && (c.Data? && !c.start ==> held.Some?)
      modifies this
      ensures Valid() && seen == old(seen) + [c]
    {
      ghost var s := if IsStart(c) then |seen| else began;
      if c.Data? {
        DataStep(seen, c, sent, packets, held.Some?, content, began, max);
        Fill(c, s);
      } else {
        MeasurementStep(seen, sent, packets, held.Some?, content, began, max);
      }
      seen, began := seen + [c], s;
    }

    /** The whole worker: it ends when asked to, and then holds no buffer. */
    method Work(chunks: seq<RxChunk>)
      requires Valid() && seen == [] && WellFramed(chunks, max)
      modifies this
      ensures Owned() && held.None? && Delivered(chunks, sent, packets, max)
    {
      for i := 0 to |chunks|
        invariant Valid() && seen == chunks[..i]
      {
        assert Continues(chunks, i, max);
        if chunks[i].Data? && !chunks[i].start {
          var s :| Open(chunks, s, i, max);
          JoinedPrefix(chunks[..i], chunks[i..], s, i);
          assert chunks[..i] + chunks[i..] == chunks;
          assert Open(seen, s, i, max);
        }
        assert chunks[..i + 1] == chunks[..i] + [chunks[i]];
        Process(chunks[i]);
      }
      assert chunks[..|chunks|] == chunks;
      if held.Some? {
        Free();
      }
    }
  }
}
