/** Packets sent by one radio and received by another, which forms chunks of its
    own and mixes measurements between them. */
module RadioLink {
  import opened Bytes
  import opened RadioTransmit
  import opened RadioReceive
  import opened RadioFifo
  import opened Sequences

  /** The chunks `seg` carry the one packet `data`, in chunks `s` to `e`. */
  predicate Carries(seg: seq<RxChunk>, s: nat, e: nat, data: seq<octet>, max: nat) {
    IsPacket(seg, s, e, max) && Joined(seg, s, e + 1) == data &&
    forall k :: 0 <= k < |seg| && !(s <= k <= e) ==> seg[k].Measurement?
  }

  ghost predicate Receives(seg: seq<RxChunk>, data: seq<octet>, max: nat) {
    exists s, e :: Carries(seg, s, e, data, max)
  }

  lemma {:induction false} JoinedGrows(chunks: seq<RxChunk>, s: nat, m: nat, n: nat)
    requires m <= n <= |chunks|
    ensures |Joined(chunks, s, m)| <= |Joined(chunks, s, n)|
  {
    if m == n {
    } else {
      JoinedGrows(chunks, s, m, n - 1);
    }
  }

  lemma OpenPrefix(chunks: seq<RxChunk>, c: RxChunk, s: nat, n: nat, max: nat)
    requires Open(chunks, s, n, max)
    ensures Open(chunks + [c], s, n, max)
  {
    var all := chunks + [c];
    assert forall k :: 0 <= k < |chunks| ==> all[k] == chunks[k];
    JoinedPrefix(chunks, [c], s, n);
  }

  lemma WellFramedStep(chunks: seq<RxChunk>, c: RxChunk, s: nat, max: nat)
    requires WellFramed(chunks, max) && (c.Data? && !c.start ==> Open(chunks, s, |chunks|, max))
    ensures WellFramed(chunks + [c], max)
  {
    var all := chunks + [c];
    forall n | 0 <= n < |all| ensures Continues(all, n, max) {
      if all[n].Data? && !all[n].start {
        assert n < |chunks| ==> Continues(chunks, n, max);
        var t :| Open(chunks, t, n, max);
        OpenPrefix(chunks, c, t, n, max);
      }
    }
  }

  /** What the worker has delivered and holds when `k` chunks of a segment that
      begins at `base` have brought its input to `seen`. */
  ghost predicate Midway(seen: seq<RxChunk>, base: nat, sent: seq<seq<octet>>, packets: seq<(nat, nat)>,
                         seg: seq<RxChunk>, s: nat, e: nat, data: seq<octet>, k: nat, max: nat)
    requires k <= |seg|
  {
    |seen| == base + k && WellFramed(seen, max) && Filling(seen, s < k <= e, Joined(seg, s, k), base + s, max) &&
    if k <= e then Delivered(seen, sent, packets, max)
    else Delivered(seen, sent + [data], packets + [(base + s, base + e)], max)
  }

  /** A measurement between the data of a segment. */
  lemma MidwayMeasurement(seen: seq<RxChunk>, next: seq<RxChunk>, base: nat, sent: seq<seq<octet>>,
                          packets: seq<(nat, nat)>, seg: seq<RxChunk>, s: nat, e: nat, data: seq<octet>,
                          k: nat, k': nat, max: nat)
    requires Carries(seg, s, e, data, max) && k < |seg| && Midway(seen, base, sent, packets, seg, s, e, data, k, max)
    requires seg[k].Measurement? && next == seen + [Measurement] && k' == k + 1 && WellFramed(next, max)
    ensures Midway(next, base, sent, packets, seg, s, e, data, k', max)
  {
    assert k != s && k != e;
    if k < e {
      MeasurementStep(seen, sent, packets, s < k, Joined(seg, s, k), base + s, max);
      assert s < k ==> Joined(seg, s, k') == Joined(seg, s, k);
    } else {
      MeasurementStep(seen, sent + [data], packets + [(base + s, base + e)], false, [], base + s, max);
    }
  }

  lemma JoinedNext(seg: seq<RxChunk>, s: nat, k: nat)
    requires s <= k < |seg|
    ensures Joined(seg, s, k + 1) == (if k == s then [] else Joined(seg, s, k)) + DataOf(seg[k])
  {
  }

  lemma DataOfSegment(seg: seq<RxChunk>, s: nat, e: nat, data: seq<octet>, k: nat, max: nat)
    requires Carries(seg, s, e, data, max) && k < |seg| && seg[k].Data?
    ensures s <= k <= e && (seg[k].start <==> k == s) && (seg[k].end <==> k == e)
    ensures Joined(seg, s, k + 1) == (if seg[k].start then [] else Joined(seg, s, k)) + seg[k].data
    ensures |Joined(seg, s, k + 1)| <= max
  {
    assert IsStart(seg[k]) <==> k == s;
    assert IsEnd(seg[k]) <==> k == e;
    JoinedNext(seg, s, k);
    JoinedGrows(seg, s, k + 1, e + 1);
  }

  /** A data chunk that brings the open packet to `all`; `place` is where the
      packet lies if it ends here. */
  lemma DataFits(seen: seq<RxChunk>, c: RxChunk, next: seq<RxChunk>, sent: seq<seq<octet>>, packets: seq<(nat, nat)>,
                 held: bool, content: seq<octet>, began: nat, all: seq<octet>, place: (nat, nat), max: nat)
    requires Delivered(seen, sent, packets, max) && Filling(seen, held, content, began, max)
    requires c.Data? && (if c.start then began == |seen| else held) && place == (began, |seen|) && next == seen + [c]
    requires all == (if c.start then [] else content) + c.data && |all| <= max
    ensures c.end ==> Delivered(next, sent + [all], packets + [place], max)
    ensures !c.end ==> Delivered(next, sent, packets, max)
    ensures Filling(next, !c.end, all, began, max)
  {
    DataStep(seen, c, sent, packets, held, content, began, max);
  }

  /** A data chunk before the end of its packet. */
  lemma MidwayData(seen: seq<RxChunk>, next: seq<RxChunk>, base: nat, sent: seq<seq<octet>>,
                   packets: seq<(nat, nat)>, seg: seq<RxChunk>, s: nat, e: nat, data: seq<octet>,
                   k: nat, k': nat, max: nat)
    requires Carries(seg, s, e, data, max) && k < |seg| && Midway(seen, base, sent, packets, seg, s, e, data, k, max)
    requires seg[k].Data? && next == seen + [seg[k]] && k' == k + 1 && WellFramed(next, max) && k != e
    ensures Midway(next, base, sent, packets, seg, s, e, data, k', max)
  {
    DataOfSegment(seg, s, e, data, k, max);
    DataFits(seen, seg[k], next, sent, packets, s < k, Joined(seg, s, k), base + s,
             Joined(seg, s, k'), (base + s, |seen|), max);
  }

  /** The last data chunk of a packet. */
  lemma MidwayEnd(seen: seq<RxChunk>, next: seq<RxChunk>, base: nat, sent: seq<seq<octet>>,
                  packets: seq<(nat, nat)>, seg: seq<RxChunk>, s: nat, e: nat, data: seq<octet>, k': nat, max: nat)
    requires Carries(seg, s, e, data, max) && Midway(seen, base, sent, packets, seg, s, e, data, e, max)
    requires seg[e].Data? && next == seen + [seg[e]] && k' == e + 1 && WellFramed(next, max)
    ensures Midway(next, base, sent, packets, seg, s, e, data, k', max)
  {
    DataOfSegment(seg, s, e, data, e, max);
    DataFits(seen, seg[e], next, sent, packets, s < e, Joined(seg, s, e), base + s, data, (base + s, base + e), max);
  }

  /** One chunk of a segment. */
  lemma MidwayStep(seen: seq<RxChunk>, next: seq<RxChunk>, base: nat, sent: seq<seq<octet>>,
                   packets: seq<(nat, nat)>, seg: seq<RxChunk>, s: nat, e: nat, data: seq<octet>,
                   k: nat, k': nat, max: nat)
    requires Carries(seg, s, e, data, max) && k < |seg| && Midway(seen, base, sent, packets, seg, s, e, data, k, max)
    requires next == seen + [seg[k]] && k' == k + 1
    ensures Midway(next, base, sent, packets, seg, s, e, data, k', max)
  {
    WellFramedStep(seen, seg[k], base + s, max);
    if seg[k].Measurement? {
      MidwayMeasurement(seen, next, base, sent, packets, seg, s, e, data, k, k', max);
    } else if k == e {
      MidwayEnd(seen, next, base, sent, packets, seg, s, e, data, k', max);
    } else {
      MidwayData(seen, next, base, sent, packets, seg, s, e, data, k, k', max);
    }
  }

  lemma MidwayStart(seen: seq<RxChunk>, sent: seq<seq<octet>>, packets: seq<(nat, nat)>,
                    seg: seq<RxChunk>, s: nat, e: nat, data: seq<octet>, max: nat)
    requires WellFramed(seen, max) && Delivered(seen, sent, packets, max) && Filling(seen, false, [], 0, max)
    ensures Midway(seen, |seen|, sent, packets, seg, s, e, data, 0, max)
  {
  }

  lemma TakeOne(seen: seq<RxChunk>, seg: seq<RxChunk>, k: nat)
    requires k < |seg|
    ensures seen + seg[..k] + [seg[k]] == seen + seg[..k + 1]
  {
  }

  lemma {:induction false} MidwayAll(seen: seq<RxChunk>, now: seq<RxChunk>, sent: seq<seq<octet>>,
                                     packets: seq<(nat, nat)>, seg: seq<RxChunk>, s: nat, e: nat,
                                     data: seq<octet>, k: nat, max: nat)
    requires Carries(seg, s, e, data, max) && k <= |seg| && now == seen + seg[..k]
    requires WellFramed(seen, max) && Delivered(seen, sent, packets, max) && Filling(seen, false, [], 0, max)
    ensures Midway(now, |seen|, sent, packets, seg, s, e, data, k, max)
    decreases k
  {
    if k == 0 {
      assert now == seen;
      MidwayStart(seen, sent, packets, seg, s, e, data, max);
    } else {
      TakeOne(seen, seg, k - 1);
      var before := seen + seg[..k - 1];
      MidwayAll(seen, before, sent, packets, seg, s, e, data, k - 1, max);
      MidwayStep(before, now, |seen|, sent, packets, seg, s, e, data, k - 1, k, max);
    }
  }

  /** Packets in the order of their last chunks. */
  predicate InOrder(packets: seq<(nat, nat)>) {
    forall j, k :: 0 <= j < k < |packets| ==> packets[j].1 < packets[k].1
  }

  ghost predicate SamePackets(a: seq<(nat, nat)>, b: seq<(nat, nat)>) {
    forall p :: p in a <==> p in b
  }

  lemma {:induction false} SameInOrder(a: seq<(nat, nat)>, b: seq<(nat, nat)>)
    requires InOrder(a) && InOrder(b) && SamePackets(a, b)
    ensures a == b
  {
    assert b == [] || b[0] in b;
    if a == [] {
    } else {
      assert a[0] in b;
      SameLast(a, b);
      SameInOrder(a[..|a| - 1], b[..|b| - 1]);
      assert a == a[..|a| - 1] + [a[|a| - 1]] && b == b[..|b| - 1] + [b[|b| - 1]];
    }
  }

  lemma WithoutLast(a: seq<(nat, nat)>, p: (nat, nat))
    requires InOrder(a) && a != []
    ensures p in a[..|a| - 1] <==> p in a && p != a[|a| - 1]
  {
    assert a == a[..|a| - 1] + [a[|a| - 1]];
  }

  lemma SameLast(a: seq<(nat, nat)>, b: seq<(nat, nat)>)
    requires InOrder(a) && InOrder(b) && a != [] && b != [] && SamePackets(a, b)
    ensures a[|a| - 1] == b[|b| - 1] && SamePackets(a[..|a| - 1], b[..|b| - 1])
  {
    assert a[|a| - 1] in b && b[|b| - 1] in a;
    var c, d := a[..|a| - 1], b[..|b| - 1];
    forall p ensures p in c <==> p in d {
      WithoutLast(a, p);
      WithoutLast(b, p);
    }
  }

  /** The frames delivered are determined by the chunks received. */
  lemma DeliveredUnique(seen: seq<RxChunk>, sent: seq<seq<octet>>, packets: seq<(nat, nat)>,
                        sent': seq<seq<octet>>, packets': seq<(nat, nat)>, max: nat)
    requires Delivered(seen, sent, packets, max) && Delivered(seen, sent', packets', max)
    ensures sent == sent' && packets == packets'
  {
    forall p: (nat, nat) ensures p in packets <==> p in packets' {
      assert p in packets || p in packets' ==> IsPacket(seen, p.0, p.1, max);
    }
    SameInOrder(packets, packets');
  }

  /** One more segment delivers one more packet. */
  lemma OneMore(seen: seq<RxChunk>, sent: seq<seq<octet>>, packets: seq<(nat, nat)>,
                seg: seq<RxChunk>, data: seq<octet>, max: nat) returns (now: seq<RxChunk>, more: seq<(nat, nat)>)
    requires WellFramed(seen, max) && Delivered(seen, sent, packets, max) && Filling(seen, false, [], 0, max)
    requires Receives(seg, data, max)
    ensures now == seen + seg && WellFramed(now, max) && Filling(now, false, [], 0, max)
    ensures Delivered(now, sent + [data], more, max)
  {
    var s, e :| Carries(seg, s, e, data, max);
    assert seg[..|seg|] == seg;
    now := seen + seg;
    MidwayAll(seen, now, sent, packets, seg, s, e, data, |seg|, max);
    more := packets + [(|seen| + s, |seen| + e)];
  }

  lemma LastSplit(s: seq<seq<octet>>)
    requires s != []
    ensures s[..|s| - 1] + [s[|s| - 1]] == s
  {
  }

  /** Segments received one after the other deliver their packets one after the other. */
  lemma {:induction false} Deliveries(payloads: seq<seq<octet>>, segs: seq<seq<RxChunk>>, max: nat)
    returns (rx: seq<RxChunk>, sent: seq<seq<octet>>, packets: seq<(nat, nat)>)
    requires |segs| == |payloads| && forall i :: 0 <= i < |segs| ==> Receives(segs[i], payloads[i], max)
    ensures rx == Flatten(segs) && sent == payloads
    ensures WellFramed(rx, max) && Filling(rx, false, [], 0, max) && Delivered(rx, sent, packets, max)
  {
    rx, sent, packets := [], [], [];
    if segs == [] {
    } else {
      var n := |segs| - 1;
      rx, sent, packets := Deliveries(payloads[..n], segs[..n], max);
      rx, packets := OneMore(rx, sent, packets, segs[n], payloads[n], max);
      LastSplit(payloads);
      sent := sent + [payloads[n]];
    }
  }

  /** What was transmitted, packet by packet. */
  function Payloads(packets: seq<seq<Chunk>>): (p: seq<seq<octet>>)
    ensures |p| == |packets| && forall i :: 0 <= i < |p| ==> p[i] == Payload(packets[i])
  {
    seq(|packets|, i requires 0 <= i < |packets| => Payload(packets[i]))
  }

  /** Each packet transmitted was received completely, one after the other. */
  ghost predicate ReceivedInTurn(packets: seq<seq<Chunk>>, segs: seq<seq<RxChunk>>, max: nat) {
    |segs| == |packets| && forall i :: 0 <= i < |segs| ==> Receives(segs[i], Payload(packets[i]), max)
  }

  /** The worker's input is then well framed, as the worker requires. */
  lemma InTurnWellFramed(packets: seq<seq<Chunk>>, segs: seq<seq<RxChunk>>, max: nat)
    requires ReceivedInTurn(packets, segs, max)
    ensures WellFramed(Flatten(segs), max)
  {
    var rx, sent, at := Deliveries(Payloads(packets), segs, max);
  }

  /** Packets transmitted in turn and each received completely, in whatever chunks
      and with whatever measurements around and between them, are delivered as
      exactly these frames, in order. */
  lemma Loopback(packets: seq<seq<Chunk>>, segs: seq<seq<RxChunk>>, rx: seq<RxChunk>,
                 sent: seq<seq<octet>>, at: seq<(nat, nat)>, max: nat)
    requires ReceivedInTurn(packets, segs, max) && rx == Flatten(segs)
    requires Delivered(rx, sent, at, max)
    ensures sent == Payloads(packets)
  {
    var rx', sent', at' := Deliveries(Payloads(packets), segs, max);
    DeliveredUnique(rx, sent, at, sent', at', max);
  }

  /** In particular a radio that presents the chunks as they were written receives the packet. */
  lemma EchoReceives(chunks: seq<Chunk>, max: nat)
    requires chunks != [] && WellFormed(chunks, true) && |Payload(chunks)| <= max
    ensures Receives(AsReceived(chunks), Payload(chunks), max)
  {
    AsReceivedAt(chunks);
    OnePacket(chunks, max);
    assert Carries(AsReceived(chunks), 0, |chunks| - 1, Payload(chunks), max);
  }
}
