/** Raw transmission: the FIFO is filled with plain bytes, without chunk headers. */
module RadioRaw {
  import opened Bytes
  import opened RadioTransmit
  import opened Sequences

  /** No write is empty or exceeds the space that was waited for. */
  predicate WritesFit(writes: seq<seq<octet>>) {
    forall k :: 0 <= k < |writes| ==> 1 <= |writes[k]| <= FIFO_WRITE_LEN
  }

  /** What holds between writes. */
  ghost predicate RawWriting(buf: seq<octet>, refill: nat -> seq<octet>, total: nat, calls: nat,
                             writes: seq<seq<octet>>, cur: seq<octet>, offset: nat) {
    Progress(buf, refill, calls, Flatten(writes), cur, offset) && WritesFit(writes) &&
    if |buf| <= total then |Supplied(buf, refill, calls)| <= total
    else calls == 0 && OnGrid(total, |Flatten(writes)|, FIFO_WRITE_LEN)
  }

  lemma RawRefill(buf: seq<octet>, refill: nat -> seq<octet>, total: nat, calls: nat,
                  writes: seq<seq<octet>>, cur: seq<octet>)
    requires RawWriting(buf, refill, total, calls, writes, cur, |cur|) && |Flatten(writes)| < total
    requires HonoursContract(buf, refill, total)
    ensures RawWriting(buf, refill, total, calls + 1, writes, refill(calls), 0) && |refill(calls)| > 0
  {
    RefillStep(buf, refill, calls, Flatten(writes), cur);
    assert HonoursCall(buf, refill, total, calls);
  }

  lemma RawWrite(buf: seq<octet>, refill: nat -> seq<octet>, total: nat, calls: nat,
                 writes: seq<seq<octet>>, cur: seq<octet>, i: nat, n: nat)
    requires RawWriting(buf, refill, total, calls, writes, cur, i) && |Flatten(writes)| < total && i < |cur|
    requires n == if |cur| - i < FIFO_WRITE_LEN then |cur| - i else FIFO_WRITE_LEN
    ensures RawWriting(buf, refill, total, calls, writes + [cur[i..i + n]], cur, i + n)
    ensures |Flatten(writes + [cur[i..i + n]])| == |Flatten(writes)| + n
  {
    var more := writes + [cur[i..i + n]];
    assert more[..|writes|] == writes;
    assert (Flatten(writes) + cur[i..i + n]) + cur[i + n..] == Flatten(writes) + cur[i..];
    if |buf| > total {
      GridStep(total, |Flatten(writes)|, |cur| - i, n, FIFO_WRITE_LEN);
    }
  }

  lemma RawDone(buf: seq<octet>, refill: nat -> seq<octet>, total: nat, calls: nat,
                writes: seq<seq<octet>>, cur: seq<octet>, offset: nat)
    requires RawWriting(buf, refill, total, calls, writes, cur, offset) && |Flatten(writes)| >= total
    ensures Flatten(writes) <= Supplied(buf, refill, calls)
    ensures |Flatten(writes)| == total <==> |buf| <= total || total % FIFO_WRITE_LEN == 0
    ensures |buf| <= total ==> Flatten(writes) == Supplied(buf, refill, calls)
  {
  }

  /** As for packets, an initial buffer longer than the total length is not refused. */
  method TransmitRaw(buf: seq<octet>, total: nat, callback: bool, refill: nat -> seq<octet>)
    returns (writes: seq<seq<octet>>, calls: nat)
    requires total != 0 && (callback || |buf| == total)
    requires callback ==> HonoursContract(buf, refill, total)
    ensures Flatten(writes) <= Supplied(buf, refill, calls) && (!callback ==> calls == 0)
    ensures |Flatten(writes)| >= total && WritesFit(writes)
    ensures |Flatten(writes)| == total <==> |buf| <= total || total % FIFO_WRITE_LEN == 0
    ensures |buf| <= total ==> Flatten(writes) == Supplied(buf, refill, calls)
  {
    writes, calls := [], 0;
    var cur := buf;
    var len: nat, offset: nat, transferred: nat := |buf|, 0, 0;
    while transferred < total
      invariant transferred == |Flatten(writes)| && len + offset == |cur|
      invariant RawWriting(buf, refill, total, calls, writes, cur, offset)
      invariant !callback ==> calls == 0 && len + transferred == total
      decreases total - transferred
    {
      if len == 0 && callback {
        RawRefill(buf, refill, total, calls, writes, cur);
        cur := refill(calls);
        len, offset, calls := |cur|, 0, calls + 1;
      }
      var writeLen := if len < FIFO_WRITE_LEN then len else FIFO_WRITE_LEN;
      RawWrite(buf, refill, total, calls, writes, cur, offset, writeLen);
      writes := writes + [cur[offset..offset + writeLen]];
      len, offset, transferred := len - writeLen, offset + writeLen, transferred + writeLen;
    }
    RawDone(buf, refill, total, calls, writes, cur, offset);
  }
}
