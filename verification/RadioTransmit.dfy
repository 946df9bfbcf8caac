/** Transmission through the FIFO of the AX5043: a packet taken from successively
    refilled buffers is written as data chunks. */
module RadioTransmit {
  import opened Bytes

  const FIFO_WRITE_LEN := 128
  /** Header, length and flags byte in front of the data of a chunk. */
  const CHUNK_OVERHEAD := 3

  /** A data chunk; the length byte counts the flags byte as well. */
  datatype Chunk = Chunk(length: nat, start: bool, end: bool, data: seq<octet>)

  function Payload(chunks: seq<Chunk>): seq<octet> {
    if chunks == [] then [] else chunks[0].data + Payload(chunks[1..])
  }

  lemma {:induction false} PayloadAppend(chunks: seq<Chunk>, c: Chunk)
    ensures Payload(chunks + [c]) == Payload(chunks) + c.data
  {
    if chunks == [] {
      assert [c][1..] == [];
    } else {
      assert (chunks + [c])[1..] == chunks[1..] + [c];
      PayloadAppend(chunks[1..], c);
    }
  }

  /** The initial buffer followed by the first `j` refills. */
  ghost function Supplied(buf: seq<octet>, refill: nat -> seq<octet>, j: nat): seq<octet> {
    if j == 0 then buf else Supplied(buf, refill, j - 1) + refill(j - 1)
  }

  ghost predicate HonoursCall(buf: seq<octet>, refill: nat -> seq<octet>, total: nat, j: nat) {
    |Supplied(buf, refill, j)| < total ==>
      |refill(j)| > 0 && |Supplied(buf, refill, j)| + |refill(j)| <= total
  }

  /** The contract that the driver asserts of a refill callback. */
  ghost predicate HonoursContract(buf: seq<octet>, refill: nat -> seq<octet>, total: nat) {
    forall j :: HonoursCall(buf, refill, total, j)
  }

  /** Every chunk fits the FIFO write length, the first one starts the packet and,
      if `complete`, the last one ends it. */
  ghost predicate WellFormed(chunks: seq<Chunk>, complete: bool) {
    forall k :: 0 <= k < |chunks| ==>
      1 <= |chunks[k].data| && |chunks[k].data| + CHUNK_OVERHEAD <= FIFO_WRITE_LEN &&
      chunks[k].length == |chunks[k].data| + 1 && (chunks[k].start <==> k == 0) &&
      (chunks[k].end <==> complete && k == |chunks| - 1)
  }

  /** What has been written and what is left of the current buffer are the data supplied so far. */
  ghost predicate Progress(buf: seq<octet>, refill: nat -> seq<octet>, calls: nat,
                           sent: seq<octet>, cur: seq<octet>, offset: nat) {
    offset <= |cur| && sent + cur[offset..] == Supplied(buf, refill, calls)
  }

  lemma RefillStep(buf: seq<octet>, refill: nat -> seq<octet>, calls: nat, sent: seq<octet>, cur: seq<octet>)
    requires Progress(buf, refill, calls, sent, cur, |cur|)
    ensures Progress(buf, refill, calls + 1, sent, refill(calls), 0)
    ensures |sent| == |Supplied(buf, refill, calls)|
  {
    assert cur[|cur|..] == [] && sent + [] == sent && refill(calls)[0..] == refill(calls);
  }

  lemma ChunkStep(buf: seq<octet>, refill: nat -> seq<octet>, calls: nat,
                  chunks: seq<Chunk>, c: Chunk, cur: seq<octet>, i: nat, j: nat)
    requires Progress(buf, refill, calls, Payload(chunks), cur, i) && i <= j <= |cur| && c.data == cur[i..j]
    ensures Progress(buf, refill, calls, Payload(chunks + [c]), cur, j)
    ensures |Payload(chunks + [c])| == |Payload(chunks)| + (j - i)
  {
    PayloadAppend(chunks, c);
    assert (Payload(chunks) + cur[i..j]) + cur[j..] == Payload(chunks) + cur[i..];
  }

  /** Before the end of a packet taken from one long buffer, chunks start at
      multiples of the chunk data size. */
  predicate OnGrid(total: nat, transferred: nat, width: nat)
    requires width > 0
  {
    if transferred < total then transferred % width == 0 else (transferred == total <==> total % width == 0)
  }

  lemma RemainderUnique(x: nat, w: nat, q: nat, r: nat)
    requires x == q * w + r && r < w
    ensures x % w == r
  {
    var d := q - x / w;
    assert d * w == x % w - r;
  }

  lemma GridStep(total: nat, transferred: nat, len: nat, n: nat, width: nat)
    requires width > 0 && OnGrid(total, transferred, width) && transferred < total < transferred + len
    requires n == if len < width then len else width
    ensures OnGrid(total, transferred + n, width)
  {
    var q := transferred / width;
    if transferred + n < total {
      RemainderUnique(transferred + width, width, q + 1, 0);
    } else if total - transferred < width {
      RemainderUnique(total, width, q, total - transferred);
    } else {
      RemainderUnique(total, width, q + 1, 0);
    }
  }

  lemma WellFormedStep(chunks: seq<Chunk>, c: Chunk)
    requires WellFormed(chunks, false) && 1 <= |c.data| && |c.data| + CHUNK_OVERHEAD <= FIFO_WRITE_LEN
    requires c.length == |c.data| + 1 && (c.start <==> chunks == [])
    ensures WellFormed(chunks + [c], c.end)
  {
  }

  /** The chunk for `data` when `transferred` bytes of the packet have been written. */
  function MakeChunk(data: seq<octet>, transferred: nat, total: nat): Chunk {
    Chunk(|data| + 1, transferred == 0, transferred + |data| == total, data)
  }

  /** What holds between chunks. */
  ghost predicate Writing(buf: seq<octet>, refill: nat -> seq<octet>, total: nat, calls: nat,
                          chunks: seq<Chunk>, cur: seq<octet>, offset: nat) {
    var transferred := |Payload(chunks)|;
    Progress(buf, refill, calls, Payload(chunks), cur, offset) &&
    (chunks == [] <==> transferred == 0) && WellFormed(chunks, transferred == total) &&
    if |buf| <= total then |Supplied(buf, refill, calls)| <= total
    else calls == 0 && OnGrid(total, transferred, FIFO_WRITE_LEN - CHUNK_OVERHEAD)
  }

  lemma WritingRefill(buf: seq<octet>, refill: nat -> seq<octet>, total: nat, calls: nat,
                      chunks: seq<Chunk>, cur: seq<octet>)
    requires Writing(buf, refill, total, calls, chunks, cur, |cur|) && |Payload(chunks)| < total
    requires HonoursContract(buf, refill, total)
    ensures Writing(buf, refill, total, calls + 1, chunks, refill(calls), 0) && |refill(calls)| > 0
  {
    RefillStep(buf, refill, calls, Payload(chunks), cur);
    assert HonoursCall(buf, refill, total, calls);
  }

  lemma WritingChunk(buf: seq<octet>, refill: nat -> seq<octet>, total: nat, calls: nat,
                     chunks: seq<Chunk>, cur: seq<octet>, i: nat, n: nat, c: Chunk)
    requires Writing(buf, refill, total, calls, chunks, cur, i) && |Payload(chunks)| < total && i < |cur|
    requires n == if |cur| - i < FIFO_WRITE_LEN - CHUNK_OVERHEAD then |cur| - i else FIFO_WRITE_LEN - CHUNK_OVERHEAD
    requires c == MakeChunk(cur[i..i + n], |Payload(chunks)|, total)
    ensures Writing(buf, refill, total, calls, chunks + [c], cur, i + n)
    ensures |Payload(chunks + [c])| == |Payload(chunks)| + n
  {
    ChunkStep(buf, refill, calls, chunks, c, cur, i, i + n);
    WellFormedStep(chunks, c);
    if |buf| > total {
      GridStep(total, |Payload(chunks)|, |cur| - i, n, FIFO_WRITE_LEN - CHUNK_OVERHEAD);
    }
  }

  lemma WritingDone(buf: seq<octet>, refill: nat -> seq<octet>, total: nat, calls: nat,
                    chunks: seq<Chunk>, cur: seq<octet>, offset: nat)
    requires Writing(buf, refill, total, calls, chunks, cur, offset) && |Payload(chunks)| >= total
    ensures Payload(chunks) <= Supplied(buf, refill, calls)
    ensures |Payload(chunks)| == total <==> |buf| <= total || total % (FIFO_WRITE_LEN - CHUNK_OVERHEAD) == 0
    ensures |buf| <= total ==> Payload(chunks) == Supplied(buf, refill, calls)
  {
  }

  /** The next chunk from the `len` bytes left in the buffer. */
  method NextChunk(ghost buf: seq<octet>, ghost refill: nat -> seq<octet>, total: nat, ghost calls: nat,
                   ghost chunks: seq<Chunk>, cur: seq<octet>, len: nat, offset: nat, transferred: nat)
    returns (c: Chunk, writeLen: nat)
    requires Writing(buf, refill, total, calls, chunks, cur, offset)
    requires transferred == |Payload(chunks)| < total && len + offset == |cur| && len > 0
    ensures 0 < writeLen <= len
    ensures Writing(buf, refill, total, calls, chunks + [c], cur, offset + writeLen)
    ensures |Payload(chunks + [c])| == transferred + writeLen
  {
    writeLen := FIFO_WRITE_LEN - CHUNK_OVERHEAD;
    if len < writeLen {
      writeLen := len;
    }
    c := MakeChunk(cur[offset..offset + writeLen], transferred, total);
    WritingChunk(buf, refill, total, calls, chunks, cur, offset, writeLen, c);
  }

  /** Without a callback the buffer holds the whole packet. With one, an initial
      buffer longer than the packet is not refused: then the packet is only
      complete if its length is a multiple of the chunk data size. */
  method Transmit(buf: seq<octet>, total: nat, callback: bool, refill: nat -> seq<octet>)
    returns (chunks: seq<Chunk>, calls: nat)
    requires total != 0 && (callback || |buf| == total)
    requires callback ==> HonoursContract(buf, refill, total)
    ensures Payload(chunks) <= Supplied(buf, refill, calls) && (!callback ==> calls == 0)
    ensures |Payload(chunks)| >= total && chunks != []
    ensures |Payload(chunks)| == total <==> |buf| <= total || total % (FIFO_WRITE_LEN - CHUNK_OVERHEAD) == 0
    ensures WellFormed(chunks, |Payload(chunks)| == total)
    ensures |buf| <= total ==> Payload(chunks) == Supplied(buf, refill, calls)
  {
    chunks, calls := [], 0;
    var cur := buf;
    var len: nat, offset: nat, transferred: nat := |buf|, 0, 0;
    while transferred < total
      invariant transferred == |Payload(chunks)| && len + offset == |cur|
      invariant Writing(buf, refill, total, calls, chunks, cur, offset)
      invariant !callback ==> calls == 0 && len + transferred == total
      decreases total - transferred
    {
      if len == 0 && callback {
        WritingRefill(buf, refill, total, calls, chunks, cur);
        cur := refill(calls);
        len, offset, calls := |cur|, 0, calls + 1;
      }
      var c, writeLen := NextChunk(buf, refill, total, calls, chunks, cur, len, offset, transferred);
      chunks := chunks + [c];
      len, offset, transferred := len - writeLen, offset + writeLen, transferred + writeLen;
    }
    WritingDone(buf, refill, total, calls, chunks, cur, offset);
  }

  /** A packet of 127 bytes with a first buffer of 130: too much is written, and
      the end of the packet is never marked. */
  method Overshoot(buf: seq<octet>, refill: nat -> seq<octet>) returns (chunks: seq<Chunk>)
    requires |buf| == 130
    ensures |Payload(chunks)| > 127 && forall k :: 0 <= k < |chunks| ==> !chunks[k].end
  {
    forall j ensures HonoursCall(buf, refill, 127, j) {
      SuppliedGrows(buf, refill, j);
    }
    var calls;
    chunks, calls := Transmit(buf, 127, true, refill);
  }

  lemma {:induction false} SuppliedGrows(buf: seq<octet>, refill: nat -> seq<octet>, j: nat)
    ensures |Supplied(buf, refill, j)| >= |buf|
  {
    if j == 0 {
    } else {
      SuppliedGrows(buf, refill, j - 1);
    }
  }
}
