/** The byte format of FIFO chunks, which both directions share. */
module RadioFifo {
  import opened Bytes
  import opened Wrappers
  import opened RadioTransmit
  import opened RadioReceive

  const CMD_DATA := 1
  /** Size field of a header that is followed by a length byte. */
  const SIZE_VAR := 7

  function Flags(start: bool, end: bool): octet {
    (if start then 1 else 0) + if end then 2 else 0
  }

  /** A chunk in the FIFO, with its size in the header or, if `long`, in a byte of its own. */
  datatype FifoChunk = FifoChunk(cmd: nat, long: bool, body: seq<octet>) {
    predicate Valid() {
      cmd < 32 && if long then |body| < 256 else |body| < SIZE_VAR
    }

    function Encoded(): seq<octet>
      requires Valid()
    {
      if long then [cmd + 32 * SIZE_VAR, |body|] + body else [cmd + 32 * |body|] + body
    }
  }

  /** A data chunk as the transmit loop writes it. */
  function Written(c: Chunk): FifoChunk {
    FifoChunk(CMD_DATA, true, [Flags(c.start, c.end)] + c.data)
  }

  /** The bytes that the transmit loop writes for a chunk. */
  function Encode(c: Chunk): seq<octet>
    requires c.length < 256
  {
    [CMD_DATA + 32 * SIZE_VAR, c.length, Flags(c.start, c.end)] + c.data
  }

  /** How the worker interprets a chunk with command `cmd`; a data chunk has at least its flags. */
  function Interpret(cmd: nat, body: seq<octet>): RxChunk {
    if cmd == CMD_DATA && |body| > 0 then Data(body[0] % 2 == 1, body[0] / 2 % 2 == 1, body[1..])
    else Measurement
  }

  /** One chunk read from the FIFO, and the bytes behind it; the radio never
      presents an incomplete chunk. */
  function ReadChunk(fifo: seq<octet>): (r: Option<(RxChunk, seq<octet>)>)
    ensures r.Some? ==> |r.value.1| < |fifo|
  {
    if |fifo| == 0 then None else
      var cmd, size := fifo[0] % 32, fifo[0] / 32;
      if size != SIZE_VAR then
        if 1 + size > |fifo| then None else Some((Interpret(cmd, fifo[1..1 + size]), fifo[1 + size..]))
      else if |fifo| < 2 || 2 + fifo[1] > |fifo| then None
      else Some((Interpret(cmd, fifo[2..2 + fifo[1]]), fifo[2 + fifo[1]..]))
  }

  function Stream(chunks: seq<FifoChunk>): seq<octet>
    requires forall k :: 0 <= k < |chunks| ==> chunks[k].Valid()
  {
    if chunks == [] then [] else chunks[0].Encoded() + Stream(chunks[1..])
  }

  function ReadAll(fifo: seq<octet>): seq<RxChunk>
    decreases |fifo|
  {
    var r := ReadChunk(fifo);
    if r.None? then [] else [r.value.0] + ReadAll(r.value.1)
  }

  function AsReceived(chunks: seq<Chunk>): seq<RxChunk> {
    if chunks == [] then [] else [Data(chunks[0].start, chunks[0].end, chunks[0].data)] + AsReceived(chunks[1..])
  }

  lemma ReadBytes(c: FifoChunk, rest: seq<octet>)
    requires c.Valid()
    ensures ReadChunk(c.Encoded() + rest) == Some((Interpret(c.cmd, c.body), rest))
  {
    var fifo := c.Encoded() + rest;
    var n := if c.long then 2 else 1;
    assert fifo[0] % 32 == c.cmd && fifo[0] / 32 == if c.long then SIZE_VAR else |c.body|;
    assert fifo[n..n + |c.body|] == c.body && fifo[n + |c.body|..] == rest;
  }

  /** What the worker makes of the chunks in the FIFO. */
  function Interpreted(chunks: seq<FifoChunk>): seq<RxChunk> {
    if chunks == [] then [] else [Interpret(chunks[0].cmd, chunks[0].body)] + Interpreted(chunks[1..])
  }

  /** The worker reads back exactly the chunks in the FIFO: data and measurements
      of any kind, whichever way their sizes are given, each skipped as a whole. */
  lemma {:induction false} StreamRoundTrip(chunks: seq<FifoChunk>)
    requires forall k :: 0 <= k < |chunks| ==> chunks[k].Valid()
    ensures ReadAll(Stream(chunks)) == Interpreted(chunks)
  {
    if chunks == [] {
    } else {
      ReadBytes(chunks[0], Stream(chunks[1..]));
      StreamRoundTrip(chunks[1..]);
    }
  }

  lemma FlagsDecode(start: bool, end: bool)
    ensures (Flags(start, end) % 2 == 1 <==> start) && (Flags(start, end) / 2 % 2 == 1 <==> end)
  {
  }

  lemma InterpretData(flags: octet, data: seq<octet>)
    ensures Interpret(CMD_DATA, [flags] + data) == Data(flags % 2 == 1, flags / 2 % 2 == 1, data)
  {
    assert ([flags] + data)[1..] == data;
  }

  lemma EncodedAs(c: Chunk)
    requires c.length == |c.data| + 1 && c.length < 256
    ensures Written(c).Valid() && Encode(c) == Written(c).Encoded()
  {
    assert |[Flags(c.start, c.end)] + c.data| == c.length;
  }

  /** The transmit loop writes its chunks in this format, and the worker would
      read each of them with its flags and data. */
  lemma WrittenFormat(c: Chunk)
    requires c.length == |c.data| + 1 && c.length < 256
    ensures Written(c).Valid() && Encode(c) == Written(c).Encoded()
    ensures Interpret(Written(c).cmd, Written(c).body) == Data(c.start, c.end, c.data)
  {
    EncodedAs(c);
    FlagsDecode(c.start, c.end);
    InterpretData(Flags(c.start, c.end), c.data);
  }

  lemma {:induction false} AsReceivedAt(chunks: seq<Chunk>)
    ensures |AsReceived(chunks)| == |chunks|
    ensures forall k :: 0 <= k < |chunks| ==>
      AsReceived(chunks)[k] == Data(chunks[k].start, chunks[k].end, chunks[k].data)
  {
    if chunks == [] {
    } else {
      AsReceivedAt(chunks[1..]);
    }
  }

  lemma {:induction false} JoinedPayload(chunks: seq<Chunk>, n: nat)
    requires n <= |chunks|
    ensures |AsReceived(chunks)| == |chunks| && Joined(AsReceived(chunks), 0, n) == Payload(chunks[..n])
    ensures |Payload(chunks[..n])| <= |Payload(chunks)|
  {
    AsReceivedAt(chunks);
    if n == 0 {
    } else {
      JoinedPayload(chunks, n - 1);
      PayloadAppend(chunks[..n - 1], chunks[n - 1]);
      assert chunks[..n] == chunks[..n - 1] + [chunks[n - 1]];
    }
    PayloadSplit(chunks, n);
  }

  lemma {:induction false} PayloadSplit(chunks: seq<Chunk>, n: nat)
    requires n <= |chunks|
    ensures Payload(chunks) == Payload(chunks[..n]) + Payload(chunks[n..])
  {
    if n == 0 {
      assert chunks[0..] == chunks;
    } else {
      PayloadSplit(chunks[1..], n - 1);
      assert chunks[..n][1..] == chunks[1..][..n - 1] && chunks[1..][n - 1..] == chunks[n..];
    }
  }

  lemma OnePacketContinues(chunks: seq<Chunk>, max: nat, n: nat)
    requires n < |chunks| == |AsReceived(chunks)| && WellFormed(chunks, true) && |Payload(chunks)| <= max
    ensures Continues(AsReceived(chunks), n, max)
  {
    AsReceivedAt(chunks);
    JoinedPayload(chunks, n);
    assert n > 0 ==> Open(AsReceived(chunks), 0, n, max);
  }

  /** The chunks of one packet are well framed and are one packet. */
  lemma OnePacket(chunks: seq<Chunk>, max: nat)
    requires chunks != [] && WellFormed(chunks, true) && |Payload(chunks)| <= max
    ensures WellFramed(AsReceived(chunks), max) && IsPacket(AsReceived(chunks), 0, |chunks| - 1, max)
    ensures Joined(AsReceived(chunks), 0, |chunks|) == Payload(chunks)
  {
    AsReceivedAt(chunks);
    forall n | 0 <= n < |chunks| ensures Continues(AsReceived(chunks), n, max) {
      OnePacketContinues(chunks, max, n);
    }
    JoinedPayload(chunks, |chunks|);
    assert chunks[..|chunks|] == chunks;
  }
}
