/** The bit-banged I2C master behind the OPD port expander. */
module OpdI2c {
  import opened Bits8
  import opened I2cBus

  const TRIES := 3

  function SdaOf(mode: bv8): bool {
    mode & 2 != 0
  }

  function SclOf(mode: bv8): bool {
    mode & 1 != 0
  }

  /** The pins other than the two bus lines. */
  function Others(mode: bv8): bv8 {
    mode & 0xfc
  }

  function SetSda(mode: bv8, high: bool): (r: bv8)
    ensures SdaOf(r) == high && SclOf(r) == SclOf(mode) && Others(r) == Others(mode)
  {
    (mode & 0xfd) | (if high then 2 else 0)
  }

  function SetScl(mode: bv8, high: bool): (r: bv8)
    ensures SclOf(r) == high && SdaOf(r) == SdaOf(mode) && Others(r) == Others(mode)
  {
    (mode & 0xfe) | (if high then 1 else 0)
  }

  function LowerBoth(mode: bv8): (r: bv8)
    ensures !SclOf(r) && !SdaOf(r) && Others(r) == Others(mode)
  {
    mode & 0xfc
  }

  /** The slots of data bits driven by the master. */
  function Driven(s: seq<bool>): seq<Event> {
    if s == [] then [] else Driven(s[..|s| - 1]) + [Slot(s[|s| - 1], [])]
  }

  /** The slots of data bits left to the target, each sensed once. */
  function Sampled(s: seq<bool>): seq<Event> {
    if s == [] then [] else Sampled(s[..|s| - 1]) + [Slot(true, [s[|s| - 1]])]
  }

  /** Bytes sent, each followed by a released slot in which `polls` was sensed. */
  function Sent(tx: seq<bv8>, polls: seq<seq<bool>>): seq<Event>
    requires |tx| == |polls|
  {
    if tx == [] then []
    else
      var n := |tx| - 1;
      Sent(tx[..n], polls[..n]) + Driven(Bits(tx[n])) + [Slot(true, polls[n])]
  }

  /** Bytes taken from the target, each acknowledged but the last of `total`. */
  function Taken(rx: seq<bv8>, total: nat): seq<Event> {
    if rx == [] then []
    else
      var n := |rx| - 1;
      Taken(rx[..n], total) + Sampled(Bits(rx[n])) + [Slot(n + 1 == total, [])]
  }

  /** What polling SDA in an acknowledge slot can show: low within three looks,
      or three highs and a look too late to count. */
  predicate Acked(poll: seq<bool>) {
    0 < |poll| <= TRIES && !poll[|poll| - 1] && forall i :: 0 <= i < |poll| - 1 ==> poll[i]
  }

  predicate Refused(poll: seq<bool>) {
    |poll| == TRIES + 1 && forall i :: 0 <= i < TRIES ==> poll[i]
  }

  predicate AllAcked(polls: seq<seq<bool>>) {
    forall i :: 0 <= i < |polls| ==> Acked(polls[i])
  }

  /** Every byte before the last was acknowledged, the last refused. */
  predicate StoppedAt(polls: seq<seq<bool>>) {
    0 < |polls| && AllAcked(polls[..|polls| - 1]) && Refused(polls[|polls| - 1])
  }

  function Transfer(tx: seq<bv8>, polls: seq<seq<bool>>, rx: seq<bv8>): seq<Event>
    requires |tx| == |polls|
  {
    [Start] + Sent(tx, polls) + Taken(rx, |rx|) + [Stop]
  }

  class Expander {
    const valid: bool
    var mode: bv8
    ghost var log: seq<Action>

    ghost function Seen(): Bus
      reads this
    {
      Watch(log)
    }

    ghost predicate Valid()
      reads this
    {
      Seen().sda == SdaOf(mode) && Seen().scl == SclOf(mode)
    }

    /** Both lines released and no clock pulse under way. */
    ghost predicate Released()
      reads this
    {
      Valid() && Seen().sda && Seen().scl && Seen().pulse == NoPulse
    }

    /** SCL held low between slots. */
    ghost predicate Clocked()
      reads this
    {
      Valid() && !Seen().scl && Seen().pulse == NoPulse
    }

    constructor (valid: bool, mode: bv8)
      requires SdaOf(mode) && SclOf(mode)
      ensures Released() && Seen() == QUIET && this.valid == valid && this.mode == mode
    {
      this.valid := valid;
      this.mode := mode;
      log := [];
    }

    method WriteMode(value: bv8)
      requires Valid()
      modifies this
      ensures Valid() && mode == value
      ensures Seen() == Observe(old(Seen()), Drive(SdaOf(value), SclOf(value)))
    {
      mode := value;
      WatchNext(log, Drive(SdaOf(value), SclOf(value)));
      log := log + [Drive(SdaOf(value), SclOf(value))];
    }

    /** SDA as the expander reads it: low when either side holds it low. */
    method SenseSda() returns (level: bool)
      requires Valid()
      modifies this`log
      ensures Valid() && (level ==> SdaOf(mode))
      ensures Seen() == Observe(old(Seen()), Sense(level))
    {
      level := SdaOf(mode);
      if * {
        level := false;
      }
      WatchNext(log, Sense(level));
      log := log + [Sense(level)];
    }

    method SendStart()
      requires Released()
      modifies this
      ensures Clocked() && Others(mode) == Others(old(mode))
      ensures Seen().events == old(Seen().events) + [Start]
    {
      var reg := SetSda(mode, false);
      WriteMode(reg);
      reg := SetScl(reg, false);
      WriteMode(reg);
    }

    method SendStop()
      requires Clocked()
      modifies this
      ensures Released() && Others(mode) == Others(old(mode))
      ensures Seen().events == old(Seen().events) + [Stop]
    {
      var reg := LowerBoth(mode);
      WriteMode(reg);
      reg := SetScl(reg, true);
      WriteMode(reg);
      reg := SetSda(reg, true);
      WriteMode(reg);
    }

    /** Set SDA, then cycle SCL. */
    method SendBit(bit: bool)
      requires Clocked()
      modifies this
      ensures Clocked() && Others(mode) == Others(old(mode))
      ensures Seen().events == old(Seen().events) + [Slot(bit, [])]
    {
      var reg := SetSda(mode, bit);
      WriteMode(reg);
      reg := SetScl(reg, true);
      WriteMode(reg);
      reg := SetScl(reg, false);
      WriteMode(reg);
    }

    method SendByte(data: bv8)
      requires Clocked()
      modifies this
      ensures Clocked() && Others(mode) == Others(old(mode))
      ensures Seen().events == old(Seen().events) + Driven(Bits(data))
    {
      var byte := data;
      ghost var before := Seen().events;
      for j := 0 to 8
        invariant Clocked() && Others(mode) == Others(old(mode))
        invariant byte == Shifted(data, j)
        invariant Seen().events == before + Driven(Bits(data)[..j])
      {
        DrivenNext(Bits(data), j);
        BitAt(data, j);
        SendBit(Top(byte));
        byte := Shl(byte);
      }
      assert Bits(data)[..8] == Bits(data);
    }

    /** Look at SDA until it is low or the tries are used up. */
    method Poll() returns (tries: nat, ghost poll: seq<bool>)
      requires Valid() && Seen().pulse == Pulse(true, [])
      modifies `log
      ensures Valid() && Seen() == old(Seen()).(pulse := Pulse(true, poll))
      ensures if tries == 0 then Refused(poll) else Acked(poll)
    {
      tries := TRIES;
      var level := SenseSda();
      poll := [level];
      assert [] + [level] == poll;
      while level && tries > 0
        invariant Valid() && Seen() == old(Seen()).(pulse := Pulse(true, poll))
        invariant tries <= TRIES && |poll| == TRIES - tries + 1 && level == poll[|poll| - 1]
        invariant forall i :: 0 <= i < |poll| - 1 ==> poll[i]
      {
        tries := tries - 1;
        level := SenseSda();
        poll := poll + [level];
      }
    }

    /** Release SDA for one slot and poll it. */
    method AwaitAck() returns (tries: nat, ghost poll: seq<bool>)
      requires Clocked()
      modifies this
      ensures Clocked() && Others(mode) == Others(old(mode))
      ensures Seen().events == old(Seen().events) + [Slot(true, poll)]
      ensures if tries == 0 then Refused(poll) else Acked(poll)
    {
      var reg := SetSda(mode, true);
      WriteMode(reg);
      reg := SetScl(reg, true);
      WriteMode(reg);
      tries, poll := Poll();
      reg := LowerBoth(reg);
      WriteMode(reg);
    }

    /** Cycle SCL with SDA released, reading the pin while SCL is high. */
    method SampleBit() returns (level: bool)
      requires Clocked() && SdaOf(mode)
      modifies this
      ensures Clocked() && SdaOf(mode) && Others(mode) == Others(old(mode))
      ensures Seen().events == old(Seen().events) + [Slot(true, [level])]
    {
      var reg := SetScl(mode, true);
      WriteMode(reg);
      level := SenseSda();
      assert [] + [level] == [level];
      reg := SetScl(reg, false);
      WriteMode(reg);
    }

    /** Clock eight bits in, the first into the top of the byte. */
    method ReceiveBits() returns (byte: bv8)
      requires Clocked() && SdaOf(mode)
      modifies this
      ensures Clocked() && SdaOf(mode) && Others(mode) == Others(old(mode))
      ensures Seen().events == old(Seen().events) + Sampled(Bits(byte))
    {
      byte := 0;
      ghost var s := [];
      for j := 0 to 8
        invariant Clocked() && SdaOf(mode) && Others(mode) == Others(old(mode))
        invariant |s| == j && byte == Pack(s)
        invariant Seen().events == old(Seen().events) + Sampled(s)
      {
        var level := SampleBit();
        SampledNext(s, level);
        byte := Push(byte, level);
        s := s + [level];
      }
      BitsPack(s);
    }

    /** The master's acknowledge slot, left released after the last byte. */
    method SendAck(last: bool)
      requires Clocked() && SdaOf(mode)
      modifies this
      ensures Clocked() && Others(mode) == Others(old(mode))
      ensures Seen().events == old(Seen().events) + [Slot(last, [])]
    {
      var reg := mode;
      if !last {
        reg := SetSda(reg, false);
        WriteMode(reg);
      }
      reg := SetScl(reg, true);
      WriteMode(reg);
      reg := SetScl(reg, false);
      WriteMode(reg);
    }

    method ReceiveByte(last: bool) returns (byte: bv8)
      requires Clocked()
      modifies this
      ensures Clocked() && Others(mode) == Others(old(mode))
      ensures Seen().events == old(Seen().events) + Sampled(Bits(byte)) + [Slot(last, [])]
    {
      var reg := SetSda(mode, true);
      WriteMode(reg);
      byte := ReceiveBits();
      SendAck(last);
    }

    /** Send every byte, or up to and including the first that is refused.
        `polls` are the acknowledge slots, one for each byte sent. */
    method SendAll(tx: array<bv8>) returns (ok: bool, ghost polls: seq<seq<bool>>)
      requires Clocked()
      modifies this
      ensures Clocked() && Others(mode) == Others(old(mode))
      ensures |polls| <= tx.Length && Seen().events == old(Seen().events) + Sent(tx[..|polls|], polls)
      ensures if ok then |polls| == tx.Length && AllAcked(polls) else StoppedAt(polls)
    {
      polls := [];
      for i := 0 to tx.Length
        invariant Clocked() && Others(mode) == Others(old(mode))
        invariant |polls| == i && AllAcked(polls)
        invariant Seen().events == old(Seen().events) + Sent(tx[..i], polls)
      {
        SendByte(tx[i]);
        var tries, poll := AwaitAck();
        SentNext(tx[..], polls, i, poll);
        assert tx[..][..i] == tx[..i] && tx[..][..i + 1] == tx[..i + 1];
        Regroup(old(Seen().events), Sent(tx[..i], polls), Driven(Bits(tx[i])), [Slot(true, poll)]);
        polls := polls + [poll];
        if tries == 0 {
          assert polls[..|polls| - 1] == polls[..i];
          return false, polls;
        }
      }
      ok := true;
    }

    method ReceiveAll(rx: array<bv8>)
      requires Clocked()
      modifies this, rx
      ensures Clocked() && Others(mode) == Others(old(mode))
      ensures Seen().events == old(Seen().events) + Taken(rx[..], rx.Length)
    {
      for i := 0 to rx.Length
        invariant Clocked() && Others(mode) == Others(old(mode))
        invariant Seen().events == old(Seen().events) + Taken(rx[..i], rx.Length)
      {
        var byte := ReceiveByte(i == rx.Length - 1);
        ghost var before := rx[..i];
        rx[i] := byte;
        assert rx[..i + 1] == before + [byte];
        TakenNext(before, byte, rx.Length);
        Regroup(old(Seen().events), Taken(before, rx.Length), Sampled(Bits(byte)), [Slot(i == rx.Length - 1, [])]);
      }
      assert rx[..rx.Length] == rx[..];
    }

    /** A whole transfer: START, the bytes, if all are acknowledged the reading
        of `rx`, and STOP. */
    method Transmit(tx: array<bv8>, rx: array<bv8>) returns (ghost polls: seq<seq<bool>>)
      requires Released() && tx.Length > 0
      modifies this, rx
      ensures Released() && Others(mode) == Others(old(mode))
      ensures !valid ==> Seen() == old(Seen()) && rx[..] == old(rx[..])
      ensures valid ==>
        && |polls| <= tx.Length
        && var read := if AllAcked(polls) then rx[..] else [];
           Seen().events == old(Seen().events) + Transfer(old(tx[..])[..|polls|], polls, read)
      ensures valid && AllAcked(polls) ==> |polls| == tx.Length
      ensures valid && !AllAcked(polls) ==> StoppedAt(polls) && rx[..] == old(rx[..])
    {
      polls := [];
      if !valid {
        return;
      }
      SendStart();
      var ok;
      ok, polls := SendAll(tx);
      ghost var sent, read := old(tx[..])[..|polls|], [];
      assert sent == tx[..|polls|];
      if ok {
        ReceiveAll(rx);
        read := rx[..];
      }
      SendStop();
      TransferJoined(old(Seen().events), sent, polls, read);
    }
  }

  lemma Regroup(a: seq<Event>, b: seq<Event>, c: seq<Event>, d: seq<Event>)
    ensures a + b + c + d == a + (b + c + d)
  {
  }

  lemma RegroupAll(a: seq<Event>, b: seq<Event>, c: seq<Event>, d: seq<Event>, e: seq<Event>)
    ensures a + b + c + d + e == a + (b + c + d + e)
  {
  }

  lemma TransferJoined(before: seq<Event>, tx: seq<bv8>, polls: seq<seq<bool>>, rx: seq<bv8>)
    requires |tx| == |polls|
    ensures before + [Start] + Sent(tx, polls) + Taken(rx, |rx|) + [Stop] == before + Transfer(tx, polls, rx)
    ensures rx == [] ==> before + [Start] + Sent(tx, polls) + [Stop] == before + Transfer(tx, polls, rx)
  {
    RegroupAll(before, [Start], Sent(tx, polls), Taken(rx, |rx|), [Stop]);
    if rx == [] {
      assert before + [Start] + Sent(tx, polls) + [] == before + [Start] + Sent(tx, polls);
    }
  }

  lemma DrivenNext(s: seq<bool>, n: nat)
    requires n < |s|
    ensures Driven(s[..n + 1]) == Driven(s[..n]) + [Slot(s[n], [])]
  {
    assert s[..n + 1][..n] == s[..n];
  }

  lemma SampledNext(s: seq<bool>, level: bool)
    ensures Sampled(s + [level]) == Sampled(s) + [Slot(true, [level])]
    ensures Pack(s + [level]) == Push(Pack(s), level)
  {
    assert (s + [level])[..|s|] == s;
  }

  lemma SentNext(tx: seq<bv8>, polls: seq<seq<bool>>, n: nat, poll: seq<bool>)
    requires n < |tx| && |polls| == n
    ensures Sent(tx[..n + 1], polls + [poll]) == Sent(tx[..n], polls) + Driven(Bits(tx[n])) + [Slot(true, poll)]
  {
    assert tx[..n + 1][..n] == tx[..n] && (polls + [poll])[..n] == polls;
  }

  lemma TakenNext(rx: seq<bv8>, byte: bv8, total: nat)
    ensures Taken(rx + [byte], total) == Taken(rx, total) + Sampled(Bits(byte)) + [Slot(|rx| + 1 == total, [])]
  {
    assert (rx + [byte])[..|rx|] == rx;
  }

  /** Between bytes: nothing shifted in yet. */
  predicate Ready(l: Listener) {
    l.count == 0 && l.shift == 0
  }

  lemma {:induction false} ListenDriven(l: Listener, s: seq<bool>)
    requires Ready(l) && |s| <= 8
    ensures Listen(l, Driven(s)) == l.(count := |s|, shift := Pack(s))
  {
    if s == [] {
    } else {
      var n := |s| - 1;
      ListenDriven(l, s[..n]);
      ListenNext(l, Driven(s[..n]), Slot(s[n], []));
    }
  }

  lemma {:induction false} ListenSampled(l: Listener, s: seq<bool>)
    requires Ready(l) && |s| <= 8
    ensures Listen(l, Sampled(s)) == l.(count := |s|, shift := Pack(Highs(|s|)))
  {
    if s == [] {
      assert Highs(0) == [];
    } else {
      var n := |s| - 1;
      ListenSampled(l, s[..n]);
      ListenNext(l, Sampled(s[..n]), Slot(true, [s[n]]));
      assert Highs(n + 1)[..n] == Highs(n);
    }
  }

  function Highs(n: nat): seq<bool> {
    seq(n, _ => true)
  }

  /** A listener takes down every byte sent. */
  lemma {:induction false} ListenSent(l: Listener, tx: seq<bv8>, polls: seq<seq<bool>>)
    requires Ready(l) && |tx| == |polls|
    ensures Listen(l, Sent(tx, polls)) == l.(bytes := l.bytes + tx)
  {
    if tx == [] {
      assert l.bytes + tx == l.bytes;
    } else {
      var n := |tx| - 1;
      ListenSent(l, tx[..n], polls[..n]);
      var sofar := Sent(tx[..n], polls[..n]);
      ListenAppend(l, sofar, Driven(Bits(tx[n])));
      ListenNext(l, sofar + Driven(Bits(tx[n])), Slot(true, polls[n]));
      ListenDriven(Listen(l, sofar), Bits(tx[n]));
      PackBits(tx[n]);
      assert l.bytes + tx[..n] + [tx[n]] == l.bytes + tx;
    }
  }

  /** A listener takes a released line for high bytes. */
  lemma {:induction false} ListenTaken(l: Listener, rx: seq<bv8>, total: nat)
    requires Ready(l)
    ensures Listen(l, Taken(rx, total)) == l.(bytes := l.bytes + seq(|rx|, _ => Pack(Highs(8))))
  {
    if rx == [] {
      assert l.bytes + seq(|rx|, _ => Pack(Highs(8))) == l.bytes;
    } else {
      var n := |rx| - 1;
      ListenTaken(l, rx[..n], total);
      var sofar := Taken(rx[..n], total);
      ListenAppend(l, sofar, Sampled(Bits(rx[n])));
      ListenNext(l, sofar + Sampled(Bits(rx[n])), Slot(n + 1 == total, []));
      ListenSampled(Listen(l, sofar), Bits(rx[n]));
      assert l.bytes + seq(n, _ => Pack(Highs(8))) + [Pack(Highs(8))] == l.bytes + seq(|rx|, _ => Pack(Highs(8)));
    }
  }

  /** A transfer decodes to one START, one STOP, no torn level and, whatever the
      listener was at, exactly the bytes sent ahead of those it drives itself. */
  lemma TransferHeard(l: Listener, tx: seq<bv8>, polls: seq<seq<bool>>, rx: seq<bv8>)
    requires |tx| == |polls|
    ensures var h := Listen(l, Transfer(tx, polls, rx));
            && Ready(h) && h.starts == l.starts + 1 && h.stops == l.stops + 1 && h.torn == l.torn
            && h.bytes == l.bytes + tx + seq(|rx|, _ => Pack(Highs(8)))
  {
    var s, t := Sent(tx, polls), Taken(rx, |rx|);
    assert [] + [Start] == [Start];
    ListenNext(l, [], Start);
    ListenAppend(l, [Start], s);
    ListenSent(Hear(l, Start), tx, polls);
    ListenAppend(l, [Start] + s, t);
    ListenTaken(Listen(l, [Start] + s), rx, |rx|);
    ListenNext(l, [Start] + s + t, Stop);
  }

  /** One transfer as the arguments that shaped it. */
  datatype Exchange = Exchange(tx: seq<bv8>, polls: seq<seq<bool>>, rx: seq<bv8>)

  predicate Matched(run: seq<Exchange>) {
    forall i :: 0 <= i < |run| ==> |run[i].tx| == |run[i].polls|
  }

  function Transfers(run: seq<Exchange>): seq<Event>
    requires Matched(run)
  {
    if run == [] then []
    else
      var x := run[|run| - 1];
      Transfers(run[..|run| - 1]) + Transfer(x.tx, x.polls, x.rx)
  }

  function BytesOf(run: seq<Exchange>): seq<bv8> {
    if run == [] then []
    else
      var x := run[|run| - 1];
      BytesOf(run[..|run| - 1]) + x.tx + seq(|x.rx|, _ => Pack(Highs(8)))
  }

  /** Over a whole run of transfers, refused ones included, the listener counts
      one START and one STOP for each and takes down their bytes in order. */
  lemma {:induction false} RunHeard(run: seq<Exchange>)
    requires Matched(run)
    ensures Listen(IDLE, Transfers(run)) == Listener(0, 0, BytesOf(run), |run|, |run|, 0)
  {
    if run == [] {
    } else {
      var n := |run| - 1;
      var x := run[n];
      RunHeard(run[..n]);
      ListenAppend(IDLE, Transfers(run[..n]), Transfer(x.tx, x.polls, x.rx));
      TransferHeard(Listen(IDLE, Transfers(run[..n])), x.tx, x.polls, x.rx);
    }
  }

  /** All the bits of some bytes, in order. */
  function AllBits(rx: seq<bv8>): seq<bool> {
    if rx == [] then [] else AllBits(rx[..|rx| - 1]) + Bits(rx[|rx| - 1])
  }

  lemma SensedNext(a: seq<Event>, e: Event)
    ensures Sensed(a + [e]) == Sensed(a) + (if e.Slot? then e.sensed else [])
  {
    assert (a + [e])[..|a|] == a;
  }

  lemma JoinOne(a: seq<Event>, b: seq<Event>, e: Event)
    ensures a + (b + [e]) == a + b + [e]
  {
  }

  lemma {:induction false} SensedSampled(a: seq<Event>, s: seq<bool>)
    ensures Sensed(a + Sampled(s)) == Sensed(a) + s
  {
    if s == [] {
      assert a + Sampled(s) == a;
    } else {
      var n := |s| - 1;
      SensedSampled(a, s[..n]);
      SensedNext(a + Sampled(s[..n]), Slot(true, [s[n]]));
      JoinOne(a, Sampled(s[..n]), Slot(true, [s[n]]));
      assert s == s[..n] + [s[n]];
    }
  }

  /** The bytes read are the bits sensed in their slots, most significant first,
      and nothing is sensed in the master's own acknowledge slots. */
  lemma {:induction false} TakenSensed(rx: seq<bv8>, total: nat)
    ensures Sensed(Taken(rx, total)) == AllBits(rx)
  {
    if rx == [] {
    } else {
      var n := |rx| - 1;
      TakenSensed(rx[..n], total);
      var sofar := Taken(rx[..n], total);
      SensedSampled(sofar, Bits(rx[n]));
      SensedNext(sofar + Sampled(Bits(rx[n])), Slot(n + 1 == total, []));
    }
  }

  lemma EndsDiffer(x: seq<bool>, b: seq<bool>, y: seq<bool>, d: seq<bool>)
    requires x + b == y + d && |b| == |d|
    ensures x == y && b == d
  {
    assert x == (x + b)[..|x|] && y == (y + d)[..|x|];
    assert b == (x + b)[|x|..] && d == (y + d)[|x|..];
  }

  /** Different bytes read leave different levels sensed. */
  lemma {:induction false} AllBitsInjective(a: seq<bv8>, b: seq<bv8>)
    requires AllBits(a) == AllBits(b)
    ensures a == b
  {
    AllBitsLength(a);
    AllBitsLength(b);
    if a == [] {
    } else {
      var n := |a| - 1;
      EndsDiffer(AllBits(a[..n]), Bits(a[n]), AllBits(b[..n]), Bits(b[n]));
      AllBitsInjective(a[..n], b[..n]);
      PackBits(a[n]);
      PackBits(b[n]);
      assert a == a[..n] + [a[n]] && b == b[..n] + [b[n]];
    }
  }

  lemma {:induction false} AllBitsLength(a: seq<bv8>)
    ensures |AllBits(a)| == 8 * |a|
  {
    if a == [] {
    } else {
      AllBitsLength(a[..|a| - 1]);
    }
  }
}
