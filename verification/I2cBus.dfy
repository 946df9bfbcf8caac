/** What any I2C device on the bus sees: the events of NXP UM10204 sections
    3.1.3 to 3.1.6, read off a sequence of line levels. */
module I2cBus {
  import opened Bits8

  /** One step at the wires: a write that sets both levels, or a look at SDA. */
  datatype Action = Drive(sda: bool, scl: bool) | Sense(level: bool)

  /** START, STOP, or one clock pulse: the level of SDA as SCL rose and the
      levels sensed until it fell. `Torn` is SDA changing as SCL rises. */
  datatype Event = Start | Stop | Slot(level: bool, sensed: seq<bool>) | Torn

  datatype Pulse = NoPulse | Pulse(level: bool, sensed: seq<bool>)

  datatype Bus = Bus(sda: bool, scl: bool, pulse: Pulse, events: seq<Event>)

  const QUIET := Bus(true, true, NoPulse, [])

  function Finished(p: Pulse): seq<Event> {
    if p.Pulse? then [Slot(p.level, p.sensed)] else []
  }

  function Observe(b: Bus, a: Action): Bus {
    match a
    case Sense(level) =>
      if b.pulse.Pulse? then b.(pulse := Pulse(b.pulse.level, b.pulse.sensed + [level])) else b
    case Drive(sda, scl) =>
      if b.scl && scl then
        if b.sda == sda then b
        else Bus(sda, scl, NoPulse, b.events + [if sda then Stop else Start])
      else if scl then
        Bus(sda, scl, Pulse(sda, []), b.events + (if b.sda == sda then [] else [Torn]))
      else if b.scl then
        Bus(sda, scl, NoPulse, b.events + Finished(b.pulse))
      else
        b.(sda := sda)
  }

  /** The bus after a whole history of the wires. */
  function Watch(log: seq<Action>): Bus {
    if log == [] then QUIET else Observe(Watch(log[..|log| - 1]), log[|log| - 1])
  }

  lemma WatchNext(log: seq<Action>, a: Action)
    ensures Watch(log + [a]) == Observe(Watch(log), a)
  {
    assert (log + [a])[..|log|] == log;
  }

  /** A device that listens: eight slots make a byte, the ninth acknowledges it. */
  datatype Listener = Listener(count: nat, shift: bv8, bytes: seq<bv8>, starts: nat, stops: nat, torn: nat)

  const IDLE := Listener(0, 0, [], 0, 0, 0)

  function Hear(l: Listener, e: Event): Listener {
    match e
    case Start => l.(count := 0, shift := 0, starts := l.starts + 1)
    case Stop => l.(count := 0, shift := 0, stops := l.stops + 1)
    case Torn => l.(torn := l.torn + 1)
    case Slot(level, _) =>
      if l.count < 8 then l.(count := l.count + 1, shift := Push(l.shift, level))
      else l.(count := 0, shift := 0, bytes := l.bytes + [l.shift])
  }

  function Listen(l: Listener, events: seq<Event>): Listener {
    if events == [] then l else Hear(Listen(l, events[..|events| - 1]), events[|events| - 1])
  }

  lemma ListenNext(l: Listener, events: seq<Event>, e: Event)
    ensures Listen(l, events + [e]) == Hear(Listen(l, events), e)
  {
    assert (events + [e])[..|events|] == events;
  }

  lemma {:induction false} ListenAppend(l: Listener, a: seq<Event>, b: seq<Event>)
    ensures Listen(l, a + b) == Listen(Listen(l, a), b)
  {
    if b == [] {
      assert a + b == a;
    } else {
      var n := |b| - 1;
      assert a + b == a + b[..n] + [b[n]] && b == b[..n] + [b[n]];
      ListenNext(l, a + b[..n], b[n]);
      ListenAppend(l, a, b[..n]);
    }
  }

  /** Everything sensed on SDA during the pulses. */
  function Sensed(events: seq<Event>): seq<bool> {
    if events == [] then []
    else Sensed(events[..|events| - 1]) + (if events[|events| - 1].Slot? then events[|events| - 1].sensed else [])
  }
}
