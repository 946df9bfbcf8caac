/** The mode state machine of the AX5043 driver. Its operations nest: TX calls
    SetProfile, which calls SetFreq, which calls RX. */
module RadioModes {
  import opened Bytes
  import RadioTransmit

  datatype State = READY | RX | WOR | TX
  datatype Power = POWERDOWN | STANDBY | RX_SYNTH | RX_FULL | RX_WOR | TX_SYNTH | TX_FULL
  datatype Error = NOERROR | RANGING | LOCKLOST

  /** Register settings; `None` is the null pointer. */
  datatype Profile = None | Profile(id: nat)

  datatype Operation =
    | Tune(vcor: nat, chan: bool)
    | ChangeProfile(profile: Profile)
    | Send(txProfile: Profile, txChan: bool, data: seq<octet>)

  /** A packet written to the FIFO, and the settings in force meanwhile. */
  datatype Aired =
    Aired(power: Power, state: State, chanB: bool, profile: Profile, receiving: bool, payload: seq<octet>)

  function LastProfile(ops: seq<Operation>, before: Profile): Profile {
    if ops == [] then before
    else if ops[|ops| - 1].ChangeProfile? then ops[|ops| - 1].profile
    else LastProfile(ops[..|ops| - 1], before)
  }

  /** What the transmissions among the operations put on the air. */
  function Sent(ops: seq<Operation>, before: Profile): seq<Aired> {
    if ops == [] then []
    else
      var n := |ops| - 1;
      var op := ops[n];
      Sent(ops[..n], before) +
      if op.Send? then
        [Aired(TX_FULL, TX, op.txChan,
               if op.txProfile.Profile? then op.txProfile else LastProfile(ops[..n], before), false, op.data)]
      else []
  }

  /** How often the transmitter was turned on. */
  ghost function TurnedOn(powers: seq<Power>): nat {
    multiset(powers)[TX_FULL]
  }

  class Radio {
    /** Whether the PLL locks every time it is asked to. */
    const locks: bool
    var state: State
    var rxWorker: bool
    var profile: Profile
    /** The channel selected in the PLLLOOP register. */
    var chanB: bool
    var power: Power
    var error: Error
    var vcora: nat
    var vcorb: nat
    var txLock: bool
    /** Every power mode the driver has set, and every packet it has written. */
    ghost var powers: seq<Power>
    ghost var aired: seq<Aired>
    /** The channels that have been ranged. */
    ghost var rangings: seq<bool>

    /** There is a receive worker exactly in the receiving states, and the chip
        is powered as the state says. */
    ghost predicate Valid()
      reads this
    {
      (rxWorker <==> Receiving()) &&
      (state == RX ==> power == RX_FULL) && (state == WOR ==> power == RX_WOR) && (state == TX ==> power == TX_FULL)
    }

    predicate Receiving()
      reads this
    {
      state == RX || state == WOR
    }

    constructor (locks: bool, profile: Profile)
      ensures Valid() && this.locks == locks && state == READY && this.profile == profile && !txLock
    {
      this.locks, this.profile := locks, profile;
      state, rxWorker, chanB, power, error := READY, false, false, POWERDOWN, NOERROR;
      vcora, vcorb, txLock := 0, 0, false;
      powers, aired, rangings := [], [], [];
    }

    method SetPower(mode: Power)
      modifies `power, `powers
      ensures power == mode && powers == old(powers) + [mode]
      ensures TurnedOn(powers) == TurnedOn(old(powers)) + if mode == TX_FULL then 1 else 0
    {
      power, powers := mode, powers + [mode];
    }

    /** Writes a packet to the FIFO. */
    method WritePacket(buf: seq<octet>, total: nat, callback: bool, refill: nat -> seq<octet>)
      returns (ghost chunks: seq<RadioTransmit.Chunk>, calls: nat)
      requires total != 0 && (callback || |buf| == total)
      requires callback ==> RadioTransmit.HonoursContract(buf, refill, total)
      modifies `aired
      ensures RadioTransmit.WellFormed(chunks, |RadioTransmit.Payload(chunks)| == total)
      ensures |buf| <= total ==> RadioTransmit.Payload(chunks) == RadioTransmit.Supplied(buf, refill, calls)
      ensures |buf| <= total ==> |RadioTransmit.Payload(chunks)| == total
      ensures !callback ==> calls == 0
      ensures aired == old(aired) + [Aired(power, state, chanB, profile, rxWorker, RadioTransmit.Payload(chunks))]
    {
      var written;
      written, calls := RadioTransmit.Transmit(buf, total, callback, refill);
      chunks := written;
      aired := aired + [Aired(power, state, chanB, profile, rxWorker, RadioTransmit.Payload(chunks))];
    }

    /** A READY radio is left as it is, whatever its power mode. */
    method Idle()
      requires Valid()
      modifies `state, `rxWorker, `power, `powers, `error
      ensures Valid() && state == READY
      ensures old(state) == READY ==> power == old(power) && error == old(error)
      ensures old(state) != READY ==> power == POWERDOWN && error == NOERROR
      ensures TurnedOn(powers) == TurnedOn(old(powers))
    {
      if state != READY {
        error := NOERROR;
        if rxWorker {
          rxWorker := false;
        }
        SetPower(POWERDOWN);
        state := READY;
      }
    }

    /** Waits for the PLL. */
    method PllLock() returns (locked: bool)
      ensures locks ==> locked
    {
      locked := *;
      locked := locked || locks;
    }

    method Receive(chan: bool, wor: bool)
      requires Valid()
      modifies `state, `rxWorker, `power, `powers, `error, `chanB
      ensures Valid() && chanB == chan
      ensures var wanted := if wor then WOR else RX;
        old(state) == wanted && old(chanB) == chan ==> state == wanted && error == old(error)
      ensures var wanted := if wor then WOR else RX;
        !(old(state) == wanted && old(chanB) == chan) ==>
        (state == wanted && error == NOERROR) ||
        (!locks && state == READY && power == POWERDOWN && error == LOCKLOST)
      ensures TurnedOn(powers) == TurnedOn(old(powers))
    {
      if (!wor && state != RX) || (wor && state != WOR) || chan != chanB {
        error := NOERROR;
        Idle();
        chanB := chan;
        SetPower(RX_SYNTH);
        var locked := PllLock();
        if !locked {
          SetPower(POWERDOWN);
          error := LOCKLOST;
          return;
        }
        if wor {
          SetPower(RX_WOR);
          state := WOR;
        } else {
          SetPower(RX_FULL);
          state := RX;
        }
        rxWorker := true;
      }
    }

    /** What the operations below do last. */
    method Return(prevState: State, prevChan: bool)
      requires Valid()
      modifies `state, `rxWorker, `power, `powers, `error, `chanB
      ensures Valid()
      ensures prevState == RX || prevState == WOR ==> chanB == prevChan
      ensures (prevState == RX || prevState == WOR) && locks ==> state == prevState
      ensures (prevState == RX || prevState == WOR) && locks && old(state) != prevState ==> error == NOERROR
      ensures (prevState == RX || prevState == WOR) && old(state) != prevState ==> error == NOERROR || error == LOCKLOST
      ensures prevState == READY || prevState == TX ==> state == READY && chanB == old(chanB)
      ensures (prevState == READY || prevState == TX) && old(state) == READY ==>
        power == old(power) && error == old(error)
      ensures (prevState == READY || prevState == TX) && old(state) != READY ==> power == POWERDOWN && error == NOERROR
      ensures TurnedOn(powers) == TurnedOn(old(powers))
    {
      match prevState
      case RX => Receive(prevChan, false);
      case WOR => Receive(prevChan, true);
      case READY => Idle();
      case TX => Idle();
    }

    /** Entered while receiving, SetFreq leaves the radio in the same mode on the
        same channel, and clears the ranging error that it may have met. Entered
        otherwise it leaves the chip in standby on the channel it ranged, and
        reports the ranging error. */
    method SetFreq(vcor: nat, chan: bool) returns (result: nat, ghost failed: bool)
      requires Valid()
      modifies `state, `rxWorker, `power, `powers, `error, `chanB, `vcora, `vcorb, `rangings
      ensures Valid()
      ensures old(Receiving()) && locks ==>
        state == old(state) && chanB == old(chanB) && power == old(power) && error == NOERROR
      ensures old(Receiving()) ==> chanB == old(chanB)
      ensures !old(Receiving()) ==> state == READY && chanB == chan && power == STANDBY
      ensures !old(Receiving()) ==> error == if failed then RANGING else NOERROR
      ensures error == RANGING <==> failed && !old(Receiving())
      ensures result <= 15
      ensures if chan then vcorb == result && vcora == old(vcora) else vcora == result && vcorb == old(vcorb)
      ensures TurnedOn(powers) == TurnedOn(old(powers))
      ensures rangings == old(rangings) + [chan]
    {
      error := NOERROR;
      var prevState, prevChan := state, chanB;
      Idle();
      SetPower(STANDBY);
      chanB := chan;
      var rangeError: bool := *;
      var ranged: nat := *;
      failed := rangeError;
      if rangeError {
        error := RANGING;
      }
      result := ranged % 16;
      rangings := rangings + [chan];
      if chan {
        vcorb := result;
      } else {
        vcora := result;
      }
      Return(prevState, prevChan);
    }

    /** As SetFreq, whatever a profile writes to the channel and power mode
        registers. Channel B is ranged first, and its failure `failedB` is never
        reported. From READY the channel is always A afterwards. */
    method SetProfile(p: Profile) returns (ghost failedB: bool, ghost failedA: bool)
      requires Valid() && p.Profile?
      modifies `state, `rxWorker, `power, `powers, `error, `chanB, `vcora, `vcorb, `rangings, `profile
      ensures Valid() && profile == p
      ensures old(Receiving()) && locks ==>
        state == old(state) && chanB == old(chanB) && power == old(power) && error == NOERROR
      ensures old(Receiving()) ==> chanB == old(chanB)
      ensures !old(Receiving()) ==> state == READY && !chanB && power == STANDBY
      ensures !old(Receiving()) ==> error == if failedA then RANGING else NOERROR
      ensures error == RANGING <==> failedA && !old(Receiving())
      ensures vcora <= 15 && vcorb <= 15
      ensures TurnedOn(powers) == TurnedOn(old(powers))
      ensures rangings == old(rangings) + [true, false]
    {
      profile := p;
      var prevState, prevChan := state, chanB;
      Idle();
      var writtenChan: bool, writtenPower: Power := *, *;
      chanB, power := writtenChan, writtenPower;
      var v;
      v, failedB := SetFreq(vcorb, true);
      v, failedA := SetFreq(vcora, false);
      Return(prevState, prevChan);
    }

    /** Selects the channel, locks the PLL and turns the transmitter on. */
    method LockTransmitter(chan: bool) returns (ok: bool)
      requires Valid() && state == READY
      modifies `state, `power, `powers, `error, `chanB
      ensures Valid() && (locks ==> ok) && chanB == chan
      ensures TurnedOn(powers) == TurnedOn(old(powers)) + if ok then 1 else 0
      ensures ok ==> state == TX && power == TX_FULL
      ensures !ok ==> state == READY && power == POWERDOWN && error == LOCKLOST
    {
      chanB := chan;
      SetPower(TX_SYNTH);
      ok := PllLock();
      if !ok {
        SetPower(POWERDOWN);
        error := LOCKLOST;
        return;
      }
      SetPower(TX_FULL);
      state := TX;
    }

    /** The part of a transmission before its data. */
    method TurnOn(p: Profile, chan: bool) returns (ok: bool)
      requires Valid()
      modifies `state, `rxWorker, `power, `powers, `error, `chanB, `vcora, `vcorb, `rangings, `profile
      ensures Valid() && (locks ==> ok) && chanB == chan
      ensures profile == if p.Profile? then p else old(profile)
      ensures TurnedOn(powers) == TurnedOn(old(powers)) + if ok then 1 else 0
      ensures ok ==> state == TX && power == TX_FULL && !rxWorker
      ensures !ok ==> state == READY && power == POWERDOWN && error == LOCKLOST
    {
      Idle();
      if p.Profile? {
        var failedB, failedA := SetProfile(p);
      }
      ok := LockTransmitter(chan);
    }

    /** The part of a transmission behind its data. */
    method TurnOff(p: Profile, prevProfile: Profile, prevState: State, prevChan: bool)
      requires Valid() && state == TX && (p.Profile? ==> prevProfile.Profile?)
      modifies `state, `rxWorker, `power, `powers, `error, `chanB, `vcora, `vcorb, `rangings, `profile
      ensures Valid() && profile == if p.Profile? then prevProfile else old(profile)
      ensures TurnedOn(powers) == TurnedOn(old(powers))
      ensures prevState == RX || prevState == WOR ==> chanB == prevChan
      ensures prevState == RX && locks ==> state == RX && power == RX_FULL && error == NOERROR
      ensures prevState == WOR && locks ==> state == WOR && power == RX_WOR && error == NOERROR
      ensures prevState == READY || prevState == TX ==>
        state == READY && chanB == (old(chanB) && p.None?) && power == if p.Profile? then STANDBY else POWERDOWN
    {
      if p.Profile? {
        var failedB, failedA := SetProfile(prevProfile);
      }
      Return(prevState, prevChan);
    }

    /** A transmission. If the PLL locks, the transmitter is turned on once, and the
        packet is written while it is on, on the wanted channel, with the wanted
        profile and without a receive worker; mode, channel and profile are
        restored when it was started while receiving. If the PLL does not lock,
        nothing is transmitted and the lock is kept. */
    method Transmit(p: Profile, chan: bool, buf: seq<octet>, total: nat, callback: bool, refill: nat -> seq<octet>)
      returns (ok: bool, ghost chunks: seq<RadioTransmit.Chunk>, ghost calls: nat)
      requires Valid() && !txLock && (p.Profile? ==> profile.Profile?)
      requires total != 0 && (callback || |buf| == total)
      requires callback ==> RadioTransmit.HonoursContract(buf, refill, total)
      modifies this
      ensures Valid() && (locks ==> ok) && (ok <==> !txLock)
      ensures ok ==> profile == old(profile)
      ensures old(Receiving()) && ok ==> chanB == old(chanB)
      ensures old(Receiving()) && locks ==> state == old(state) && power == old(power) && error == NOERROR
      ensures !old(Receiving()) && ok ==> state == READY && chanB == (chan && p.None?)
      ensures !old(Receiving()) && ok ==> power == if p.Profile? then STANDBY else POWERDOWN
      ensures !ok ==> state == READY && power == POWERDOWN && error == LOCKLOST && chanB == chan
      ensures !ok ==> profile == if p.Profile? then p else old(profile)
      ensures TurnedOn(powers) == TurnedOn(old(powers)) + if ok then 1 else 0
      ensures !ok ==> aired == old(aired)
      ensures ok ==> aired == old(aired) + [
        Aired(TX_FULL, TX, chan, if p.Profile? then p else old(profile), false, RadioTransmit.Payload(chunks))]
      ensures ok ==> RadioTransmit.WellFormed(chunks, |RadioTransmit.Payload(chunks)| == total)
      ensures ok && |buf| <= total ==> |RadioTransmit.Payload(chunks)| == total
      ensures ok && |buf| <= total ==> RadioTransmit.Payload(chunks) == RadioTransmit.Supplied(buf, refill, calls)
      ensures !callback ==> calls == 0
    {
      chunks, calls := [], 0;
      txLock := true;
      error := NOERROR;
      var prevState, prevChan, prevProfile := state, chanB, profile;
      ok := TurnOn(p, chan);
      if !ok {
        return;
      }
      chunks, calls := WritePacket(buf, total, callback, refill);
      TurnOff(p, prevProfile, prevState, prevChan);
      txLock := false;
    }

    /** Any sequence of operations on a receiving radio whose PLL always locks
        puts exactly the packets of its transmissions on the air, and leaves the
        radio receiving as before, with the profile set last. */
    method Session(ops: seq<Operation>)
      requires Valid() && Receiving() && locks && !txLock
      requires forall op :: op in ops && op.ChangeProfile? ==> op.profile.Profile?
      requires forall i :: 0 <= i < |ops| && ops[i].Send? && ops[i].txProfile.Profile? ==>
        LastProfile(ops[..i], profile).Profile?
      requires forall op :: op in ops && op.Send? ==> op.data != []
      modifies this
      ensures aired == old(aired) + Sent(ops, old(profile))
      ensures Valid() && !txLock && state == old(state) && chanB == old(chanB) && power == old(power)
      ensures profile == LastProfile(ops, old(profile))
    {
      for i := 0 to |ops|
        invariant Valid() && !txLock && state == old(state) && chanB == old(chanB) && power == old(power)
        invariant profile == LastProfile(ops[..i], old(profile))
        invariant aired == old(aired) + Sent(ops[..i], old(profile))
      {
        assert ops[..i + 1][..i] == ops[..i];
        match ops[i] {
          case Tune(vcor, chan) => var v, failed := SetFreq(vcor, chan);
          case ChangeProfile(p) => var failedB, failedA := SetProfile(p);
          case Send(p, chan, data) => var ok, chunks, calls := Transmit(p, chan, data, |data|, false, _ => []);
        }
      }
      assert ops[..|ops|] == ops;
    }
  }
}
