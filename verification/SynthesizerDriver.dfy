/** The driver around the divider arithmetic: register widths, power bits and
    the sequence of register writes. */
module SynthesizerDriver {
  import opened Synthesizer

  /** The three synthesized outputs. */
  datatype Output = IF | RF1 | RF2

  const REG_CONFIG := 0
  const REG_PWRDOWN := 2
  const POWERDOWN_PBRB := 1
  const POWERDOWN_PBIB := 2

  function NReg(o: Output): nat {
    match o case RF1 => 3 case RF2 => 4 case IF => 5
  }

  function RReg(o: Output): nat {
    match o case RF1 => 6 case RF2 => 7 case IF => 8
  }

  /** The largest N that the register holds: 18, 17 and 16 bits. */
  function NMax(o: Output): nat {
    match o case RF1 => 0x3FFFF case RF2 => 0x1FFFF case IF => 0xFFFF
  }

  const R_MAX := 0x1FFF

  /** Which half of the chip an output belongs to. */
  predicate IfBlock(o: Output) {
    o == IF
  }

  function PowerWord(rf: bool, if': bool): nat {
    (if rf then POWERDOWN_PBRB else 0) + if if' then POWERDOWN_PBIB else 0
  }

  /** A left shift of a 32-bit number. */
  function Shift(x: nat, k: nat): nat {
    x * Pow2(k) % WORD
  }

  /** The index at which the divisor search of SetIFDiv stops. */
  function DivIndex(div: bv8): nat {
    if div == 2 then 1 else if div == 4 then 2 else if div == 8 then 3 else 0
  }

  predicate PowerOfTwo(div: bv8) {
    div != 0 && div & (div - 1) == 0
  }

  /** What the chip makes of register writes: addresses, field widths and power
      bits as the chip has them. */
  datatype Chip = Chip(rf1: (nat, nat), rf2: (nat, nat), ifd: (nat, nat), ifDiv: nat, rfOn: bool, ifOn: bool) {
    function Dividers(o: Output): (nat, nat) {
      match o case RF1 => rf1 case RF2 => rf2 case IF => ifd
    }

    function With(o: Output, d: (nat, nat)): Chip {
      match o case RF1 => this.(rf1 := d) case RF2 => this.(rf2 := d) case IF => this.(ifd := d)
    }

    function Written(reg: nat, value: nat): Chip {
      if reg == 0 then this.(ifDiv := value / 0x400 % 4)
      else if reg == 2 then this.(rfOn := value % 2 == 1, ifOn := value / 2 % 2 == 1)
      else if reg == 3 then this.(rf1 := (value % 0x40000, rf1.1))
      else if reg == 4 then this.(rf2 := (value % 0x20000, rf2.1))
      else if reg == 5 then this.(ifd := (value % 0x10000, ifd.1))
      else if reg == 6 then this.(rf1 := (rf1.0, value % 0x2000))
      else if reg == 7 then this.(rf2 := (rf2.0, value % 0x2000))
      else if reg == 8 then this.(ifd := (ifd.0, value % 0x2000))
      else this
    }

    /** A write that changes a divider of a block that is powered. */
    predicate Disturbs(reg: nat) {
      (rfOn && reg in {3, 4, 6, 7}) || (ifOn && reg in {5, 8})
    }
  }

  class Synth {
    const refFreq: nat
    var ifDiv: nat
    var dividers: map<Output, (nat, nat)>
    var rfPower: bool
    var ifPower: bool
    var writes: seq<(nat, nat)>
    /** The chip, and how often a divider was written under power. */
    ghost var chip: Chip
    ghost var disturbed: nat

    constructor (refFreq: nat)
      requires 0 < refFreq < WORD
      ensures this.refFreq == refFreq && ifDiv == 0 && dividers == map[] && writes == []
    {
      this.refFreq, ifDiv, dividers, writes := refFreq, 0, map[], [];
      rfPower, ifPower := true, true;
    }

    /** Finds dividers through the greatest common divisor `g` of the two frequencies. */
    method CalcDiv(freq: nat) returns (ok: bool, n: nat, r: nat, ghost g: nat)
      requires 0 < freq < WORD && 0 < refFreq < WORD
      ensures g > 0 && IsGcd(g, refFreq, freq)
      ensures ok <==> g >= MIN_PHASEDET
      ensures ok ==> n == freq / Halved(g) && r == refFreq / Halved(g)
      ensures ok ==> n * refFreq == r * freq && n > 0 && r > 0
      ensures ok ==> MIN_PHASEDET * r <= refFreq < MAX_PHASEDET * r
    {
      var phasedet, gcd := refFreq, freq;
      while phasedet != gcd
        invariant phasedet > 0 && gcd > 0 && SameDivisors(refFreq, freq, phasedet, gcd)
        decreases phasedet + gcd
      {
        if phasedet > gcd {
          SubtractKeeps(phasedet, gcd);
          phasedet := phasedet - gcd;
        } else {
          SubtractKeeps(gcd, phasedet);
          gcd := gcd - phasedet;
        }
      }
      g := phasedet;
      EqualIsGcd(refFreq, freq, g);
      while phasedet >= MAX_PHASEDET
        invariant phasedet > 0 && Halved(phasedet) == Halved(g)
      {
        phasedet := phasedet / 2;
      }
      TooSmall(g);
      n, r := 0, 0;
      if phasedet < MIN_PHASEDET {
        return false, n, r, g;
      }
      DividersExact(freq, refFreq, g);
      PhaseDetectorBounds(refFreq, g);
      ok, n, r := true, freq / phasedet, refFreq / phasedet;
    }

    /** The frequency that is divided for an output. */
    function Target(o: Output, freq: nat): nat
      reads this
    {
      if o == IF then Shift(freq, ifDiv) else freq
    }

    /** The Set functions: on success the registers hold dividers that give the target exactly. */
    method Set(o: Output, freq: nat) returns (ok: bool, ghost g: nat)
      requires 0 < Target(o, freq) < WORD && 0 < refFreq < WORD
      modifies `dividers, `rfPower, `ifPower, `writes, `chip, `disturbed
      ensures g > 0 && IsGcd(g, refFreq, Target(o, freq))
      ensures ok <==>
        g >= MIN_PHASEDET && Target(o, freq) / Halved(g) <= NMax(o) && refFreq / Halved(g) <= R_MAX
      ensures !ok ==> dividers == old(dividers) && writes == old(writes)
      ensures !ok ==> rfPower == old(rfPower) && ifPower == old(ifPower)
      ensures ok ==> o in dividers && dividers == old(dividers)[o := dividers[o]]
      ensures ok ==> dividers[o].0 * refFreq == dividers[o].1 * Target(o, freq)
      ensures ok ==> MIN_PHASEDET * dividers[o].1 <= refFreq < MAX_PHASEDET * dividers[o].1
      ensures ok ==> 0 < dividers[o].0 <= NMax(o) && 0 < dividers[o].1 <= R_MAX
      ensures o == IF && ok ==>
        (dividers[o].0 * refFreq == dividers[o].1 * (freq * Pow2(ifDiv)) <==> freq * Pow2(ifDiv) < WORD)
      ensures o != IF && ok ==> dividers[o].0 * refFreq == dividers[o].1 * freq
      ensures ok ==> chip == old(chip).With(o, dividers[o]).(rfOn := rfPower, ifOn := ifPower)
      ensures disturbed == old(disturbed) && (!ok ==> chip == old(chip))
      ensures ok ==> rfPower == (old(rfPower) || !IfBlock(o)) && ifPower == (old(ifPower) || IfBlock(o))
      ensures ok ==> writes == old(writes) + [
        (REG_PWRDOWN, PowerWord(old(rfPower) && IfBlock(o), old(ifPower) && !IfBlock(o))),
        (NReg(o), dividers[o].0), (RReg(o), dividers[o].1),
        (REG_PWRDOWN, PowerWord(rfPower, ifPower))]
    {
      var found, n, r;
      found, n, r, g := CalcDiv(Target(o, freq));
      if !found {
        return false, g;
      }
      if n >= NMax(o) + 1 || r >= R_MAX + 1 {
        return false, g;
      }
      dividers := dividers[o := (n, r)];
      if o == IF {
        IFExact(n, r, refFreq, freq, ifDiv);
      }
      Program(o, n, r);
      ok := true;
    }

    /** Power the block down, write its dividers, and power it up. */
    method Program(o: Output, n: nat, r: nat)
      requires n <= NMax(o) && r <= R_MAX
      modifies `rfPower, `ifPower, `writes, `chip, `disturbed
      ensures rfPower == (old(rfPower) || !IfBlock(o)) && ifPower == (old(ifPower) || IfBlock(o))
      ensures writes == old(writes) + [
        (REG_PWRDOWN, PowerWord(old(rfPower) && IfBlock(o), old(ifPower) && !IfBlock(o))),
        (NReg(o), n), (RReg(o), r), (REG_PWRDOWN, PowerWord(rfPower, ifPower))]
      ensures chip == old(chip).With(o, (n, r)).(rfOn := rfPower, ifOn := ifPower)
      ensures disturbed == old(disturbed)
    {
      if IfBlock(o) {
        ifPower := false;
      } else {
        rfPower := false;
      }
      WriteRegister(REG_PWRDOWN, PowerWord(rfPower, ifPower));
      WriteRegister(NReg(o), n);
      WriteRegister(RReg(o), r);
      if IfBlock(o) {
        ifPower := true;
      } else {
        rfPower := true;
      }
      WriteRegister(REG_PWRDOWN, PowerWord(rfPower, ifPower));
    }

    method WriteRegister(reg: nat, value: nat)
      modifies `writes, `chip, `disturbed
      ensures writes == old(writes) + [(reg, value)]
      ensures chip == old(chip).Written(reg, value)
      ensures disturbed == old(disturbed) + if old(chip).Disturbs(reg) then 1 else 0
    {
      writes := writes + [(reg, value)];
      disturbed := disturbed + if chip.Disturbs(reg) then 1 else 0;
      chip := chip.Written(reg, value);
    }

    /** Accepts every power of two, also those above 8. */
    method SetIFDiv(div: bv8) returns (ok: bool)
      modifies `ifDiv, `writes, `chip, `disturbed
      ensures ok <==> PowerOfTwo(div)
      ensures ifDiv == if ok then DivIndex(div) else old(ifDiv)
      ensures ok ==> writes == old(writes) + [(REG_CONFIG, ifDiv * 0x400)]
      ensures chip == if ok then old(chip).(ifDiv := ifDiv) else old(chip)
      ensures disturbed == old(disturbed)
      ensures !ok ==> writes == old(writes)
    {
      if !PowerOfTwo(div) {
        return false;
      }
      var i := 0;
      var d := div;
      HalfStep(d);
      while i < 4 && d & 0xE != 0
        invariant PowerOfTwo(d) && i + DivIndex(d) == DivIndex(div)
        invariant d & 0xE != 0 ==> DivIndex(d) >= 1
        invariant d & 0xE == 0 ==> DivIndex(d) == 0
        invariant writes == old(writes) && chip == old(chip) && disturbed == old(disturbed)
        decreases 4 - i
      {
        HalfStep(d);
        i := i + 1;
        d := d >> 1;
        HalfStep(d);
      }
      if i == 4 {
        return false;
      }
      ifDiv := i;
      WriteRegister(REG_CONFIG, ifDiv * 0x400);
      return true;
    }
  }

  /** One step of the divisor search. */
  lemma HalfStep(d: bv8)
    requires PowerOfTwo(d)
    ensures d & 0xE == 0 ==> DivIndex(d) == 0
    ensures d & 0xE != 0 ==> PowerOfTwo(d >> 1) && DivIndex(d) == DivIndex(d >> 1) + 1
  {
  }

  lemma PowersOfTwo(div: bv8)
    requires PowerOfTwo(div)
    ensures div == 1 || div == 2 || div == 4 || div == 8 || div == 16 || div == 32 || div == 64 || div == 128
  {
  }

  /** An accepted divisor is the one that is set exactly when it is at most 8. */
  lemma IFDivHonest(div: bv8)
    requires PowerOfTwo(div)
    ensures Pow2(DivIndex(div)) == div as int <==> div < 16
  {
    PowersOfTwo(div);
    assert Pow2(1) == 2 && Pow2(2) == 4 && Pow2(3) == 8;
  }

  lemma Cancel(r: nat, a: nat, b: nat)
    requires r > 0
    ensures r * a == r * b <==> a == b
  {
    if a < b {
      assert r * b == r * a + r * (b - a);
    } else if b < a {
      assert r * a == r * b + r * (a - b);
    }
  }

  lemma ShiftExact(x: nat)
    ensures x % WORD == x <==> x < WORD
  {
  }

  /** The intermediate frequency is the wanted one exactly when shifting it by the
      output divider stays within 32 bits. */
  lemma IFExact(n: nat, r: nat, ref: nat, freq: nat, k: nat)
    requires n * ref == r * Shift(freq, k) && r > 0
    ensures n * ref == r * (freq * Pow2(k)) <==> freq * Pow2(k) < WORD
  {
    var x := freq * Pow2(k);
    ShiftExact(x);
    Cancel(r, Shift(freq, k), x);
  }

  /** The shift can be zero for a non-zero frequency; the subtraction loop then
      never ends. */
  lemma ShiftedAway(ref: nat)
    requires ref > 0
    ensures Shift(0x2000_0000, 3) == 0 && forall n :: !Ends(ref, Shift(0x2000_0000, 3), n)
  {
    assert Pow2(3) == 8;
    LoopEndsIff(ref, 0);
  }

  /** A request for which the shift wraps is accepted, and gives another frequency. */
  lemma WrongFrequency()
    ensures var t, p := Shift(2_397_483_648, 1), Halved(10_000_000);
      && IsGcd(10_000_000, 10_000_000, t) && p >= MIN_PHASEDET
      && t / p <= NMax(IF) && 10_000_000 / p <= R_MAX
      && t / p * 10_000_000 != 10_000_000 / p * (2_397_483_648 * Pow2(1))
  {
    var t := Shift(2_397_483_648, 1);
    assert Pow2(1) == 2 && t == 500_000_000;
    assert Halved(1_250_000) == 625_000;
    assert Halved(5_000_000) == Halved(2_500_000) == Halved(1_250_000);
    assert Product(10_000_000, 1, 10_000_000) && Product(10_000_000, 50, t);
  }

  /** The limits that the driver checks are exactly what the chip can store. */
  lemma RegisterWidths(chip: Chip, o: Output, v: nat)
    ensures chip.Written(NReg(o), v).Dividers(o).0 == v <==> v <= NMax(o)
    ensures chip.Written(RReg(o), v).Dividers(o).1 == v <==> v <= R_MAX
  {
    match o
    case IF =>
    case RF1 =>
    case RF2 =>
  }
}
