/** The SI41XX frequency synthesizer: how its divider values are found, and why
    the frequency they give is exact. */
module Synthesizer {
  const MAX_PHASEDET := 1_000_000
  const MIN_PHASEDET := 10_000
  const WORD := 0x1_0000_0000

  predicate Product(d: int, q: int, x: int) {
    d * q == x
  }

  ghost predicate Divides(d: int, x: int) {
    exists q :: Product(d, q, x)
  }

  /** `g` is the greatest common divisor of `a` and `b`: every common divisor divides it. */
  ghost predicate IsGcd(g: int, a: int, b: int) {
    g > 0 && Divides(g, a) && Divides(g, b) &&
    forall d :: d > 0 && Divides(d, a) && Divides(d, b) ==> Divides(d, g)
  }

  /** Both pairs have the same common divisors. */
  ghost predicate SameDivisors(a: int, b: int, c: int, e: int) {
    forall d :: d > 0 ==> (Divides(d, a) && Divides(d, b) <==> Divides(d, c) && Divides(d, e))
  }

  lemma DividesSum(d: int, a: int, b: int)
    requires Divides(d, a) && Divides(d, b)
    ensures Divides(d, a + b) && Divides(d, a - b)
  {
    var p :| Product(d, p, a);
    var q :| Product(d, q, b);
    assert Product(d, p + q, a + b) && Product(d, p - q, a - b);
  }

  lemma SubtractKeeps(a: int, b: int)
    ensures SameDivisors(a, b, a - b, b)
    ensures SameDivisors(b, a, b, a - b)
  {
    forall d | d > 0
      ensures Divides(d, a) && Divides(d, b) <==> Divides(d, a - b) && Divides(d, b)
    {
      if Divides(d, a) && Divides(d, b) {
        DividesSum(d, a, b);
      }
      if Divides(d, a - b) && Divides(d, b) {
        DividesSum(d, a - b, b);
        assert a - b + b == a;
      }
    }
  }

  lemma EqualIsGcd(a: int, b: int, g: int)
    requires g > 0 && SameDivisors(a, b, g, g)
    ensures IsGcd(g, a, b)
  {
    assert Product(g, 1, g);
  }

  /** The two numbers of the subtraction loop after `n` passes. */
  function Passes(a: nat, b: nat, n: nat): (nat, nat) {
    if n == 0 || a == b then (a, b)
    else if a > b then Passes(a - b, b, n - 1)
    else Passes(a, b - a, n - 1)
  }

  predicate Ends(a: nat, b: nat, n: nat) {
    Passes(a, b, n).0 == Passes(a, b, n).1
  }

  lemma {:induction false} PassesEnd(a: nat, b: nat) returns (n: nat)
    requires a > 0 && b > 0
    ensures Ends(a, b, n)
    decreases a + b
  {
    if a == b {
      n := 0;
    } else if a > b {
      n := PassesEnd(a - b, b);
      n := n + 1;
    } else {
      n := PassesEnd(a, b - a);
      n := n + 1;
    }
  }

  lemma {:induction false} PassesStuck(a: nat, n: nat)
    requires a > 0
    ensures Passes(a, 0, n) == (a, 0)
  {
    if n == 0 {
    } else {
      PassesStuck(a, n - 1);
    }
  }

  /** With a reference frequency the loop ends exactly for a non-zero frequency. */
  lemma LoopEndsIff(ref: nat, freq: nat)
    requires ref > 0
    ensures (exists n :: Ends(ref, freq, n)) <==> freq > 0
  {
    if freq > 0 {
      var n := PassesEnd(ref, freq);
    } else {
      forall n: nat ensures !Ends(ref, freq, n) {
        PassesStuck(ref, n);
      }
    }
  }

  function Pow2(k: nat): (p: nat)
    ensures p > 0
  {
    if k == 0 then 1 else 2 * Pow2(k - 1)
  }

  /** The phase detector frequency for a common divisor `g`: halved, rounding
      down, until it is below the maximum. */
  function Halved(g: nat): (p: nat)
    ensures g > 0 ==> p > 0
  {
    if g >= MAX_PHASEDET then Halved(g / 2) else g
  }

  /** Halving is a division by a power of two; unless no halving was needed the
      result is at least half the maximum. */
  lemma {:induction false} HalvedBounds(g: nat) returns (k: nat, e: nat)
    ensures g == Halved(g) * Pow2(k) + e && e < Pow2(k)
    ensures Halved(g) < MAX_PHASEDET && (k == 0 || Halved(g) >= MAX_PHASEDET / 2)
    ensures k == 0 <==> g < MAX_PHASEDET
  {
    if g < MAX_PHASEDET {
      k, e := 0, 0;
    } else {
      var k1, e1 := HalvedBounds(g / 2);
      k, e := k1 + 1, 2 * e1 + g % 2;
      assert Halved(g) * Pow2(k) == 2 * (Halved(g) * Pow2(k1));
    }
  }

  /** The halving fails to leave a large enough frequency exactly when the common
      divisor was too small to begin with. */
  lemma TooSmall(g: nat)
    ensures Halved(g) < MIN_PHASEDET <==> g < MIN_PHASEDET
  {
    var k, e := HalvedBounds(g);
  }

  lemma Distribute(a: int, p: int, m: int, e: int)
    ensures a * (p * m + e) == (a * m) * p + a * e
  {
    assert a * (p * m) == (a * m) * p;
  }

  lemma NextMultiple(a: int, b: int, p: nat)
    ensures a < b ==> (a + 1) * p <= b * p
  {
  }

  /** What rounding lost stays below the phase detector frequency. */
  lemma RemainderSmall(a: nat, m: nat, e: nat, p: nat)
    requires e < m && p >= MAX_PHASEDET / 2 && (a * m) * p < WORD
    ensures a * e < p
  {
    var q := a * m;
    NextMultiple(8590, q, p);
    assert a * e <= a * m;
  }

  lemma QuotientUnique(x: nat, p: nat, q: nat, r: nat)
    requires p > 0 && x == q * p + r && r < p
    ensures x / p == q
  {
    assert x == x / p * p + x % p;
    NextMultiple(x / p, q, p);
    NextMultiple(q, x / p, p);
  }

  /** Dividing a 32-bit multiple of `g` by the halved divisor loses nothing but the powers of two. */
  lemma QuotientExact(g: nat, a: nat, m: nat, e: nat, p: nat)
    requires g == p * m + e && e < m && p > 0
    requires e == 0 || p >= MAX_PHASEDET / 2
    requires a * g < WORD
    ensures a * g / p == a * m
  {
    Distribute(a, p, m, e);
    assert a * e >= 0;
    if e > 0 {
      RemainderSmall(a, m, e, p);
    }
    QuotientUnique(a * g, p, a * m, a * e);
  }

  lemma BelowNext(b: nat, m: nat, p: nat, e: nat)
    requires b > 0 && e < m
    ensures b * (p * m + e) < (p + 1) * (b * m)
  {
    Distribute(b, p, m, e);
    assert b * e < b * m;
  }

  /** Rounding moves the phase detector frequency ref / r by less than one hertz
      from the halved divisor, so the documented bounds hold of it as well. */
  lemma PhaseDetectorBounds(ref: nat, g: nat)
    requires 0 < ref < WORD && g >= MIN_PHASEDET && Divides(g, ref) && Halved(g) > 0
    ensures MIN_PHASEDET * (ref / Halved(g)) <= ref < MAX_PHASEDET * (ref / Halved(g))
  {
    var k, e := HalvedBounds(g);
    var b :| Product(g, b, ref);
    Positive(g, b);
    var p, m := Halved(g), Pow2(k);
    assert b * g == ref;
    QuotientExact(g, b, m, e, p);
    BelowNext(b, m, p, e);
    Distribute(b, p, m, e);
    TooSmall(g);
    var r := b * m;
    NextMultiple(p, MAX_PHASEDET, r);
    MultipleAtMost(MIN_PHASEDET, p, r);
    assert ref == r * p + b * e && b * e >= 0;
  }

  lemma MultipleAtMost(a: int, b: int, p: nat)
    ensures a <= b ==> a * p <= p * b
  {
  }

  lemma CrossProduct(a: int, b: int, g: int, m: int)
    ensures a * m * (g * b) == b * m * (g * a)
  {
    assert a * m * (g * b) == (a * b) * (m * g) && b * m * (g * a) == (a * b) * (m * g);
  }

  /** The dividers found for a common divisor of two 32-bit frequencies give
      exactly the wanted frequency, although halving may have rounded. */
  lemma DividersExact(freq: nat, ref: nat, g: nat)
    requires 0 < freq < WORD && 0 < ref < WORD && g > 0 && Divides(g, freq) && Divides(g, ref)
    requires Halved(g) > 0
    ensures freq / Halved(g) * ref == ref / Halved(g) * freq
    ensures freq / Halved(g) > 0 && ref / Halved(g) > 0
  {
    var k, e := HalvedBounds(g);
    var a :| Product(g, a, freq);
    var b :| Product(g, b, ref);
    Positive(g, a);
    Positive(g, b);
    var p, m := Halved(g), Pow2(k);
    assert a * g == freq && b * g == ref;
    QuotientExact(g, a, m, e, p);
    QuotientExact(g, b, m, e, p);
    CrossProduct(a, b, g, m);
    Positive(m, a);
    Positive(m, b);
  }

  lemma Positive(g: int, q: int)
    requires g > 0
    ensures g * q > 0 <==> q > 0
  {
  }
}
