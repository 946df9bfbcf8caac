/** The 32-bit register of the CRC: exclusive or, complement, and how they meet shifts. */
module Words {
  /** A byte widened to the register it is combined with. */
  type word8 = x: bv32 | x < 256

  function Xor(a: bv32, b: bv32): bv32 {
    a ^ b
  }

  function Right4(a: bv32): bv32 {
    a >> 4
  }

  function Left4(a: bv32): bv32 {
    a << 4
  }

  function Not(c: bv32): bv32 {
    !c
  }

  lemma XorSwap(a: bv32, b: bv32, c: bv32)
    ensures Xor(Xor(a, b), c) == Xor(Xor(a, c), b)
  {
    XorAssoc(a, b, c);
    XorAssoc(a, c, b);
    XorCommutes(b, c);
  }

  lemma XorCommutes(a: bv32, b: bv32)
    ensures Xor(a, b) == Xor(b, a)
  {
  }

  lemma XorAssoc(a: bv32, b: bv32, c: bv32)
    ensures Xor(Xor(a, b), c) == Xor(a, Xor(b, c))
  {
  }

  lemma XorCancel(a: bv32, b: bv32, c: bv32)
    requires Xor(a, b) == Xor(a, c)
    ensures b == c
  {
  }

  lemma XorSame(a: bv32, b: bv32, c: bv32)
    requires Xor(a, c) == Xor(b, c)
    ensures a == b
  {
  }

  lemma ShiftedBack(c: bv32, y: bv32)
    requires y < 0x10000000
    ensures Right4(Xor(c, Left4(y))) == Xor(Right4(c), y)
  {
  }

  lemma SameLowBits(c: bv32, y: bv32)
    ensures Xor(Xor(c, y << 4), 0) & 15 == Xor(c, 0) & 15
  {
  }

  lemma SameIndex(c: bv32, x: bv32)
    ensures Xor(c, x) & 15 == Xor(Xor(c, x & 15), 0) & 15
  {
  }

  lemma SameRest(c: bv32, x: bv32)
    ensures c >> 4 == Xor(c, x & 15) >> 4
  {
  }

  lemma SplitByte(c: bv32, x: word8)
    ensures Xor(Xor(c, x & 15), (x >> 4) << 4) == Xor(c, x)
  {
  }

  lemma HighNibble(x: word8)
    ensures (x >> 4) & 15 == x >> 4 < 16
  {
  }

  function Left8(a: bv32): bv32 {
    a << 8
  }

  lemma ShiftTwice(y: bv32)
    requires y < 0x1000000
    ensures Left4(Left4(y)) == Left8(y) && Left4(y) < 0x10000000
  {
  }

  /** Four bytes as one word, the first lowest. */
  function Word(a: word8, b: word8, c: word8, d: word8): bv32 {
    Xor(a, Left8(Xor(b, Left8(Xor(c, Left8(d))))))
  }

  lemma Fits(b: word8, y: bv32)
    requires y < 0x10000
    ensures Xor(b, Left8(y)) < 0x1000000
  {
  }

  lemma Fits2(b: word8, y: word8)
    ensures Xor(b, Left8(y)) < 0x10000
  {
  }

  lemma Peel(a: word8, b: word8, y: bv32, z: bv32)
    requires y < 0x1000000 && z < 0x1000000
    requires Xor(a, Left8(y)) == Xor(b, Left8(z))
    ensures a == b && y == z
  {
  }

  lemma WordInjective(a: word8, b: word8, c: word8, d: word8, e: word8, f: word8, g: word8, h: word8)
    requires Word(a, b, c, d) == Word(e, f, g, h)
    ensures a == e && b == f && c == g && d == h
  {
    Fits2(c, d);
    Fits2(g, h);
    Fits(b, Xor(c, Left8(d)));
    Fits(f, Xor(g, Left8(h)));
    Peel(a, e, Xor(b, Left8(Xor(c, Left8(d)))), Xor(f, Left8(Xor(g, Left8(h)))));
    Peel(b, f, Xor(c, Left8(d)), Xor(g, Left8(h)));
    Peel(c, g, d, h);
  }

  lemma Regroup(c: bv32, r: bv32, s: bv32)
    ensures Xor(Xor(c >> 4, r) >> 4, s) == Xor(c >> 8, Xor(r >> 4, s))
  {
  }

  /** The second table index does not depend on the high bits of the register. */
  lemma SecondIndex(c: bv32, x: bv32, r: bv32)
    requires x < 256
    ensures Xor((Xor(c, x) >> 4) & 15, r) & 15 == Xor(Xor(c >> 4, r), x >> 4) & 15
  {
  }

  lemma Complement(c: bv32)
    ensures Not(Not(c)) == c
  {
  }

  /** Byte `k` of a word, the lowest first. */
  function ByteOf(v: bv32, k: nat): word8
    requires k < 4
  {
    if k == 0 then v & 0xff else if k == 1 then (v >> 8) & 0xff else if k == 2 then (v >> 16) & 0xff else v >> 24
  }

  lemma WordOfBytes(v: bv32)
    ensures Word(ByteOf(v, 0), ByteOf(v, 1), ByteOf(v, 2), ByteOf(v, 3)) == v
  {
  }

  lemma XorNot(c: bv32)
    ensures Xor(c, Not(c)) == 0xFFFFFFFF
  {
  }
}
