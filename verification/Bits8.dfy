/** Shifting a byte out of and into an eight-bit register, most significant bit first. */
module Bits8 {
  function Top(b: bv8): bool {
    b & 0x80 != 0
  }

  function Shl(b: bv8): bv8 {
    b << 1
  }

  function Push(acc: bv8, bit: bool): bv8 {
    (acc << 1) | (if bit then 1 else 0)
  }

  function Shifted(b: bv8, n: nat): bv8 {
    if n == 0 then b else Shl(Shifted(b, n - 1))
  }

  /** The bits of a byte, most significant first. */
  function Bits(b: bv8): (s: seq<bool>)
    ensures |s| == 8
  {
    [Top(Shifted(b, 0)), Top(Shifted(b, 1)), Top(Shifted(b, 2)), Top(Shifted(b, 3)),
     Top(Shifted(b, 4)), Top(Shifted(b, 5)), Top(Shifted(b, 6)), Top(Shifted(b, 7))]
  }

  function Pack(s: seq<bool>): bv8 {
    if s == [] then 0 else Push(Pack(s[..|s| - 1]), s[|s| - 1])
  }

  lemma BitAt(b: bv8, i: nat)
    requires i < 8
    ensures Bits(b)[i] == Top(Shifted(b, i))
  {
  }

  lemma Unrolled(s: seq<bool>)
    requires |s| == 8
    ensures Pack(s) == Push(Push(Push(Push(Push(Push(Push(Push(0, s[0]), s[1]), s[2]), s[3]), s[4]), s[5]), s[6]), s[7])
  {
    PackStep(s, 0);
    PackStep(s, 1);
    PackStep(s, 2);
    PackStep(s, 3);
    PackStep(s, 4);
    PackStep(s, 5);
    PackStep(s, 6);
    PackStep(s, 7);
    assert s[..8] == s;
  }

  lemma PackStep(s: seq<bool>, n: nat)
    requires n < |s|
    ensures Pack(s[..n + 1]) == Push(Pack(s[..n]), s[n])
  {
    assert s[..n + 1][..n] == s[..n];
  }

  function Shl2(b: bv8): bv8 { Shl(Shl(b)) }
  function Shl4(b: bv8): bv8 { Shl2(Shl2(b)) }

  lemma OutAndIn(b: bv8)
    ensures Push(Push(Push(Push(Push(Push(Push(Push(0, Top(b)), Top(Shl(b))), Top(Shl2(b))), Top(Shl(Shl2(b)))),
              Top(Shl4(b))), Top(Shl(Shl4(b)))), Top(Shl2(Shl4(b)))), Top(Shl(Shl2(Shl4(b))))) == b
  {
  }

  lemma InAndOut(s: seq<bool>, b: bv8)
    requires |s| == 8
    requires b == Push(Push(Push(Push(Push(Push(Push(Push(0, s[0]), s[1]), s[2]), s[3]), s[4]), s[5]), s[6]), s[7])
    ensures Top(b) == s[0] && Top(Shl(b)) == s[1] && Top(Shl2(b)) == s[2] && Top(Shl(Shl2(b))) == s[3]
    ensures Top(Shl4(b)) == s[4] && Top(Shl(Shl4(b))) == s[5] && Top(Shl2(Shl4(b))) == s[6]
    ensures Top(Shl(Shl2(Shl4(b)))) == s[7]
  {
  }

  lemma ShiftedUnrolled(b: bv8)
    ensures Bits(b) == [Top(b), Top(Shl(b)), Top(Shl2(b)), Top(Shl(Shl2(b))),
                        Top(Shl4(b)), Top(Shl(Shl4(b))), Top(Shl2(Shl4(b))), Top(Shl(Shl2(Shl4(b))))]
  {
    assert Shifted(b, 1) == Shl(b);
    assert Shifted(b, 2) == Shl2(b);
    assert Shifted(b, 3) == Shl(Shl2(b));
    assert Shifted(b, 4) == Shl4(b);
    assert Shifted(b, 5) == Shl(Shl4(b));
    assert Shifted(b, 6) == Shl2(Shl4(b));
    assert Shifted(b, 7) == Shl(Shl2(Shl4(b)));
  }

  /** Shifting a byte out and in again restores it. */
  lemma PackBits(b: bv8)
    ensures Pack(Bits(b)) == b
  {
    ShiftedUnrolled(b);
    Unrolled(Bits(b));
    OutAndIn(b);
  }

  /** Eight bits shifted in are the bits of the byte they make. */
  lemma BitsPack(s: seq<bool>)
    requires |s| == 8
    ensures Bits(Pack(s)) == s
  {
    Unrolled(s);
    ShiftedUnrolled(Pack(s));
    InAndOut(s, Pack(s));
  }
}
