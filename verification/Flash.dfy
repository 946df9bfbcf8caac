/** NOR flash of the remote node, and what interrupted erase and program
    operations may leave behind. */
module Flash {
  type byte = bv8

  const ERASED: byte := 0xFF
  const PAGE_SIZE := 2048

  /** Programming `d` over a byte `o` clears every bit that is clear in `d`. */
  function And(o: byte, d: byte): byte {
    o & d
  }

  /** An erase in progress only raises bits. */
  predicate Raised(o: byte, n: byte) {
    o & n == o
  }

  /** Programming `d` over `o` only clears bits, and only bits that are clear in `d`. */
  predicate Lowered(o: byte, n: byte, d: byte) {
    n & o == n && And(o, d) & n == And(o, d)
  }

  /** `n` is reachable from `o` by erasing, perhaps incompletely, some of [lo, hi). */
  predicate Erasing(o: seq<byte>, n: seq<byte>, lo: int, hi: int) {
    |n| == |o| && forall i :: 0 <= i < |o| ==> if lo <= i < hi then Raised(o[i], n[i]) else n[i] == o[i]
  }

  /** Every byte of [lo, hi) is erased. */
  predicate Blank(f: seq<byte>, lo: int, hi: int) {
    forall i :: 0 <= i < |f| && lo <= i < hi ==> f[i] == ERASED
  }

  /** The byte at address `j` is to take part of the data `d` placed at `at`, of
      which only the offsets [a, z) are being written. */
  predicate InWindow(j: int, at: int, d: seq<byte>, a: nat, z: int) {
    at + a <= j < at + z && j - at < |d|
  }

  /** `n` is reachable from `o` by programming, perhaps incompletely and
      repeatedly, the window [a, z) of the data `d` placed at `at`. */
  predicate Programming(o: seq<byte>, n: seq<byte>, at: int, d: seq<byte>, a: nat, z: int) {
    |n| == |o| && forall j :: 0 <= j < |o| ==>
      if InWindow(j, at, d, a, z) then Lowered(o[j], n[j], d[j - at]) else n[j] == o[j]
  }

  /** The window fits both the data and a flash of `size` bytes. */
  predicate Fits(size: nat, at: int, d: seq<byte>, a: nat, z: int) {
    a < z ==> z <= |d| && 0 <= at + a && at + z <= size
  }

  /** The window has been completely programmed over `o`. */
  predicate Programmed(o: seq<byte>, n: seq<byte>, at: int, d: seq<byte>, a: nat, z: int) {
    |n| == |o| && Fits(|o|, at, d, a, z) && forall j :: 0 <= j < |o| ==>
      n[j] == if InWindow(j, at, d, a, z) then And(o[j], d[j - at]) else o[j]
  }

  function Program(o: seq<byte>, at: int, d: seq<byte>): seq<byte> {
    seq(|o|, j requires 0 <= j < |o| => if InWindow(j, at, d, 0, |d|) then And(o[j], d[j - at]) else o[j])
  }

  /** The flash holds the window of the data. */
  predicate Holds(f: seq<byte>, at: int, d: seq<byte>, a: nat, z: int) {
    Fits(|f|, at, d, a, z) && forall j :: 0 <= j < |f| && InWindow(j, at, d, a, z) ==> f[j] == d[j - at]
  }

  lemma RaisedTransitive(o: byte, n: byte, m: byte)
    requires Raised(o, n) && Raised(n, m)
    ensures Raised(o, m)
  {
    assert o & m == (o & n) & m == o & (n & m);
  }

  lemma LoweredDone(o: byte, n: byte, d: byte)
    requires Lowered(o, n, d)
    ensures And(n, d) == And(o, d)
    ensures Lowered(n, And(n, d), d)
  {
  }

  lemma LoweredTransitive(o: byte, n: byte, m: byte, d: byte)
    requires Lowered(o, n, d) && Lowered(n, m, d)
    ensures Lowered(o, m, d)
  {
    LoweredDone(o, n, d);
    assert m & o == (m & n) & o == m & (n & o) == m & n == m;
  }

  lemma EraseReflexive(o: seq<byte>, lo: int, hi: int)
    ensures Erasing(o, o, lo, hi)
  {
  }

  /** Interrupted erases of sub-ranges compose. */
  lemma EraseCompose(o: seq<byte>, n: seq<byte>, m: seq<byte>, lo: int, hi: int, a: int, z: int)
    requires Erasing(o, n, lo, hi) && Erasing(n, m, a, z) && lo <= a && z <= hi
    ensures Erasing(o, m, lo, hi)
  {
    forall i | 0 <= i < |o| && lo <= i < hi ensures Raised(o[i], m[i]) {
      RaisedTransitive(o[i], n[i], m[i]);
    }
  }

  /** What is erased stays erased under further erasing. */
  lemma BlankStays(o: seq<byte>, n: seq<byte>, lo: int, hi: int)
    requires Erasing(o, n, lo, hi) && Blank(o, lo, hi)
    ensures Blank(n, lo, hi)
  {
  }

  lemma ProgramReflexive(o: seq<byte>, at: int, d: seq<byte>, a: nat, z: int)
    ensures Programming(o, o, at, d, a, z)
  {
  }

  /** A failed attempt followed by another attempt, even one that stopped at a
      different point, is still an attempt to program the same data. */
  lemma ProgramCompose(o: seq<byte>, n: seq<byte>, m: seq<byte>, at: int, d: seq<byte>, a: nat, z: int)
    requires Programming(o, n, at, d, a, z) && Programming(n, m, at, d, a, z)
    ensures Programming(o, m, at, d, a, z)
  {
    forall j | 0 <= j < |o| && InWindow(j, at, d, a, z) ensures Lowered(o[j], m[j], d[j - at]) {
      LoweredTransitive(o[j], n[j], m[j], d[j - at]);
    }
  }

  /** Any number of failed attempts followed by one success equals one success. */
  lemma RetryIsIdempotent(o: seq<byte>, n: seq<byte>, m: seq<byte>, at: int, d: seq<byte>, a: nat, z: int)
    requires Programming(o, n, at, d, a, z) && Programmed(n, m, at, d, a, z)
    ensures Programmed(o, m, at, d, a, z)
    ensures Programming(n, m, at, d, a, z)
  {
    forall j | 0 <= j < |o| && InWindow(j, at, d, a, z)
      ensures m[j] == And(o[j], d[j - at]) && Lowered(n[j], m[j], d[j - at])
    {
      LoweredDone(o[j], n[j], d[j - at]);
    }
  }

  /** Programming a part of the window, given as data of its own, is programming the window. */
  lemma ProgramWiden(o: seq<byte>, n: seq<byte>, part: seq<byte>, at: int, d: seq<byte>, c: nat, a: nat, z: int)
    requires Programming(o, n, at + c, part, 0, |part|)
    requires a <= c && c + |part| <= z && c + |part| <= |d| && part == d[c..c + |part|]
    ensures Programming(o, n, at, d, a, z)
  {
    forall j | 0 <= j < |o|
      ensures if InWindow(j, at, d, a, z) then Lowered(o[j], n[j], d[j - at]) else n[j] == o[j]
    {
      if InWindow(j, at + c, part, 0, |part|) {
        assert part[j - (at + c)] == d[j - at];
      }
    }
  }

  /** Programming adjacent pieces one after the other programs the longer window. */
  lemma ProgramAppend(o: seq<byte>, n: seq<byte>, m: seq<byte>, part: seq<byte>, at: int, d: seq<byte>, a: nat, c: int)
    requires Programmed(o, n, at, d, a, c) && Programmed(n, m, at + c, part, 0, |part|)
    requires a <= c && c + |part| <= |d| && part == d[c..c + |part|]
    ensures Programmed(o, m, at, d, a, c + |part|)
  {
    forall j | 0 <= j < |o|
      ensures m[j] == if InWindow(j, at, d, a, c + |part|) then And(o[j], d[j - at]) else o[j]
    {
      if InWindow(j, at + c, part, 0, |part|) {
        assert part[j - (at + c)] == d[j - at] && n[j] == o[j];
      } else {
        assert m[j] == n[j];
      }
    }
  }

  /** Two adjacent matches make one. */
  lemma HoldsAppend(f: seq<byte>, part: seq<byte>, at: int, d: seq<byte>, a: nat, c: int, k: nat)
    requires Holds(f, at, d, a, c) && Holds(f, at + c, part, 0, k)
    requires a <= c && k <= |part| && c + k <= |d| && part[..k] == d[c..c + k]
    ensures Holds(f, at, d, a, c + k)
  {
    forall j | 0 <= j < |f| && InWindow(j, at, d, a, c + k) ensures f[j] == d[j - at] {
      if j >= at + c {
        assert InWindow(j, at + c, part, 0, k);
        assert part[..k][j - (at + c)] == d[j - at];
      }
    }
  }

  lemma SliceHolds(f: seq<byte>, at: int, d: seq<byte>)
    requires 0 <= at && at + |d| <= |f| && d == f[at..at + |d|]
    ensures Holds(f, at, d, 0, |d|)
  {
  }

  /** Programming erased flash leaves exactly the data. */
  lemma ProgramErased(o: seq<byte>, n: seq<byte>, at: int, d: seq<byte>, a: nat, z: int)
    requires Programmed(o, n, at, d, a, z) && Blank(o, at + a, at + z)
    ensures Holds(n, at, d, a, z)
  {
    forall j | 0 <= j < |n| && InWindow(j, at, d, a, z) ensures n[j] == d[j - at] {}
  }
}
