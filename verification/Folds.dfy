/** Running a register over a sequence, one element at a time, whatever a step does. */
module Folds {
  function Fold<R, B>(step: (R, B) -> R, r: R, data: seq<B>): R {
    if data == [] then r else step(Fold(step, r, data[..|data| - 1]), data[|data| - 1])
  }

  lemma FoldNext<R, B>(step: (R, B) -> R, r: R, data: seq<B>, n: nat)
    requires n < |data|
    ensures Fold(step, r, data[..n + 1]) == step(Fold(step, r, data[..n]), data[n])
  {
    assert data[..n + 1][..n] == data[..n];
  }

  lemma {:induction false} FoldConcat<R, B>(step: (R, B) -> R, r: R, a: seq<B>, b: seq<B>)
    ensures Fold(step, r, a + b) == Fold(step, Fold(step, r, a), b)
  {
    if b == [] {
      assert a + b == a;
    } else {
      var n := |b| - 1;
      assert (a + b)[..|a + b| - 1] == a + b[..n] && (a + b)[|a + b| - 1] == b[n];
      FoldConcat(step, r, a, b[..n]);
    }
  }

  /** A step never makes different registers equal. */
  ghost predicate Injective<R(!new), B(!new)>(step: (R, B) -> R) {
    forall a, b, x :: step(a, x) == step(b, x) ==> a == b
  }

  function Four<R, B>(step: (R, B) -> R, r: R, p: B, q: B, s: B, t: B): R {
    step(step(step(step(r, p), q), s), t)
  }

  /** Nor do four steps with different data. */
  ghost predicate FourInjective<R(!new), B(!new)>(step: (R, B) -> R) {
    forall r, p, q, s, t, p', q', s', t' ::
      Four(step, r, p, q, s, t) == Four(step, r, p', q', s', t') ==> p == p' && q == q' && s == s' && t == t'
  }

  lemma {:induction false} SuffixInjective<R(!new), B(!new)>(step: (R, B) -> R, a: R, b: R, s: seq<B>)
    requires Injective(step) && Fold(step, a, s) == Fold(step, b, s)
    ensures a == b
  {
    if s == [] {
    } else {
      var n := |s| - 1;
      assert Fold(step, a, s[..n]) == Fold(step, b, s[..n]);
      SuffixInjective(step, a, b, s[..n]);
    }
  }

  lemma FoldFour<R, B>(step: (R, B) -> R, r: R, w: seq<B>)
    requires |w| == 4
    ensures Fold(step, r, w) == Four(step, r, w[0], w[1], w[2], w[3])
  {
    assert w[..0] == [] && w[..4] == w;
    FoldNext(step, r, w, 0);
    FoldNext(step, r, w, 1);
    FoldNext(step, r, w, 2);
    FoldNext(step, r, w, 3);
  }

  /** Registers that end equal were equal before the common suffix. */
  lemma BeforeSuffix<R(!new), B(!new)>(step: (R, B) -> R, r: R, a: seq<B>, b: seq<B>, s: seq<B>)
    requires Injective(step) && Fold(step, r, a + s) == Fold(step, r, b + s)
    ensures Fold(step, r, a) == Fold(step, r, b)
  {
    FoldConcat(step, r, a, s);
    FoldConcat(step, r, b, s);
    SuffixInjective(step, Fold(step, r, a), Fold(step, r, b), s);
  }

  lemma FourDiffer<R(!new), B(!new)>(step: (R, B) -> R, r: R, w: seq<B>, v: seq<B>)
    requires FourInjective(step) && |w| == 4 && |v| == 4 && Fold(step, r, w) == Fold(step, r, v)
    ensures w == v
  {
    FoldFour(step, r, w);
    FoldFour(step, r, v);
    assert w == [w[0], w[1], w[2], w[3]] && v == [v[0], v[1], v[2], v[3]];
  }

  lemma WindowInjective<R(!new), B(!new)>(step: (R, B) -> R, r: R, p: seq<B>, w: seq<B>, v: seq<B>, s: seq<B>)
    requires Injective(step) && FourInjective(step) && |w| == 4 && |v| == 4
    requires Fold(step, r, p + w + s) == Fold(step, r, p + v + s)
    ensures w == v
  {
    BeforeSuffix(step, r, p + w, p + v, s);
    FoldConcat(step, r, p, w);
    FoldConcat(step, r, p, v);
    FourDiffer(step, Fold(step, r, p), w, v);
  }

  /** A change of `a` to `b` within the four elements from `i`. */
  predicate WithinFour<B(==)>(a: seq<B>, b: seq<B>, i: nat) {
    |a| == |b| && i <= |a| && forall k :: 0 <= k < |a| && !(i <= k < i + 4) ==> a[k] == b[k]
  }

  /** Both sequences, padded, around the four elements from `i`. */
  lemma AroundWindow<B>(a: seq<B>, b: seq<B>, i: nat, z: seq<B>)
    requires WithinFour(a, b, i) && |z| == 4
    ensures var s := (a + z)[i + 4..];
      a + z == a[..i] + (a + z)[i..i + 4] + s && b + z == a[..i] + (b + z)[i..i + 4] + s
  {
    assert a[..i] == b[..i];
    assert (a + z)[i + 4..] == (b + z)[i + 4..];
  }

  /** Registers that started equal end equal only if nothing changed. */
  lemma WindowDetected<R(!new), B(!new)>(step: (R, B) -> R, r: R, a: seq<B>, b: seq<B>, i: nat, pad: B)
    requires Injective(step) && FourInjective(step) && WithinFour(a, b, i)
    requires Fold(step, r, a) == Fold(step, r, b)
    ensures a == b
  {
    var z := [pad, pad, pad, pad];
    FoldConcat(step, r, a, z);
    FoldConcat(step, r, b, z);
    AroundWindow(a, b, i, z);
    WindowInjective(step, r, a[..i], (a + z)[i..i + 4], (b + z)[i..i + 4], (a + z)[i + 4..]);
    assert a == (a + z)[..|a|] && b == (b + z)[..|a|];
  }
}
