/** Facts about multiplying and dividing reals that the solver does not
    find on its own once a factor is not a constant. */
module Reals {

  lemma MulMonotone(a: real, b: real, c: real)
    requires a <= b && c > 0.0
    ensures a * c <= b * c
  {
  }

  lemma MulStrict(a: real, b: real, c: real)
    requires a < b && c > 0.0
    ensures a * c < b * c
  {
  }

  lemma MulCancel(a: real, b: real, c: real)
    requires c > 0.0 && a * c == b * c
    ensures a == b
  {
    assert (a - b) * c == 0.0;
  }

  lemma DivMonotone(a: real, b: real, c: real)
    requires a <= b && c > 0.0
    ensures a / c <= b / c
  {
    assert a / c * c == a && b / c * c == b;
  }

  lemma DivSelf(t: real)
    requires t > 0.0
    ensures t / t == 1.0
  {
    MulCancel(t / t, 1.0, t);
  }

  /** Equal numerators over the same positive divisor: the solver does not
      carry an equality into a quotient by a variable on its own. */
  lemma DivEqual(a: real, b: real, c: real)
    requires a == b && c > 0.0
    ensures a / c == b / c
  {
    DivMonotone(a, b, c);
    DivMonotone(b, a, c);
  }

  /** A quotient of a number strictly between `-t` and 0 by `t` lies
      strictly between -1 and 0. */
  lemma NegativeShare(m: real, t: real)
    requires -t < m < 0.0
    ensures -1.0 < m / t < 0.0
  {
    var l := m / t;
    assert l * t == m;
    if l <= -1.0 {
      MulMonotone(l, -1.0, t);
      assert false;
    }
    if l >= 0.0 {
      MulMonotone(0.0, l, t);
      assert false;
    }
  }

  /** Dividing `-s - w/2` by `t` divides each part. */
  lemma SplitShare(s: real, w: real, t: real)
    requires t > 0.0
    ensures (-s - w / 2.0) / t == -(s / t) - (w / t) / 2.0
  {
    var l, r := (-s - w / 2.0) / t, -(s / t) - (w / t) / 2.0;
    assert (s / t) * t == s && (w / t) * t == w;
    assert r * t == -((s / t) * t) - ((w / t) * t) / 2.0;
    MulCancel(l, r, t);
  }

  /** A positive quotient of positives. */
  lemma DivPositive(a: real, c: real)
    requires a > 0.0 && c > 0.0
    ensures a / c > 0.0
  {
    assert a / c * c == a;
    if a / c <= 0.0 {
      MulMonotone(a / c, 0.0, c);
    }
  }

  /** The whole number of times `t` fits into `y`, `(y / t).Floor`, is a
      natural number `n` with `n * t <= y < (n + 1) * t`. */
  lemma FloorWindow(y: real, t: real)
    requires y >= 0.0 && t > 0.0
    ensures 0 <= (y / t).Floor
    ensures ((y / t).Floor as real) * t <= y < ((y / t).Floor as real + 1.0) * t
  {
    var f := y / t;
    var n := f.Floor;
    assert f * t == y;
    assert n as real <= f < n as real + 1.0;
    if f < 0.0 {
      MulStrict(f, 0.0, t);
    }
    MulMonotone(n as real, f, t);
    MulStrict(f, n as real + 1.0, t);
    assert y < (n as real + 1.0) * t;
  }
}
