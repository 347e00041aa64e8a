/** Euclidean remainder facts used by the periodic schedules. */
module Arith {

  lemma {:induction false} MulAtLeast(a: int, f: int)
    requires a >= 1 && f >= 1
    ensures a * f >= f
    decreases a
  {
    if a > 1 {
      MulAtLeast(a - 1, f);
      assert a * f == (a - 1) * f + f;
    }
  }

  /** The remainder is determined by any quotient/remainder decomposition. */
  lemma ModUnique(x: int, f: int, q: int, r: int)
    requires f >= 1 && 0 <= r < f && x == q * f + r
    ensures x % f == r
  {
    var q', r' := x / f, x % f;
    assert x == q' * f + r';
    assert (q - q') * f == r' - r;
    if q - q' >= 1 {
      MulAtLeast(q - q', f);
    } else if q' - q >= 1 {
      MulAtLeast(q' - q, f);
    }
  }

  lemma ModAddMultiple(a: int, q: int, f: int)
    requires f >= 1
    ensures (a + q * f) % f == a % f
  {
    ModUnique(a + q * f, f, a / f + q, a % f);
  }

  /** Reducing the left operand first does not change a sum's remainder. */
  lemma ModOfSum(n: int, u: int, f: int)
    requires f >= 1
    ensures (n % f + u) % f == (n + u) % f
  {
    assert n == (n / f) * f + n % f;
    ModAddMultiple(n % f + u, n / f, f);
  }

  lemma {:induction false} MulMonotone(a: int, b: int, c: int)
    requires 0 <= a <= b && c >= 0
    ensures a * c <= b * c
    decreases b - a
  {
    if a < b {
      MulMonotone(a + 1, b, c);
      assert (a + 1) * c == a * c + c;
    }
  }

  /** Row-major position (i, j) of an h × w grid lies inside it. */
  lemma GridIndex(i: nat, j: nat, h: nat, w: nat)
    requires i < h && j < w
    ensures i * w + j < h * w
  {
    MulMonotone(i + 1, h, w);
    assert (i + 1) * w == i * w + w;
  }

  /** A lower bound on a dividend bounds its quotient from below. */
  lemma DivAtLeast(x: int, d: int, b: int)
    requires d >= 1 && b >= 0 && b * d <= x
    ensures x / d >= b
  {
    if x / d < b {
      MulMonotone(x / d + 1, b, d);
    }
  }

  /** An upper bound on a dividend bounds its quotient from above. */
  lemma DivBelow(x: int, d: int, b: int)
    requires d >= 1 && 0 <= x < b * d
    ensures x / d < b
  {
    if x / d >= b {
      MulMonotone(b, x / d, d);
    }
  }
}
