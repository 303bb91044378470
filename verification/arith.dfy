/** Facts about Euclidean division and multiplication on naturals that the
block and address arithmetic of the driver relies on. */
module Arith {

  /** Euclidean division has one quotient and remainder. */
  lemma SplitUnique(n: nat, d: nat, q: nat, r: nat)
    requires d > 0 && r < d && q * d + r == n
    ensures n / d == q && n % d == r
  {
    var q', r' := n / d, n % d;
    assert q' * d + r' == n;
    if q < q' {
      MulMono(q + 1, q', d);
    } else if q' < q {
      MulMono(q' + 1, q, d);
    }
  }

  /** Multiplication by a natural number is monotonic. */
  lemma MulMono(a: nat, b: nat, d: nat)
    requires a <= b
    ensures a * d <= b * d
  {
    assert b * d - a * d == (b - a) * d;
  }

  /** Removing one step keeps the remainder. */
  lemma ShiftMod(a: nat, step: nat)
    requires step >= 1 && a >= step
    ensures (a - step) % step == a % step
  {
    var q := a / step;
    assert (q - 1) * step + a % step == a - step;
    SplitUnique(a - step, step, q - 1, a % step);
  }

  /** A positive multiple of `step` is at least `step`. */
  lemma ModStepAtLeast(a: nat, step: nat)
    requires step >= 1 && a > 0 && a % step == 0
    ensures a >= step
  {
    var q := a / step;
    assert q * step == a;
    MulMono(1, q, step);
  }

  /** Adding the divisor adds one to the quotient. */
  lemma DivShift(x: nat, d: nat)
    requires d >= 1
    ensures (x + d) / d == x / d + 1
  {
    SplitUnique(x + d, d, x / d + 1, x % d);
  }

  /** A multiple of `d` leaves no remainder. */
  lemma MultipleMod(k: nat, d: nat)
    requires d >= 1
    ensures (k * d) % d == 0
  {
    SplitUnique(k * d, d, k, 0);
  }

  /** The difference of two multiples of `d` is a multiple of `d`. */
  lemma MultipleDiff(a: nat, b: nat, d: nat)
    requires d >= 1 && a % d == 0 && b % d == 0 && b <= a
    ensures (a - b) % d == 0
  {
    assert a == (a / d) * d && b == (b / d) * d;
    assert a - b == (a / d - b / d) * d;
    MultipleMod(a / d - b / d, d);
  }
}
