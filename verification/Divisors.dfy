/** The little number theory that the period of a register needs: primes by trial division, and divisors that have no
    factor in common. */
module Divisors {
  import opened Bits

  ghost predicate Prime(p: nat) {
    p > 1 && forall d: nat :: 1 < d < p ==> p % d != 0
  }

  /** None of the numbers d, d + 2, ..., d + 2(n - 1) divides p. */
  function Trial(p: nat, d: nat, n: nat): bool
    requires d > 0
    decreases n
  {
    n == 0 || (p % d != 0 && Trial(p, d + 2, n - 1))
  }

  lemma {:induction false} TrialAppend(p: nat, d: nat, m: nat, n: nat)
    requires d > 0
    ensures Trial(p, d, m + n) == (Trial(p, d, m) && Trial(p, d + 2 * m, n))
    decreases m
  {
    if m > 0 { TrialAppend(p, d + 2, m - 1, n); }
  }

  lemma {:induction false} TrialExcludes(p: nat, d: nat, n: nat, i: nat)
    requires d > 0 && Trial(p, d, n) && i < n
    ensures p % (d + 2 * i) != 0
    decreases n
  {
    if i > 0 { TrialExcludes(p, d + 2, n - 1, i - 1); }
  }

  lemma {:induction false} ProductAtLeast(a: nat, b: nat, c: nat)
    requires a >= c && b >= c
    ensures a * b >= c * c
  {
    var x, y := a - c, b - c;
    assert x * y >= 0 && c * x >= 0 && c * y >= 0;
    assert a * b == c * c + c * x + c * y + x * y;
  }

  lemma Divides(p: nat, d: nat) returns (e: nat)
    requires d > 0 && p % d == 0
    ensures p == d * e
  {
    e := p / d;
  }

  lemma {:induction false} MultipleMod(d: nat, e: int)
    requires d > 0
    ensures (d * e) % d == 0
  {
    var q := (d * e) / d;
    assert d * (e - q) == (d * e) % d;
    AtLeastOnce(e - q, d);
  }

  lemma EvenMultiple(p: nat, d: nat)
    requires d > 0 && d % 2 == 0 && p % d == 0
    ensures p % 2 == 0
  {
    var e := Divides(p, d);
    assert p == 2 * (d / 2 * e);
  }

  lemma {:induction false} NotBelow(p: nat, n: nat, d: nat)
    requires p % 2 == 1 && Trial(p, 3, n) && 1 < d < 2 * n + 3
    ensures p % d != 0
  {
    if d % 2 == 0 {
      if p % d == 0 { EvenMultiple(p, d); }
    } else {
      TrialExcludes(p, 3, n, d / 2 - 1);
    }
  }

  /** Odd trial divisors up to the square root suffice. */
  lemma {:induction false} PrimeByTrial(p: nat, n: nat)
    requires p % 2 == 1 && p > 1 && Trial(p, 3, n) && p < (2 * n + 3) * (2 * n + 3)
    ensures Prime(p)
  {
    hide Trial;
    forall d: nat | 1 < d < p ensures p % d != 0 {
      if d < 2 * n + 3 {
        NotBelow(p, n, d);
      } else if p % d == 0 {
        var e := Divides(p, d);
        CoDivisor(p, d, e);
        if e < 2 * n + 3 { NotBelow(p, n, e); } else { ProductAtLeast(d, e, 2 * n + 3); }
      }
    }
  }

  lemma CoDivisor(p: nat, d: nat, e: nat)
    requires 1 < d < p == d * e
    ensures e > 1 && p % e == 0
  {
    assert e == 1 ==> d * e == d;
    MultipleMod(e, d);
  }

  /** Divisors with a combination that is 1 divide together. */
  lemma {:induction false} DivideTogether(m: nat, a: nat, b: nat, s: int, t: int)
    requires a > 0 && b > 0 && m % a == 0 && m % b == 0 && s * a - t * b == 1
    ensures m % (a * b) == 0
  {
    var x := Divides(m, a);
    var y := Divides(m, b);
    assert m == m * (s * a - t * b) == (s * a) * m - (t * b) * m;
    assert (s * a) * m == (s * a) * (b * y) == (a * b) * (s * y);
    assert (t * b) * m == (t * b) * (a * x) == (a * b) * (t * x);
    assert m == (a * b) * (s * y - t * x);
    MultipleMod(a * b, s * y - t * x);
  }
}
