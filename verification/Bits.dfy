/** Natural numbers as bit strings of any width. The C code works on registers of 24 and 32 bits and on halves of 64-bit
    integers; exclusive or, inclusive or, shifts and masks are defined here by recursion on the bits, lowest first, so
    that their laws are inductions on the numbers themselves. */
module Bits {

  function Pow2(n: nat): (p: nat)
    ensures p > 0
  {
    if n == 0 then 1 else 2 * Pow2(n - 1)
  }

  /** Exclusive or: addition of polynomials over GF(2). */
  function Xor(a: nat, b: nat): nat {
    if a == 0 then b else 2 * Xor(a / 2, b / 2) + (if a % 2 == b % 2 then 0 else 1)
  }

  /** Inclusive or. */
  function Or(a: nat, b: nat): nat {
    if a == 0 then b else 2 * Or(a / 2, b / 2) + (if a % 2 == 1 || b % 2 == 1 then 1 else 0)
  }

  lemma {:induction false} XorZero(a: nat)
    ensures Xor(a, 0) == a
  {
    if a != 0 { XorZero(a / 2); }
  }

  lemma {:induction false} XorSelf(a: nat)
    ensures Xor(a, a) == 0
  {
    if a != 0 { XorSelf(a / 2); }
  }

  lemma {:induction false} XorComm(a: nat, b: nat)
    ensures Xor(a, b) == Xor(b, a)
  {
    if a == 0 || b == 0 {
      XorZero(a);
      XorZero(b);
    } else {
      XorComm(a / 2, b / 2);
    }
  }

  lemma {:induction false} XorAssoc(a: nat, b: nat, c: nat)
    ensures Xor(Xor(a, b), c) == Xor(a, Xor(b, c))
  {
    if a != 0 {
      XorBits(a, b);
      XorBits(b, c);
      XorBits(Xor(a, b), c);
      XorBits(a, Xor(b, c));
      hide Xor;
      XorAssoc(a / 2, b / 2, c / 2);
    }
  }

  lemma XorBits(a: nat, b: nat)
    ensures Xor(a, b) / 2 == Xor(a / 2, b / 2)
    ensures Xor(a, b) % 2 == if a % 2 == b % 2 then 0 else 1
  {}

  /** Exclusive or, a digit at a time. */
  lemma XorDigits(p: nat, x: nat, q: nat, y: nat)
    requires p < 2 && q < 2
    ensures Xor(p + 2 * x, q + 2 * y) == (if p == q then 0 else 1) + 2 * Xor(x, y)
  {
    XorBits(p + 2 * x, q + 2 * y);
    hide Xor;
    assert (p + 2 * x) / 2 == x && (p + 2 * x) % 2 == p;
    assert (q + 2 * y) / 2 == y && (q + 2 * y) % 2 == q;
  }

  /** Equal terms cancel, and the four-term exchange. */
  lemma {:induction false} XorCancel(a: nat, b: nat)
    ensures Xor(a, Xor(a, b)) == b
    ensures Xor(Xor(b, a), a) == b
    ensures Xor(a, b) == 0 <==> a == b
  {
    XorAssoc(a, a, b);
    XorSelf(a);
    XorAssoc(b, a, a);
    XorZero(b);
    XorZero(a);
  }

  lemma {:induction false} XorSwap(a: nat, b: nat, c: nat, d: nat)
    ensures Xor(Xor(a, b), Xor(c, d)) == Xor(Xor(a, c), Xor(b, d))
  {
    XorAssoc(a, b, Xor(c, d));
    XorAssoc(b, c, d);
    XorComm(b, c);
    XorAssoc(c, b, d);
    XorAssoc(a, c, Xor(b, d));
  }

  lemma {:induction false} XorBelow(a: nat, b: nat, n: nat)
    requires a < Pow2(n) && b < Pow2(n)
    ensures Xor(a, b) < Pow2(n)
  {
    if n > 0 && a != 0 { XorBelow(a / 2, b / 2, n - 1); }
  }

  // ----- shifts and fields -----

  /** `a >> n`. */
  function Shr(a: nat, n: nat): nat {
    if n == 0 then a else Shr(a / 2, n - 1)
  }

  /** `a << n`, without any limit on the width. */
  function Shl(a: nat, n: nat): nat {
    if n == 0 then a else 2 * Shl(a, n - 1)
  }

  /** The `n` lowest bits: `a & (2^n - 1)`. */
  function Low(a: nat, n: nat): nat {
    if n == 0 then 0 else 2 * Low(a / 2, n - 1) + a % 2
  }

  lemma {:induction false} ShlIsMul(a: nat, n: nat)
    ensures Shl(a, n) == a * Pow2(n)
  {
    if n > 0 { ShlIsMul(a, n - 1); }
  }

  /** Shifting right divides, and the field below is the remainder. */
  lemma {:induction false} ShrIsDiv(a: nat, n: nat)
    ensures a == Shl(Shr(a, n), n) + Low(a, n) && Low(a, n) < Pow2(n)
    ensures Shr(a, n) == a / Pow2(n) && Low(a, n) == a % Pow2(n)
  {
    if n > 0 { ShrIsDiv(a / 2, n - 1); }
    ShlIsMul(Shr(a, n), n);
    DivModUnique(a, Pow2(n), Shr(a, n), Low(a, n));
  }

  lemma {:induction false} DivModUnique(a: int, d: nat, q: int, r: nat)
    requires d > 0 && r < d && a == q * d + r
    ensures a / d == q && a % d == r
  {
    var e: int := a / d - q;
    assert e * d == r - a % d;
    AtLeastOnce(e, d);
  }

  lemma AtLeastOnce(e: int, d: int)
    requires d > 0
    ensures e >= 1 ==> e * d >= d
    ensures e <= -1 ==> e * d <= -d
  {}

  /** Exclusive or acts on the part above bit `n` on its own. */
  lemma {:induction false} XorShr(a: nat, b: nat, n: nat)
    ensures Shr(Xor(a, b), n) == Xor(Shr(a, n), Shr(b, n))
  {
    if n > 0 {
      XorBits(a, b);
      XorShr(a / 2, b / 2, n - 1);
    }
  }

  /** Numbers without a common bit position add up. */
  lemma {:induction false} XorDisjoint(q: nat, b: nat, n: nat)
    requires b < Pow2(n)
    ensures Xor(Shl(q, n), b) == Shl(q, n) + b
  {
    if n > 0 {
      XorDisjoint(q, b / 2, n - 1);
    } else {
      XorZero(q);
    }
  }

  lemma {:induction false} OrDisjoint(q: nat, b: nat, n: nat)
    requires b < Pow2(n)
    ensures Or(Shl(q, n), b) == Shl(q, n) + b == Or(b, Shl(q, n))
  {
    if n > 0 {
      var h := Shl(q, n - 1);
      OrDisjoint(q, b / 2, n - 1);
      assert (2 * h) / 2 == h && (2 * h) % 2 == 0;
    } else {
      OrZero(q);
    }
  }

  lemma {:induction false} OrZero(a: nat)
    ensures Or(a, 0) == a
  {
    if a != 0 { OrZero(a / 2); }
  }

  // ----- compositions of shifts -----

  lemma {:induction false} ShrAdd(a: nat, m: nat, n: nat)
    ensures Shr(a, m + n) == Shr(Shr(a, m), n)
    decreases m
  {
    if m > 0 { ShrAdd(a / 2, m - 1, n); }
  }

  lemma {:induction false} ShlAdd(a: nat, m: nat, n: nat)
    ensures Shl(a, m + n) == Shl(Shl(a, m), n)
    decreases n
  {
    if n > 0 { ShlAdd(a, m, n - 1); }
  }

  /** Right after left: the smaller shift cancels. */
  lemma {:induction false} ShrShl(a: nat, s: nat, n: nat)
    requires s <= n
    ensures Shr(Shl(a, s), n) == Shr(a, n - s)
    ensures Low(Shl(a, s), n) == Shl(Low(a, n - s), s)
    decreases s
  {
    if s > 0 { ShrShl(a, s - 1, n - 1); }
  }

  /** A right shift within the low field leaves the high part shifted left by less. */
  lemma {:induction false} ShrSum(a: nat, b: nat, n: nat, s: nat)
    requires s <= n
    ensures Shr(Shl(a, n) + b, s) == Shl(a, n - s) + Shr(b, s)
    decreases s
  {
    if s > 0 { ShrSum(a, b / 2, n - 1, s - 1); }
  }

  lemma {:induction false} ShrBelow(a: nat, s: nat, n: nat)
    requires s <= n && a < Pow2(n)
    ensures Shr(a, s) < Pow2(n - s)
    decreases s
  {
    if s > 0 { ShrBelow(a / 2, s - 1, n - 1); }
  }

  lemma {:induction false} PowAdd(m: nat, n: nat)
    ensures Pow2(m + n) == Pow2(m) * Pow2(n)
    decreases m
  {
    if m > 0 { PowAdd(m - 1, n); }
  }
}
