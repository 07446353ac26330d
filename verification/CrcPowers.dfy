/** Products of registers of CRC-32, read as polynomials over GF(2) modulo the generator: a step multiplies by x, and so
    m steps multiply by x to the m-th. */
module CrcPowers {
  import opened Bits
  import opened Crc32
  import opened CrcBursts

  /** The register that stands for the polynomial 1. */
  const ONE: nat := 0x8000_0000

  /** x to the m-th. */
  function X(m: nat): nat { Steps(ONE, m) }

  // ----- products -----

  /** A product of two registers by the scheme of Horner: the bits of `u` are its coefficients, highest power first. */
  function Horner(u: nat, n: nat, w: nat, acc: nat): nat
    decreases n
  {
    if n == 0 then acc else Horner(u / 2, n - 1, w, Xor(Step(acc), if u % 2 == 1 then w else 0))
  }

  function Times(u: nat, w: nat): nat { Horner(u, 32, w, 0) }

  lemma {:induction false} StepCommutes(x: nat, m: nat)
    ensures Steps(Step(x), m) == Step(Steps(x, m))
  {
    StepsAdd(x, 1, m);
    StepsAdd(x, m, 1);
    OneStep(x);
    OneStep(Steps(x, m));
  }

  /** Stepping a product steps its second factor. */
  lemma {:induction false} HornerSteps(u: nat, n: nat, w: nat, acc: nat, m: nat)
    ensures Steps(Horner(u, n, w, acc), m) == Horner(u, n, Steps(w, m), Steps(acc, m))
    decreases n
  {
    if n > 0 {
      var s := if u % 2 == 1 then w else 0;
      HornerSteps(u / 2, n - 1, w, Xor(Step(acc), s), m);
      StepsLinear(Step(acc), s, m);
      StepCommutes(acc, m);
      StepsNonzero(0, m);
      hide Steps, Step, Xor;
      assert Steps(s, m) == if u % 2 == 1 then Steps(w, m) else 0;
    }
  }

  lemma {:induction false} ShlAdds(x: nat, y: nat, n: nat)
    ensures Shl(x + y, n) == Shl(x, n) + Shl(y, n)
    decreases n
  {
    if n > 0 { ShlAdds(x, y, n - 1); }
  }

  /** One turn on the product by 1: the bits taken so far move down, and the next one comes in at the top. */
  lemma {:induction false} BitComesIn(a: nat, b: nat, n: nat, k: nat)
    requires b < 2 && n + k == 31 && a < Pow2(k)
    ensures Xor(Step(Shl(a, n + 1)), if b == 1 then ONE else 0) == Shl(a + Shl(b, k), n)
    ensures a + Shl(b, k) < Pow2(k + 1)
  {
    PowersOfWord();
    PowAdd(k, n);
    ShlIsMul(a, n);
    ShlIsMul(b, k);
    ShlIsMul(b, 31);
    ShlNext(a, n);
    Doubles(k);
    hide Shl, Step, Xor, Pow2;
    Below(a, Pow2(k), Pow2(n));
    EvenStep(Shl(a, n));
    XorDisjoint(b, Shl(a, n), 31);
    XorComm(Shl(a, n), Shl(b, 31));
    ShlAdd(b, k, n);
    ShlAdds(a, Shl(b, k), n);
  }

  lemma SplitBits(u: nat, m: nat) returns (h: nat, b: nat)
    requires u < Pow2(m + 1)
    ensures u == 2 * h + b && b < 2 && h < Pow2(m)
  {
    Doubles(m);
    hide Pow2;
    h, b := u / 2, u % 2;
  }

  lemma HornerTurn(h: nat, b: nat, n: nat, w: nat, acc: nat)
    requires b < 2
    ensures Horner(2 * h + b, n + 1, w, acc) == Horner(h, n, w, Xor(Step(acc), if b == 1 then w else 0))
  {
    hide Xor, Step;
  }

  lemma HornerEnds(u: nat, w: nat, acc: nat)
    ensures Horner(u, 0, w, acc) == acc
  {}

  lemma NoBits(u: nat, a: nat, k: nat)
    ensures Shl(a, 0) == a && (u < Pow2(0) ==> a + Shl(u, k) == a)
  {
    ShlIsMul(0, k);
  }

  lemma ShlOfBits(h: nat, b: nat, k: nat)
    ensures Shl(2 * h + b, k) == Shl(b, k) + Shl(h, k + 1)
  {
    ShlAdds(2 * h, b, k);
    ShlDouble(h, k);
    ShlNext(h, k);
  }

  /** Multiplying by 1 gives back the bits. */
  lemma {:induction false} HornerOne(u: nat, n: nat, k: nat, a: nat)
    requires n + k == 32 && u < Pow2(n) && a < Pow2(k)
    ensures Horner(u, n, ONE, Shl(a, n)) == a + Shl(u, k)
    decreases n
  {
    hide *;
    if n == 0 {
      NoBits(u, a, k);
      HornerEnds(u, ONE, a);
    } else {
      var h, b := SplitBits(u, n - 1);
      HornerTurn(h, b, n - 1, ONE, Shl(a, n));
      BitComesIn(a, b, n - 1, k);
      HornerOne(h, n - 1, k + 1, a + Shl(b, k));
      ShlOfBits(h, b, k);
    }
  }

  lemma ShlNext(x: nat, n: nat)
    ensures Shl(x, n + 1) == 2 * Shl(x, n)
  {}

  lemma {:induction false} ShlDouble(x: nat, n: nat)
    ensures Shl(2 * x, n) == 2 * Shl(x, n)
    decreases n
  {
    if n > 0 { ShlDouble(x, n - 1); }
  }

  lemma Below(a: nat, p: nat, q: nat)
    requires a < p && q > 0
    ensures a * q < p * q
  {
    var d := p - a - 1;
    Positive(d, q);
    assert p * q == a * q + q + d * q;
  }

  lemma Positive(x: nat, y: nat)
    ensures x * y >= 0
  {
  }

  lemma EvenStep(x: nat)
    ensures Step(2 * x) == x
  {
    XorZero(x);
  }

  lemma {:induction false} TimesOne(u: U32)
    ensures Times(u, ONE) == u
  {
    PowersOfWord();
    assert Shl(0, 32) == 0 by { ShlIsMul(0, 32); }
    assert Pow2(0) == 1 && Shl(u, 0) == u;
    HornerOne(u, 32, 0, 0);
  }

  /** m steps multiply by x to the m-th. */
  lemma {:induction false} StepsMultiply(w: U32, m: nat)
    ensures Steps(w, m) == Times(w, X(m))
  {
    TimesOne(w);
    HornerSteps(w, 32, ONE, 0, m);
    StepsNonzero(0, m);
  }

  lemma {:induction false} PowersAdd(m: nat, n: nat)
    ensures X(m + n) == Times(X(m), X(n)) && X(m) < WORD
  {
    StepsNonzero(ONE, m);
    StepsMultiply(X(m), n);
    StepsAdd(ONE, m, n);
  }
}
