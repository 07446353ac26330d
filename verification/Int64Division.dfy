/** The division of int64_emul.h by shifting and subtracting. */
module Int64Division {
  import opened Bits
  import opened Int64Emul
  import opened Options

  /** The macro that doubles a value in place; the top bit is lost. */
  method Shl1(x: Int64) returns (res: Int64)
    ensures U(res) == 2 * U(x) % M
  {
    hide Or, Shl, Shr, Pow2;
    ShlOne(x.h);
    ShlOne(x.l);
    Powers();
    JoinedHalf(x.h, 1, x.l);
    LslSmall(x, 1);
    res := Int64(Or(Wrap(2 * x.h as int), Shr(x.l, 31)), Wrap(2 * x.l as int));
  }

  lemma {:induction false} ShlOne(w: nat)
    ensures Shl(w, 1) == 2 * w
  {
    assert Shl(w, 0) == w;
  }

  lemma {:induction false} ShrTop(w: U32)
    ensures Shr(w, 31) == if w < 0x8000_0000 then 0 else 1
  {
    hide Shr, Shl, Low, Pow2;
    Powers();
    ShrIsDiv(w, 31);
  }

  /** The macro that halves a value in place. */
  method Shr1(x: Int64) returns (res: Int64)
    ensures U(res) == U(x) / 2
  {
    res := Lsr(x, 1);
  }

  /** `mask | quotient` adds the two when the quotient is a multiple of twice the mask, a power of two. */
  lemma {:induction false} OrAdds(c: nat, k: nat)
    ensures Or(Scaled(c, k + 1), Pow2(k)) == Scaled(c, k + 1) + Pow2(k)
  {
    ShlIsMul(c, k + 1);
    OrDisjoint(c, Pow2(k), k + 1);
  }

  lemma {:induction false} OrNonzero(a: nat, b: nat)
    ensures Or(a, b) == 0 <==> a == 0 && b == 0
  {
    if a != 0 { OrNonzero(a / 2, b / 2); }
  }

  function Scaled(d: nat, k: nat): nat { d * Pow2(k) }

  lemma {:induction false} Doubling(d: nat, k: nat)
    requires d >= 1
    ensures Scaled(d, k + 1) == 2 * Scaled(d, k) && Pow2(k) <= Scaled(d, k) && Pow2(k + 1) == 2 * Pow2(k)
  {
    NonNegative(d - 1, Pow2(k));
  }

  lemma {:induction false} Unscaled(d: nat)
    ensures Scaled(d, 0) == d && Scaled(0, d) == 0
  {
    assert d * 1 == d;
  }

  lemma {:induction false} Regrade(c: nat, k: nat)
    ensures Scaled(c, k + 1) == Scaled(2 * c, k) && Scaled(c, k + 1) + Pow2(k) == Scaled(2 * c + 1, k)
  {
    var p := Pow2(k);
    assert Pow2(k + 1) == 2 * p;
    assert c * (2 * p) == (2 * c) * p && (2 * c + 1) * p == (2 * c) * p + p;
  }

  lemma {:induction false} TopBit(x: Int64)
    ensures x.h < 0x8000_0000 <==> U(x) < M / 2
    ensures Or(x.l, x.h) == 0 <==> U(x) == 0
  {
    OrNonzero(x.l, x.h);
  }

  lemma SmallMod(v: int)
    requires 0 <= v < M
    ensures v % M == v
  {}

  /** What `turns` turns of the first loop of the division make of divisor and mask; None while it would go on. */
  function AlignTurns(turns: nat, modulus: nat, divisor: nat, mask: nat): Option<(nat, nat)> {
    if divisor >= M / 2 then Some((divisor, mask))
    else if turns == 0 then None
    else
      var d, m := 2 * divisor % M, 2 * mask % M;
      if divisor >= modulus then Some((d, m)) else AlignTurns(turns - 1, modulus, d, m)
  }

  /** After k turns the loop that started with `d0` and a mask of 1 stands at `d` and `m`. */
  ghost predicate Reaches(k: nat, modulus: nat, d0: nat, d: nat, m: nat) {
    forall t: nat :: AlignTurns(k + t, modulus, d0, 1) == AlignTurns(t, modulus, d, m)
  }

  /** One turn; the divisor tested is the one before the doubling. */
  lemma {:induction false} ReachesNext(k: nat, modulus: nat, d0: nat, d: nat, m: nat, d': nat, m': nat)
    requires Reaches(k, modulus, d0, d, m) && d < M / 2 && d' == 2 * d % M && m' == 2 * m % M
    ensures if d >= modulus then AlignTurns(k + 1, modulus, d0, 1) == Some((d', m'))
            else Reaches(k + 1, modulus, d0, d', m')
  {
    assert AlignTurns(k + 1, modulus, d0, 1) == AlignTurns(1, modulus, d, m);
    if d < modulus {
      forall t: nat ensures AlignTurns(k + 1 + t, modulus, d0, 1) == AlignTurns(t, modulus, d', m') {
        assert AlignTurns(k + (t + 1), modulus, d0, 1) == AlignTurns(t + 1, modulus, d, m);
      }
    }
  }

  lemma {:induction false} ReachesTop(k: nat, modulus: nat, d0: nat, d: nat, m: nat)
    requires Reaches(k, modulus, d0, d, m) && d >= M / 2
    ensures AlignTurns(k, modulus, d0, 1) == Some((d, m))
  {
    assert AlignTurns(k + 0, modulus, d0, 1) == AlignTurns(0, modulus, d, m);
  }

  /** A divisor that n doublings bring to the top bit is aligned within n turns. */
  lemma {:induction false} AlignsWithin(n: nat, modulus: nat, divisor: nat, mask: nat)
    requires Scaled(divisor, n) >= M / 2
    ensures AlignTurns(n, modulus, divisor, mask).Some?
    decreases n
  {
    if n > 0 && divisor < M / 2 && divisor < modulus {
      SmallMod(2 * divisor);
      Regrade(divisor, n - 1);
      AlignsWithin(n - 1, modulus, 2 * divisor, 2 * mask % M);
    }
  }

  lemma {:induction false} ZeroNeverAligns(n: nat, modulus: nat, mask: nat)
    requires modulus != 0
    ensures AlignTurns(n, modulus, 0, mask) == None
    decreases n
  {
    if n > 0 { ZeroNeverAligns(n - 1, modulus, 2 * mask % M); }
  }

  lemma {:induction false} ZeroByZeroAligns(n: nat, mask: nat)
    requires n > 0
    ensures AlignTurns(n, 0, 0, mask) == Some((0, 2 * mask % M)) && AlignTurns(0, 0, 0, mask) == None
  {}

  /** The first loop ends exactly when the divisor is not zero or the dividend is, and then within 63 turns. */
  lemma {:induction false} AlignEndsIff(modulus: nat, divisor: nat, mask: nat)
    requires divisor < M
    ensures (exists n: nat :: AlignTurns(n, modulus, divisor, mask).Some?) <==> divisor != 0 || modulus == 0
    ensures divisor != 0 || modulus == 0 ==> AlignTurns(63, modulus, divisor, mask).Some?
  {
    hide AlignTurns, Pow2;
    if divisor != 0 {
      Powers();
      NonNegative(divisor - 1, Pow2(63));
      AlignsWithin(63, modulus, divisor, mask);
    } else if modulus != 0 {
      forall n: nat ensures AlignTurns(n, modulus, 0, mask) == None { ZeroNeverAligns(n, modulus, mask); }
    } else {
      ZeroByZeroAligns(63, mask);
    }
  }

  /** By a zero divisor the loop never ends for the dividend 1, and ends after one turn for the dividend 0. */
  lemma {:induction false} AlignByZero()
    ensures forall n: nat :: AlignTurns(n, 1, 0, 1) == None
    ensures AlignTurns(0, 0, 0, 1) == None && AlignTurns(1, 0, 0, 1) == Some((0, 2))
  {
    hide AlignTurns;
    forall n: nat ensures AlignTurns(n, 1, 0, 1) == None { ZeroNeverAligns(n, 1, 1); }
    ZeroByZeroAligns(1, 1);
  }

  /** The first loop of the division: double divisor and mask until the divisor exceeds the dividend or its top
      bit is set. It demands no more than that it ends; `k` is the number of its turns. */
  method AlignDivisor(modulus: Int64, divisor0: Int64) returns (divisor: Int64, mask: Int64, ghost k: nat)
    requires U(divisor0) != 0 || U(modulus) == 0
    ensures AlignTurns(k, U(modulus), U(divisor0), 1) == Some((U(divisor), U(mask)))
    ensures U(divisor0) != 0 ==> U(mask) == Pow2(k) && U(divisor) == Scaled(U(divisor0), k)
    ensures U(divisor0) != 0 ==> U(modulus) < 2 * U(divisor)
  {
    divisor, mask, k := divisor0, Int64(0, 1), 0;
    assert U(mask) == 1;
    assert Reaches(0, U(modulus), U(divisor0), U(divisor0), 1);
    hide Pow2, Or, U, Scaled, AlignTurns, Reaches;
    Powers();
    Unscaled(U(divisor0));
    TopBit(divisor);
    while divisor.h < 0x8000_0000
      invariant divisor.h < 0x8000_0000 <==> U(divisor) < M / 2
      invariant U(divisor0) != 0 ==> U(mask) == Pow2(k) && U(divisor) == Scaled(U(divisor0), k)
      invariant U(divisor0) == 0 ==> U(divisor) == 0
      invariant Reaches(k, U(modulus), U(divisor0), U(divisor), U(mask))
      decreases M - U(divisor)
    {
      ghost var d, m := U(divisor), U(mask);
      var cmp := UCompare(divisor, modulus);
      if U(divisor0) != 0 {
        Doubling(U(divisor0), k);
        SmallMod(2 * m);
      }
      divisor := Shl1(divisor);
      mask := Shl1(mask);
      SmallMod(2 * d);
      TopBit(divisor);
      ReachesNext(k, U(modulus), U(divisor0), d, m, U(divisor), U(mask));
      k := k + 1;
      if cmp >= 0 { return; }
    }
    ReachesTop(k, U(modulus), U(divisor0), U(divisor), U(mask));
  }

  /** What the second loop keeps: the dividend is accounted for, the quotient found so far lies above the mask bit,
      and what is left of the dividend is below twice the shifted divisor. */
  ghost predicate Dividing(n: nat, d: nat, q: nat, m: nat, div: nat, mask: nat) {
    && d >= 1 && n == q * d + m
    && (mask == 0 ==> m < d)
    && (mask != 0 ==> m < 2 * div && exists k: nat, c: nat :: At(k, c, d, q, div, mask))
  }

  predicate At(k: nat, c: nat, d: nat, q: nat, div: nat, mask: nat) {
    mask == Pow2(k) && div == Scaled(d, k) && q == Scaled(c, k + 1)
  }

  /** One turn of the second loop. */
  lemma {:induction false} QuotientBit(n: nat, d: nat, q: nat, m: nat, div: nat, mask: nat)
    requires Dividing(n, d, q, m, div, mask) && mask != 0
    ensures m < div ==> Dividing(n, d, q, m, div / 2, mask / 2)
    ensures m >= div ==> Dividing(n, d, Or(q, mask), m - div, div / 2, mask / 2)
  {
    hide Pow2, Or, Scaled;
    var k: nat, c: nat :| At(k, c, d, q, div, mask);
    OrAdds(c, k);
    Regrade(c, k);
    Powers();
    Unscaled(d);
    if m >= div { AccountBit(q, d, k); }
    if k > 0 {
      Doubling(d, k - 1);
      assert At(k - 1, 2 * c, d, q, div / 2, mask / 2);
      assert At(k - 1, 2 * c + 1, d, Or(q, mask), div / 2, mask / 2);
    }
  }

  lemma AccountBit(q: nat, d: nat, k: nat)
    ensures (q + Pow2(k)) * d == q * d + Scaled(d, k)
  {}

  /** Shift-subtract division: its results are the quotient and the remainder of unsigned division. */
  method UDivMod(dividend: Int64, divisor0: Int64) returns (quo: Int64, mod: Int64)
    requires U(divisor0) != 0
    ensures U(dividend) == U(quo) * U(divisor0) + U(mod)
    ensures U(mod) < U(divisor0)
  {
    var modulus, quotient := dividend, Int64(0, 0);
    assert U(quotient) == 0;
    var divisor, mask;
    ghost var k: nat;
    divisor, mask, k := AlignDivisor(modulus, divisor0);
    Unscaled(k + 1);
    assert At(k, 0, U(divisor0), 0, U(divisor), U(mask));
    hide Pow2, Or, U, Scaled;
    TopBit(mask);
    // Walk back down, one quotient bit a step.
    while Or(mask.l, mask.h) != 0
      invariant Or(mask.l, mask.h) == 0 <==> U(mask) == 0
      invariant Dividing(U(dividend), U(divisor0), U(quotient), U(modulus), U(divisor), U(mask))
      decreases U(mask)
    {
      hide Dividing;
      QuotientBit(U(dividend), U(divisor0), U(quotient), U(modulus), U(divisor), U(mask));
      var cmp := UCompare(modulus, divisor);
      if cmp >= 0 {
        quotient := BitOr(quotient, mask);
        SmallMod(U(modulus) - U(divisor));
        modulus := Sub(modulus, divisor);
      }
      mask := Shr1(mask);
      divisor := Shr1(divisor);
      TopBit(mask);
    }
    quo, mod := quotient, modulus;
  }

  // ----- signed division -----

  function Abs(v: int): nat { if v < 0 then -v else v }

  /** Division truncating towards zero, as in C. */
  function TruncDiv(a: int, b: int): int
    requires b != 0
  {
    if (a < 0) == (b < 0) then Abs(a) / Abs(b) else -(Abs(a) / Abs(b))
  }

  /** The remainder that goes with it. */
  function TruncMod(a: int, b: int): int
    requires b != 0
  {
    a - b * TruncDiv(a, b)
  }

  lemma Negated(x: int, y: int)
    ensures (-x) * y == -(x * y) && x * (-y) == -(x * y) && (-x) * (-y) == x * y
  {}

  /** The C remainder has the sign of the dividend and is smaller than the divisor. */
  lemma {:induction false} TruncModSign(a: int, b: int)
    requires b != 0
    ensures TruncMod(a, b) == if a < 0 then -(Abs(a) % Abs(b)) else Abs(a) % Abs(b)
    ensures Abs(TruncMod(a, b)) < Abs(b) && (TruncMod(a, b) == 0 || (TruncMod(a, b) < 0 <==> a < 0))
  {
    var q, r := Abs(a) / Abs(b), Abs(a) % Abs(b);
    var p := Abs(b) * q;
    assert Abs(a) == p + r;
    Negated(Abs(b), q);
    assert b * TruncDiv(a, b) == if a < 0 then -p else p;
  }

  /** What `x` becomes when it is negated if its sign bit is set. */
  lemma {:induction false} Magnitude(x: Int64, m: Int64)
    requires U(m) == if x.h >= 0x8000_0000 then -(U(x) as int) % M else U(x)
    ensures U(m) == Abs(S(x)) && (S(x) < 0 <==> x.h >= 0x8000_0000)
    ensures Abs(S(x)) <= M / 2 && (Abs(S(x)) == M / 2 ==> S(x) == -M / 2)
  {
    SignedIsUnsigned(x);
    if x.h >= 0x8000_0000 { ModOf(-(U(x) as int), -1, M - U(x)); }
  }

  /** A value given by its residue is read back as signed when it is in range. */
  lemma {:induction false} SignedOf(x: Int64, v: int)
    requires U(x) == v % M
    ensures -M / 2 <= v < M / 2 ==> S(x) == v
  {
    SignedIsUnsigned(x);
    if 0 <= v < M / 2 { SmallMod(v); }
    if -M / 2 <= v < 0 { ModOf(v, -1, v + M); }
  }

  lemma {:induction false} XorTop(a: U32, b: U32)
    ensures Xor(a, b) < W
    ensures Xor(a, b) >= 0x8000_0000 <==> (a >= 0x8000_0000) != (b >= 0x8000_0000)
  {
    hide Xor, Shr, Shl, Low, Pow2;
    Powers();
    XorBelow(a, b, 32);
    XorShr(a, b, 31);
    ShrTop(a);
    ShrTop(b);
    ShrTop(Xor(a, b));
    XorSelf(0);
    XorSelf(1);
    XorZero(1);
    XorComm(0, 1);
  }

  lemma {:induction false} QuotientFits(a: nat, b: nat)
    requires b > 0
    ensures a / b <= a && (b > 1 && a > 0 ==> a / b < a)
  {
    var q, r := a / b, a % b;
    assert a == q * b + r;
    NonNegative(q, b - 1);
    if b > 1 { NonNegative(q, b - 2); }
  }

  /** `I64_div`: truncating division; the one overflow, the smallest value by minus one, wraps. */
  method Div(x: Int64, y: Int64) returns (q: Int64)
    requires S(y) != 0
    ensures U(q) == TruncDiv(S(x), S(y)) % M
    ensures !(S(x) == -M / 2 && S(y) == -1) ==> S(q) == TruncDiv(S(x), S(y))
  {
    hide U, S, Xor;
    XorTop(x.h, y.h);
    var negative := Xor(x.h, y.h) >= 0x8000_0000;
    var x', y' := x, y;
    if x.h >= 0x8000_0000 { x' := Neg(x); }
    if y.h >= 0x8000_0000 { y' := Neg(y); }
    Magnitude(x, x');
    Magnitude(y, y');
    var r;
    q, r := UDivMod(x', y');
    ghost var a, b, u := Abs(S(x)), Abs(S(y)), U(q);
    DivModUnique(a, b, u, U(r));
    QuotientFits(a, b);
    if negative { q := Neg(q); } else { SmallMod(u); }
    assert TruncDiv(S(x), S(y)) == if negative then -(u as int) else u;
    SignedOf(q, TruncDiv(S(x), S(y)));
  }

  /** `I64_mod`: the remainder, signed like the dividend. */
  method Mod(x: Int64, y: Int64) returns (r: Int64)
    requires S(y) != 0
    ensures S(r) == TruncMod(S(x), S(y))
  {
    hide U, S;
    TruncModSign(S(x), S(y));
    var x', y' := x, y;
    if x.h >= 0x8000_0000 { x' := Neg(x); }
    if y.h >= 0x8000_0000 { y' := Neg(y); }
    Magnitude(x, x');
    Magnitude(y, y');
    var q;
    q, r := UDivMod(x', y');
    ghost var a, b, u := Abs(S(x)), Abs(S(y)), U(r);
    DivModUnique(a, b, U(q), u);
    if x.h >= 0x8000_0000 { r := Neg(r); } else { SmallMod(u); }
    SignedOf(r, if x.h >= 0x8000_0000 then -(u as int) else u);
  }
}
