/** The 64-bit integers of int64_emul.h, built from two 32-bit halves, against native 64-bit arithmetic: comparison,
    addition and subtraction with their carries, multiplication in base 2^16, and shifts. `U` and `S` are the unsigned
    and the signed value of a pair of halves. */
module Int64Emul {
  import opened Bits

  const W: int := 0x1_0000_0000
  const M: int := 0x1_0000_0000_0000_0000

  type U32 = w: nat | w < 0x1_0000_0000

  /** The struct of two halves. */
  datatype Int64 = Int64(h: U32, l: U32)

  /** The unsigned value. */
  function U(x: Int64): (v: nat)
    ensures v < M
  {
    x.h * W + x.l
  }

  /** A half read as a signed 32-bit integer. */
  function Int32(w: U32): int { if w < 0x8000_0000 then w else w - W }

  /** The signed (two's complement) value. */
  function S(x: Int64): int { Int32(x.h) * W + x.l }

  /** Conversion of a wide result to a 32-bit half. */
  function Wrap(v: int): U32 { v % W }

  lemma SignedIsUnsigned(x: Int64)
    ensures S(x) == if x.h < 0x8000_0000 then U(x) else U(x) - M
    ensures -M / 2 <= S(x) < M / 2 && S(x) % M == U(x)
  {}

  /** Two halves, the upper one wrapped, are the whole value modulo 2^64. */
  lemma {:induction false} Halves(hi: int, l: U32)
    ensures U(Int64(Wrap(hi), l)) == (hi * W + l) % M
  {
    var k := hi / W;
    assert hi * W + l == k * M + (Wrap(hi) * W + l);
    ModOf(hi * W + l, k, Wrap(hi) * W + l);
  }

  lemma ModOf(v: int, k: int, r: int)
    requires v == k * M + r && 0 <= r < M
    ensures v % M == r
  {}

  // ----- comparison -----

  function Sign(a: int, b: int): int { if a > b then 1 else if a < b then -1 else 0 }

  method UCompare(x: Int64, y: Int64) returns (r: int)
    ensures r == Sign(U(x), U(y))
  {
    if x.h > y.h { return 1; }
    if x.h < y.h { return -1; }
    if x.l > y.l { return 1; }
    if x.l < y.l { return -1; }
    return 0;
  }

  method Compare(x: Int64, y: Int64) returns (r: int)
    ensures r == Sign(S(x), S(y))
  {
    if Int32(x.h) > Int32(y.h) { return 1; }
    if Int32(x.h) < Int32(y.h) { return -1; }
    if x.l > y.l { return 1; }
    if x.l < y.l { return -1; }
    return 0;
  }

  // ----- negation, addition, subtraction -----

  /** Two's complement negation: complement the upper half, and carry when the lower half is zero. */
  method Neg(x: Int64) returns (res: Int64)
    ensures U(res) == -(U(x) as int) % M
  {
    var xl: int, xh: int := x.l, x.h;
    var l, h := Wrap(-xl), Wrap(W - 1 - xh);
    var carry := if l == 0 then 1 else 0;
    if l == 0 { h := Wrap(h as int + 1); }
    res := Int64(h, l);
    assert l == if xl == 0 then 0 else W - xl;
    WrapAdds(W - 1 - xh, carry);
    Halves(W - 1 - xh + carry, l);
    assert (W - 1 - xh + carry) * W + l == -(xh * W + xl) + 1 * M;
    ModShift(-(xh * W + xl), 1);
  }

  lemma {:induction false} ModShift(v: int, k: int)
    ensures (v + k * M) % M == v % M
  {
    ModOf(v + k * M, v / M + k, v % M);
  }

  lemma {:induction false} WrapNear(v: int)
    requires -W <= v < 2 * W
    ensures Wrap(v) == if v < 0 then v + W else if v < W then v else v - W
  {
    WrapOf(v, if v < 0 then -1 else if v < W then 0 else 1, if v < 0 then v + W else if v < W then v else v - W);
  }

  lemma WrapOf(v: int, k: int, r: int)
    requires v == k * W + r && 0 <= r < W
    ensures Wrap(v) == r
  {}

  /** The carry is seen as a sum smaller than a summand. */
  method Add(x: Int64, y: Int64) returns (res: Int64)
    ensures U(res) == (U(x) + U(y)) % M
  {
    hide Wrap;
    var xl: int, xh: int, yl: int, yh: int := x.l, x.h, y.l, y.h;
    WrapNear(xl + yl);
    var l, h := Wrap(xl + yl), Wrap(xh + yh);
    if l < x.l { h := Wrap(h as int + 1); }
    res := Int64(h, l);
    ghost var carry := if l < x.l then 1 else 0;
    WrapAdds(xh + yh, 1);
    Halves(xh + yh + carry, l);
    assert (xh + yh + carry) * W + l == U(x) + U(y);
  }

  method Sub(x: Int64, y: Int64) returns (res: Int64)
    ensures U(res) == (U(x) - U(y)) % M
  {
    hide Wrap;
    var xl: int, xh: int, yl: int, yh: int := x.l, x.h, y.l, y.h;
    WrapNear(xl - yl);
    var l, h := Wrap(xl - yl), Wrap(xh - yh);
    if xl < yl { h := Wrap(h as int - 1); }
    res := Int64(h, l);
    ghost var borrow := if xl < yl then 1 else 0;
    WrapAdds(xh - yh, -1);
    Halves(xh - yh - borrow, l);
    assert (xh - yh - borrow) * W + l == U(x) - U(y);
  }

  /** Wrapping early or late makes no difference. */
  lemma WrapAdds(a: int, b: int)
    ensures Wrap(Wrap(a) as int + b) == Wrap(a + b)
  {}

  // ----- multiplication -----

  /** Schoolbook multiplication in base 2^16, with the two carries into the upper half. */
  method Mul(x: Int64, y: Int64) returns (res: Int64)
    ensures U(res) == U(x) * U(y) % M
  {
    hide Wrap, U;
    var prod00 := Wrap((x.l % 0x10000) * (y.l % 0x10000));
    var prod10 := Wrap((x.l / 0x10000) * (y.l % 0x10000));
    var prod01 := Wrap((x.l % 0x10000) * (y.l / 0x10000));
    var prod11 := Wrap((x.l / 0x10000) * (y.l / 0x10000));
    DigitProducts(x.l, y.l, prod00, prod10, prod01, prod11);
    var h, l := LowerHalves(prod00, prod10, prod01, prod11);
    ghost var exact :| h == Wrap(exact) && exact * W + l == x.l as int * y.l as int;
    var cross := x.l as int * y.h as int + x.h as int * y.l as int;
    h := Wrap(h as int + cross);
    res := Int64(h, l);
    WrapAdds(exact, cross);
    AssembleProduct(x, y, exact, l);
  }

  /** The lower product before the cross terms: two shifted additions, each with its carry. */
  method LowerHalves(prod00: U32, p10: U32, p01: U32, prod11: U32) returns (h: U32, l: U32)
    requires p01 <= 0xfffe0001 && p10 <= 0xfffe0001
    ensures exists exact: int :: h == Wrap(exact) &&
              exact * W + l == prod00 as int + 0x10000 * (p01 as int + p10 as int) + W * prod11 as int
  {
    hide Wrap;
    var prod01, prod10 := p01, p10;
    l := prod00;
    ghost var exact: int := prod11 as int + prod01 as int / 0x10000 + prod10 as int / 0x10000;
    h := Wrap(prod11 as int + prod01 as int / 0x10000 + prod10 as int / 0x10000);
    prod01 := Wrap(prod01 as int * 0x10000);
    l := Wrap(l as int + prod01 as int);
    if l < prod01 { h := Wrap(h as int + 1); WrapAdds(exact, 1); exact := exact + 1; }
    prod10 := Wrap(prod10 as int * 0x10000);
    l := Wrap(l as int + prod10 as int);
    if l < prod10 { h := Wrap(h as int + 1); WrapAdds(exact, 1); exact := exact + 1; }
    LowerProduct(prod00, p10, p01, prod11, exact, l);
  }

  lemma {:induction false} AssembleProduct(x: Int64, y: Int64, exact: int, l: U32)
    requires exact * W + l == x.l as int * y.l as int
    ensures var cross := x.l as int * y.h as int + x.h as int * y.l as int;
            U(Int64(Wrap(exact + cross), l)) == U(x) * U(y) % M
  {
    var xl: int, xh: int, yl: int, yh: int := x.l, x.h, y.l, y.h;
    var cross, low := xl * yh + xh * yl, xl * yl;
    assert (exact + cross) * W + l == low + cross * W;
    Halves(exact + cross, l);
    WholeProduct(xl, xh, yl, yh);
    ModShift(low + cross * W, xh * yh);
    hide Wrap;
    assert U(x) == xh * W + xl && U(y) == yh * W + yl;
  }

  /** The four partial products fit 32 bits and make up the product of the lower halves. */
  lemma {:induction false} DigitProducts(x: int, y: int, p00: U32, p10: U32, p01: U32, p11: U32)
    requires 0 <= x < W && 0 <= y < W
    requires p00 == Wrap((x % 0x10000) * (y % 0x10000)) && p10 == Wrap((x / 0x10000) * (y % 0x10000))
    requires p01 == Wrap((x % 0x10000) * (y / 0x10000)) && p11 == Wrap((x / 0x10000) * (y / 0x10000))
    ensures p00 as int + 0x10000 * (p01 as int + p10 as int) + W * p11 as int == x * y
    ensures p01 <= 0xfffe0001 && p10 <= 0xfffe0001
  {
    var a0, a1, b0, b1 := x % 0x10000, x / 0x10000, y % 0x10000, y / 0x10000;
    DigitProduct(a0, b0);
    DigitProduct(a1, b0);
    DigitProduct(a0, b1);
    DigitProduct(a1, b1);
    Distribute(a1, a0, b1, b0);
    assert x == a1 * 0x10000 + a0 && y == b1 * 0x10000 + b0;
  }

  lemma {:induction false} DigitProduct(a: int, b: int)
    requires 0 <= a < 0x10000 && 0 <= b < 0x10000
    ensures 0 <= a * b <= 0xfffe0001 && Wrap(a * b) == a * b
  {
    hide Wrap;
    NonNegative(a, b);
    NonNegative(0xffff - a, b);
    SmallWrap(a * b);
  }

  lemma NonNegative(a: int, b: int)
    requires a >= 0 && b >= 0
    ensures a * b >= 0
  {}

  lemma SmallWrap(v: int)
    requires 0 <= v < W
    ensures Wrap(v) == v
  {}

  lemma {:induction false} Distribute(a1: int, a0: int, b1: int, b0: int)
    ensures (a1 * 0x10000 + a0) * (b1 * 0x10000 + b0) == a0 * b0 + 0x10000 * (a0 * b1 + a1 * b0) + W * (a1 * b1)
  {
    var x, y := a1 * 0x10000, b1 * 0x10000;
    assert (x + a0) * (y + b0) == x * y + x * b0 + a0 * y + a0 * b0;
    assert x * y == W * (a1 * b1) by { assert x * y == (a1 * b1) * (0x10000 * 0x10000); }
    assert x * b0 == 0x10000 * (a1 * b0) && a0 * y == 0x10000 * (a0 * b1);
  }

  /** One shifted addition and its carry. */
  lemma {:induction false} ShiftedAddition(p: U32, q: int)
    requires 0 <= q <= 0xfffe0001
    ensures var r := Wrap(q * 0x10000);
            var l := Wrap(p as int + r as int);
            (q / 0x10000 + (if l < r then 1 else 0)) * W + l == p as int + 0x10000 * q
  {
    hide Wrap;
    var d, m := q / 0x10000, q % 0x10000;
    assert q == 0x10000 * d + m;
    WrapOf(q * 0x10000, d, 0x10000 * m);
    WrapNear(p as int + 0x10000 * m);
  }

  /** The two shifted additions and their carries add up exactly. */
  lemma {:induction false} LowerProduct(p00: U32, p10: int, p01: int, p11: U32, exact: int, l: U32)
    requires 0 <= p10 <= 0xfffe0001 && 0 <= p01 <= 0xfffe0001
    requires var r01, r10 := Wrap(p01 * 0x10000), Wrap(p10 * 0x10000);
             var l1 := Wrap(p00 as int + r01 as int);
             l == Wrap(l1 as int + r10 as int) &&
             exact == p11 as int + p01 / 0x10000 + p10 / 0x10000
                      + (if l1 < r01 then 1 else 0) + (if l < r10 then 1 else 0)
    ensures exact * W + l == p00 as int + 0x10000 * (p01 + p10) + W * p11 as int
  {
    hide Wrap;
    ShiftedAddition(p00, p01);
    ShiftedAddition(Wrap(p00 as int + Wrap(p01 * 0x10000) as int), p10);
  }

  lemma {:induction false} WholeProduct(xl: int, xh: int, yl: int, yh: int)
    ensures (xh * W + xl) * (yh * W + yl) == xl * yl + (xl * yh + xh * yl) * W + xh * yh * M
  {
    var x, y := xh * W, yh * W;
    assert (x + xl) * (y + yl) == x * y + x * yl + xl * y + xl * yl;
    assert x * y == xh * yh * M by { assert x * y == (xh * yh) * (W * W); }
    assert x * yl == xh * yl * W && xl * y == xl * yh * W;
  }

  // ----- bitwise operations and shifts -----

  /** The halves of a 64-bit value are its upper and lower 32 bits. */
  lemma {:induction false} UnsignedParts(x: Int64)
    ensures U(x) == Shl(x.h, 32) + x.l && x.l < Pow2(32) && Pow2(32) == W
    ensures Or(Shl(x.h, 32), x.l) == U(x)
  {
    Powers();
    ShlIsMul(x.h, 32);
    OrDisjoint(x.h, x.l, 32);
  }

  lemma {:induction false} Powers()
    ensures Pow2(0) == 1 && Pow2(1) == 2 && Pow2(31) == 0x8000_0000 && Pow2(32) == W && Pow2(63) == M / 2 &&
            Pow2(64) == M
  {
    assert Pow2(4) == 16;
    assert Pow2(8) == 0x100;
    assert Pow2(16) == 0x1_0000 by { assert Pow2(12) == 0x1000; }
    assert Pow2(24) == 0x100_0000 by { assert Pow2(20) == 0x10_0000; }
    assert Pow2(32) == W by { assert Pow2(28) == 0x1000_0000; }
    assert Pow2(40) == 0x100 * W by { assert Pow2(36) == 0x10 * W; }
    assert Pow2(48) == 0x1_0000 * W by { assert Pow2(44) == 0x1000 * W; }
    assert Pow2(56) == 0x100_0000 * W by { assert Pow2(52) == 0x10_0000 * W; }
    assert Pow2(64) == M by { assert Pow2(60) == 0x1000_0000 * W; }
  }

  /** Inclusive or of numbers given by a high part and `n` low bits. */
  lemma {:induction false} OrParts(a: nat, b: nat, c: nat, d: nat, n: nat)
    requires b < Pow2(n) && d < Pow2(n)
    ensures Or(Shl(a, n) + b, Shl(c, n) + d) == Shl(Or(a, c), n) + Or(b, d)
    ensures Or(b, d) < Pow2(n)
    decreases n
  {
    if n > 0 {
      OrParts(a, b / 2, c, d / 2, n - 1);
      OrBits(Shl(a, n) + b, Shl(c, n) + d);
      OrBits(b, d);
    } else {
      OrZero(a);
    }
  }

  lemma OrBits(a: nat, b: nat)
    ensures Or(a, b) == 2 * Or(a / 2, b / 2) + (if a % 2 == 1 || b % 2 == 1 then 1 else 0)
  {}

  /** `|` on the halves is `|` on the whole. */
  method BitOr(x: Int64, y: Int64) returns (res: Int64)
    ensures U(res) == Or(U(x), U(y))
  {
    hide Or;
    OrHalves(x, y);
    res := Int64(Or(x.h, y.h), Or(x.l, y.l));
  }

  lemma {:induction false} OrHalves(x: Int64, y: Int64)
    ensures Or(x.h, y.h) < W && Or(x.l, y.l) < W
    ensures Or(x.h, y.h) * W + Or(x.l, y.l) == Or(U(x), U(y))
  {
    hide Or, Shl, Pow2;
    UnsignedParts(x);
    UnsignedParts(y);
    OrParts(0, x.l, 0, y.l, 32);
    OrParts(0, x.h, 0, y.h, 32);
    OrParts(x.h, x.l, y.h, y.l, 32);
    ShlIsMul(Or(x.h, y.h), 32);
  }

  /** Shifting a half left keeps its low 32 bits; the bits pushed out are those a right shift extracts. */
  lemma {:induction false} LeftSpills(w: U32, s: nat)
    requires s <= 32
    ensures Shl(w, s) == Shr(w, 32 - s) * W + Wrap(Shl(w, s))
    ensures Wrap(Shl(w, s)) == Shl(Low(w, 32 - s), s)
    ensures Shr(w, 32 - s) < Pow2(s) && Shr(w, s) < W
  {
    hide Shl, Shr, Low, Pow2;
    Powers();
    ShrIsDiv(Shl(w, s), 32);
    ShrShl(w, s, 32);
    ShlIsMul(Shr(w, 32 - s), 32);
    ShrBelow(w, 32 - s, 32);
    ShrBelow(w, 0, 32);
    ShrIsDiv(w, s);
    ShlIsMul(Shr(w, s), s);
    NonNegative(Shr(w, s), Pow2(s) - 1);
  }

  /** Shifting a whole value left shifts its halves. */
  lemma {:induction false} ShlOfHalves(x: Int64, s: nat)
    ensures U(x) * Pow2(s) == Shl(x.h, s) * W + Shl(x.l, s)
  {
    ShlIsMul(x.h, s);
    ShlIsMul(x.l, s);
    assert (x.h * W + x.l) * Pow2(s) == x.h * Pow2(s) * W + x.l * Pow2(s);
  }

  method Lsl(x: Int64, n: int) returns (res: Int64)
    ensures U(res) == U(x) * Pow2(n % 64) % M
  {
    hide Shl, Shr, Or, Wrap;
    var s := n % 64;
    if s == 0 { return x; }
    if s < 32 {
      JoinedHalf(x.h, s, x.l);
      res := Int64(Or(Wrap(Shl(x.h, s)), Shr(x.l, 32 - s)), Wrap(Shl(x.l, s)));
      LslSmall(x, s);
    } else {
      res := Int64(Wrap(Shl(x.l, s - 32)), 0);
      LslLarge(x, s);
    }
  }

  /** The upper half joins two parts with `|`: they have no bit in common and fit a half. */
  lemma {:induction false} JoinedHalf(a: U32, s: nat, b: U32)
    requires s <= 32
    ensures var t := Shr(b, 32 - s);
            Or(Wrap(Shl(a, s)), t) == Wrap(Shl(a, s)) + t == Or(t, Wrap(Shl(a, s))) && Wrap(Shl(a, s)) + t < W
  {
    hide Shl, Shr, Or, Wrap, Low, Pow2;
    var t, k := Shr(b, 32 - s), Low(a, 32 - s);
    LeftSpills(a, s);
    LeftSpills(b, s);
    OrDisjoint(k, t, s);
    Powers();
    ShrIsDiv(a, 32 - s);
    ShlIsMul(k, s);
    PowAdd(32 - s, s);
    FieldsFit(k, t, Pow2(32 - s), Pow2(s));
  }

  lemma {:induction false} FieldsFit(k: nat, t: nat, p: nat, q: nat)
    requires k < p && t < q
    ensures k * q + t < p * q
  {
    NonNegative(p - 1 - k, q);
  }

  lemma {:induction false} LslSmall(x: Int64, s: nat)
    requires s <= 32
    ensures Wrap(Shl(x.h, s)) + Shr(x.l, 32 - s) < W
    ensures U(Int64(Wrap(Shl(x.h, s)) + Shr(x.l, 32 - s), Wrap(Shl(x.l, s)))) == U(x) * Pow2(s) % M
  {
    hide Shl, Shr, Or, Wrap, Low, Pow2;
    JoinedHalf(x.h, s, x.l);
    LeftSpills(x.h, s);
    LeftSpills(x.l, s);
    ShlOfHalves(x, s);
    var r := Int64(Wrap(Shl(x.h, s)) + Shr(x.l, 32 - s), Wrap(Shl(x.l, s)));
    var product := U(x) * Pow2(s);
    assert product == U(r) + Shr(x.h, 32 - s) * M;
    ModOf(product, Shr(x.h, 32 - s), U(r));
  }

  lemma {:induction false} LslLarge(x: Int64, s: nat)
    requires 32 <= s
    ensures U(Int64(Wrap(Shl(x.l, s - 32)), 0)) == U(x) * Pow2(s) % M
  {
    hide Shl, Shr, Or, Wrap, Low, Pow2;
    ShlOfHalves(x, s);
    Powers();
    var a, b := Shl(x.h, s - 32), Shl(x.l, s - 32);
    ShlAdd(x.l, s - 32, 32);
    ShlAdd(x.h, s - 32, 32);
    ShlIsMul(a, 32);
    ShlIsMul(b, 32);
    Halves(b, 0);
    assert U(x) * Pow2(s) == b * W + a * M;
    ModShift(b * W, a);
  }

  method Lsr(x: Int64, n: int) returns (res: Int64)
    ensures U(res) == U(x) / Pow2(n % 64)
  {
    hide Shl, Shr, Or, Wrap;
    var s := n % 64;
    if s == 0 { return x; }
    if s < 32 {
      JoinedHalf(x.h, 32 - s, x.l);
      LeftSpills(x.h, s);
      res := Int64(Shr(x.h, s), Or(Shr(x.l, s), Wrap(Shl(x.h, 32 - s))));
      LsrSmall(x, s);
    } else {
      LeftSpills(x.h, s - 32);
      res := Int64(0, Shr(x.h, s - 32));
      LsrLarge(x, s);
    }
  }

  lemma {:induction false} LsrSmall(x: Int64, s: nat)
    requires s <= 32
    ensures Wrap(Shl(x.h, 32 - s)) + Shr(x.l, s) < W && Shr(x.h, s) < W
    ensures U(Int64(Shr(x.h, s), Wrap(Shl(x.h, 32 - s)) + Shr(x.l, s))) == U(x) / Pow2(s)
  {
    hide Shl, Shr, Or, Wrap, Low, Pow2;
    JoinedHalf(x.h, 32 - s, x.l);
    LeftSpills(x.h, 32 - s);
    LeftSpills(x.h, s);
    UnsignedParts(x);
    ShrSum(x.h, x.l, 32, s);
    ShrIsDiv(U(x), s);
  }

  lemma {:induction false} LsrLarge(x: Int64, s: nat)
    requires 32 <= s <= 64
    ensures Shr(x.h, s - 32) == U(x) / Pow2(s)
  {
    hide Shl, Shr, Or, Low, Pow2;
    UnsignedParts(x);
    ShrAdd(U(x), 32, s - 32);
    ShrIsDiv(U(x), 32);
    DivModUnique(U(x), W, x.h, x.l);
    ShrIsDiv(U(x), s);
  }

  /** Arithmetic right shift: the sign fills in, so the result is the floor of the quotient. */
  method Asr(x: Int64, n: int) returns (res: Int64)
    ensures S(res) == S(x) / Pow2(n % 64)
  {
    hide Shl, Shr, Or, Wrap;
    var s := n % 64;
    if s == 0 { return x; }
    if s < 32 {
      JoinedHalf(x.h, 32 - s, x.l);
      res := Int64(Wrap(Int32(x.h) / Pow2(s)), Or(Shr(x.l, s), Wrap(Shl(x.h, 32 - s))));
      AsrSmall(x, s);
    } else {
      res := Int64(Wrap(Int32(x.h) / 0x8000_0000), Wrap(Int32(x.h) / Pow2(s - 32)));
      AsrLarge(x, s);
    }
  }

  /** A shift that floors, of a number given by its two's complement representative. */
  lemma {:induction false} FloorShift(a: nat, n: nat, s: nat)
    requires s <= n
    ensures a / Pow2(s) == Shr(a, s)
    ensures (a - Pow2(n)) / Pow2(s) == Shr(a, s) - Pow2(n - s)
  {
    hide Shl, Shr, Low, Pow2;
    ShrIsDiv(a, s);
    ShlIsMul(Shr(a, s), s);
    PowAdd(n - s, s);
    var p, q := Pow2(s), Shr(a, s) - Pow2(n - s);
    assert q * p == Shr(a, s) * p - Pow2(n - s) * p;
    FloorUnique(a - Pow2(n), p, q, Low(a, s));
  }

  lemma {:induction false} FloorUnique(a: int, d: nat, q: int, r: nat)
    requires d > 0 && r < d && a == q * d + r
    ensures a / d == q
  {
    assert (a / d - q) * d == r - a % d;
    AtLeastOnce(a / d - q, d);
  }

  lemma {:induction false} SmallQuotient(v: int, d: int)
    requires d >= 1 && -0x8000_0000 <= v < 0x8000_0000
    ensures -0x8000_0000 <= v / d < 0x8000_0000 && (v / d < 0 <==> v < 0)
  {
    var q, r := v / d, v % d;
    assert v == q * d + r;
    if q >= 0 { NonNegative(q, d - 1); } else { NonNegative(-1 - q, d - 1); }
  }

  /** A signed 32-bit upper half, wrapped, is read back as it was. */
  lemma SignedHalves(v: int, l: U32)
    requires -0x8000_0000 <= v < 0x8000_0000
    ensures S(Int64(Wrap(v), l)) == v * W + l
  {}

  /** The floor of the signed value, from the floor of the unsigned one. */
  lemma {:induction false} SignedFloor(x: Int64, s: nat)
    requires s <= 64
    ensures S(x) / Pow2(s) == Shr(U(x), s) - (if x.h < 0x8000_0000 then 0 else Pow2(64 - s))
  {
    hide Shl, Shr, Or, Low, Pow2;
    Powers();
    FloorShift(U(x), 64, s);
    SignedIsUnsigned(x);
  }

  lemma {:induction false} HalfFloor(w: U32, s: nat)
    requires s <= 32
    ensures Int32(w) / Pow2(s) == Shr(w, s) - (if w < 0x8000_0000 then 0 else Pow2(32 - s))
    ensures -0x8000_0000 <= Int32(w) / Pow2(s) < 0x8000_0000
    ensures Int32(w) / Pow2(s) < 0 <==> w >= 0x8000_0000
  {
    hide Shl, Shr, Or, Low, Pow2;
    Powers();
    FloorShift(w, 32, s);
    SmallQuotient(Int32(w), Pow2(s));
  }

  lemma {:induction false} AsrSmall(x: Int64, s: nat)
    requires s <= 32
    ensures Wrap(Shl(x.h, 32 - s)) + Shr(x.l, s) < W
    ensures S(Int64(Wrap(Int32(x.h) / Pow2(s)), Wrap(Shl(x.h, 32 - s)) + Shr(x.l, s))) == S(x) / Pow2(s)
  {
    hide Shl, Shr, Or, Low, Pow2, Wrap, S, Int32;
    LsrSmall(x, s);
    ShrIsDiv(U(x), s);
    HalfFloor(x.h, s);
    SignedFloor(x, s);
    Powers();
    PowAdd(32 - s, 32);
    SignedHalves(Int32(x.h) / Pow2(s), Wrap(Shl(x.h, 32 - s)) + Shr(x.l, s));
  }

  lemma {:induction false} AsrLarge(x: Int64, s: nat)
    requires 32 <= s < 64
    ensures S(Int64(Wrap(Int32(x.h) / 0x8000_0000), Wrap(Int32(x.h) / Pow2(s - 32)))) == S(x) / Pow2(s)
  {
    hide Shl, Shr, Or, Low, Pow2, S, Int32;
    Powers();
    LsrLarge(x, s);
    ShrIsDiv(U(x), s);
    HalfFloor(x.h, s - 32);
    HalfFloor(x.h, 31);
    SignFill(x.h);
    SignedFloor(x, s);
    SignedHalves(Int32(x.h) / 0x8000_0000, Wrap(Int32(x.h) / Pow2(s - 32)));
  }

  lemma SignFill(w: U32)
    ensures Int32(w) / 0x8000_0000 == if w < 0x8000_0000 then 0 else -1
  {}
}
