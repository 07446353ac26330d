/** The period of the register of CRC-32, which is 2^32 - 1 steps, the longest possible, and what follows for runs of
    zero bytes and for errors of two bits. */
module CrcOrder {
  import opened BitStrings
  import opened Bits
  import opened Crc32
  import opened CrcBursts
  import opened CrcPowers
  import opened CrcWords
  import opened Divisors
  import opened Octets
  import opened Words

  const PERIOD: nat := 0xffff_ffff

  /** x to the m-th is 1. */
  ghost predicate Returns(m: nat) { X(m) == ONE }

  lemma {:induction false} ReturnsAdd(m: nat, n: nat)
    requires Returns(n)
    ensures X(m + n) == X(m)
    ensures Returns(m + n) <==> Returns(m)
  {
    hide X, Times;
    PowersAdd(m, n);
    TimesOne(X(m));
  }

  lemma {:induction false} ReturnsMultiple(m: nat, k: nat, n: nat)
    requires Returns(m) && n == k * m
    ensures Returns(n)
    decreases k
  {
    hide *;
    if k == 0 {
      PowerZero();
    } else {
      assert n - m == (k - 1) * m;
      assert (k - 1) * m >= 0;
      ReturnsMultiple(m, k - 1, n - m);
      ReturnsAdd(n - m, m);
    }
  }

  lemma PowerZero()
    ensures Returns(0)
  {}

  // ----- powers, computed -----

  ghost predicate Power(m: nat, x: bv32) { X(m) == Value(x) }

  lemma PowersMultiply(m: nat, x: bv32, n: nat, y: bv32)
    requires Power(m, x) && Power(n, y)
    ensures Power(m + n, Mul(x, y))
  {
    hide X, Value, Mul, Times;
    PowersAdd(m, n);
    ValueOfMul(x, y);
  }

  function Square(x: bv32): bv32 { Mul(x, x) }

  lemma PowerFour(m: nat, x: bv32)
    requires Power(m, x)
    ensures Power(4 * m, Square(Square(x)))
  {
    hide Power, Mul;
    PowersMultiply(m, x, m, x);
    PowersMultiply(2 * m, Square(x), 2 * m, Square(x));
  }

  lemma FirstPower()
    ensures Power(1, 0x4000_0000)
  {
    OneStep(ONE);
    EvenStep(0x4000_0000);
    ValueOfOne();
    Digits(0x8000_0000);
    hide Value, Step;
  }

  lemma Squares1()
    ensures Square(Square(0x4000_0000)) == 0x0800_0000
  {
    assert Square(0x4000_0000) == 0x2000_0000;
  }

  lemma Squares4()
    ensures Square(Square(0x0800_0000)) == 0x8000
  {
    assert Square(0x0800_0000) == 0x0080_0000;
  }

  lemma Squares16()
    ensures Square(Square(0x8000)) == 0xb1e6_b092
  {
    assert Square(0x8000) == 0xedb8_8320;
  }

  lemma Squares64()
    ensures Square(Square(0xb1e6_b092)) == 0xed62_7dae
  {
    assert Square(0xb1e6_b092) == 0xa06a_2517;
  }

  lemma Squares256()
    ensures Square(Square(0xed62_7dae)) == 0xd7bb_fe6a
  {
    assert Square(0xed62_7dae) == 0x88d1_4467;
  }

  lemma Squares1024()
    ensures Square(Square(0xd7bb_fe6a)) == 0x8e7e_a170
  {
    assert Square(0xd7bb_fe6a) == 0xec44_7f11;
  }

  lemma Squares4096()
    ensures Square(Square(0x8e7e_a170)) == 0x4d47_bae0
  {
    assert Square(0x8e7e_a170) == 0x6427_800e;
  }

  lemma Squares16384()
    ensures Square(Square(0x4d47_bae0)) == 0x8385_2d0f
  {
    assert Square(0x4d47_bae0) == 0x09fe_548f;
  }

  lemma SquaresFirst1()
    ensures Square(Square(0xac7a_15a7)) == 0x216c_9960
  {
    assert Square(0xac7a_15a7) == 0xe1b5_08e6;
  }

  lemma SquaresFirst4()
    ensures Square(Square(0x216c_9960)) == 0x8165_32e8
  {
    assert Square(0x216c_9960) == 0x345f_273d;
  }

  lemma SquaresFirst16()
    ensures Square(Square(0x8165_32e8)) == 0x934e_e480
  {
    assert Square(0x8165_32e8) == 0x923c_f1d7;
  }

  lemma SquaresFirst64()
    ensures Square(Square(0x934e_e480)) == 0x4630_d51a
  {
    assert Square(0x934e_e480) == 0x2eb6_3450;
  }

  lemma SquaresSecond1()
    ensures Square(Square(0x316b_5ba1)) == 0xaebf_57a4
  {
    assert Square(0x316b_5ba1) == 0x5b21_9b1c;
  }

  lemma SquaresSecond4()
    ensures Square(Square(0xaebf_57a4)) == 0x0c28_3ca0
  {
    assert Square(0xaebf_57a4) == 0x7db7_e260;
  }

  lemma ProductFirst()
    ensures Mul(0x8385_2d0f, 0x4000_0000) == 0xac7a_15a7
  {}

  lemma ProductSecond()
    ensures Mul(0x4630_d51a, 0xac7a_15a7) == 0x316b_5ba1
  {}

  lemma ProductThird()
    ensures Mul(0x0c28_3ca0, 0x316b_5ba1) == 0x3d43_6701
  {}

  lemma SquaresThird()
    ensures Square(0x3d43_6701) == 0xfa75_8c53 && Square(0xfa75_8c53) == 0xbd43_6701
  {}

  lemma ProductFourth()
    ensures Mul(0xbd43_6701, 0x3d43_6701) == 0xc736_eb52
  {}

  lemma ProductsFifth()
    ensures Square(0xc736_eb52) == 0x4736_eb52 && Mul(0x4736_eb52, 0xc736_eb52) == 0x8000_0000
  {}

  // The factors of the period are 65537, 257, 17, 5 and 3.

  lemma PowersToFirst()
    ensures Power(65536, 0x8385_2d0f) && Power(65537, 0xac7a_15a7)
  {
    hide Power, Mul;
    FirstPower();
    Squares1();
    PowerFour(1, 0x4000_0000);
    Squares4();
    PowerFour(4, 0x0800_0000);
    Squares16();
    PowerFour(16, 0x8000);
    Squares64();
    PowerFour(64, 0xb1e6_b092);
    Squares256();
    PowerFour(256, 0xed62_7dae);
    Squares1024();
    PowerFour(1024, 0xd7bb_fe6a);
    Squares4096();
    PowerFour(4096, 0x8e7e_a170);
    Squares16384();
    PowerFour(16384, 0x4d47_bae0);
    PowersMultiply(65536, 0x8385_2d0f, 1, 0x4000_0000);
    ProductFirst();
  }

  lemma PowersToSecond()
    ensures Power(256 * 65537, 0x4630_d51a) && Power(257 * 65537, 0x316b_5ba1)
  {
    hide Power, Mul;
    PowersToFirst();
    SquaresFirst1();
    PowerFour(65537, 0xac7a_15a7);
    SquaresFirst4();
    PowerFour(4 * 65537, 0x216c_9960);
    SquaresFirst16();
    PowerFour(16 * 65537, 0x8165_32e8);
    SquaresFirst64();
    PowerFour(64 * 65537, 0x934e_e480);
    PowersMultiply(256 * 65537, 0x4630_d51a, 65537, 0xac7a_15a7);
    ProductSecond();
  }

  lemma PowersToThird()
    ensures Power(16 * 257 * 65537, 0x0c28_3ca0) && Power(17 * 257 * 65537, 0x3d43_6701)
  {
    hide Power, Mul;
    PowersToSecond();
    SquaresSecond1();
    PowerFour(257 * 65537, 0x316b_5ba1);
    SquaresSecond4();
    PowerFour(4 * 257 * 65537, 0xaebf_57a4);
    PowersMultiply(16 * 257 * 65537, 0x0c28_3ca0, 257 * 65537, 0x316b_5ba1);
    ProductThird();
  }

  lemma PowersToPeriod()
    ensures Power(4 * 17 * 257 * 65537, 0xbd43_6701) && Power(5 * 17 * 257 * 65537, 0xc736_eb52)
    ensures Power(PERIOD, 0x8000_0000)
  {
    hide Power, Mul;
    PowersToThird();
    var e := 17 * 257 * 65537;
    SquaresThird();
    PowersMultiply(e, 0x3d43_6701, e, 0x3d43_6701);
    PowersMultiply(2 * e, 0xfa75_8c53, 2 * e, 0xfa75_8c53);
    ProductFourth();
    PowersMultiply(4 * e, 0xbd43_6701, e, 0x3d43_6701);
    ProductsFifth();
    PowersMultiply(5 * e, 0xc736_eb52, 5 * e, 0xc736_eb52);
    PowersMultiply(10 * e, 0x4736_eb52, 5 * e, 0xc736_eb52);
  }

  lemma {:induction false} PeriodReturns()
    ensures Returns(PERIOD)
  {
    PowersToPeriod();
    ValueOfOne();
    hide Value, X;
  }

  // ----- no shorter period -----

  /** Powers that differ are not a period apart. */
  lemma {:induction false} Apart(k: nat, m: nat, x: bv32, y: bv32)
    requires Power(k + m, x) && Power(m, y) && x != y
    ensures !Returns(k)
  {
    hide X, Value;
    if Returns(k) {
      ReturnsAdd(m, k);
      ValueInjective(x, y);
    }
  }

  lemma FirstOfAll()
    ensures Power(0, 0x8000_0000)
  {
    ValueOfOne();
    hide Value;
  }

  lemma {:induction false} NoShorterPeriod()
    ensures !Returns(PERIOD / 65537) && !Returns(PERIOD / 257) && !Returns(PERIOD / 17)
    ensures !Returns(PERIOD / 5) && !Returns(PERIOD / 3)
  {
    FirstPower();
    PowersToFirst();
    PowersToSecond();
    PowersToThird();
    PowersToPeriod();
    FirstOfAll();
    hide Power, Returns;
    Apart(65535, 1, 0x8385_2d0f, 0x4000_0000);
    Apart(255 * 65537, 65537, 0x4630_d51a, 0xac7a_15a7);
    Apart(15 * 257 * 65537, 257 * 65537, 0x0c28_3ca0, 0x316b_5ba1);
    Apart(3 * 17 * 257 * 65537, 17 * 257 * 65537, 0xbd43_6701, 0x3d43_6701);
    Apart(5 * 17 * 257 * 65537, 0, 0xc736_eb52, 0x8000_0000);
  }

  lemma RemainderMultiple(a: nat, b: nat, k: nat) returns (q: nat, r: nat)
    requires b > 0
    ensures a * k == r * k + q * (b * k) && r == a % b
  {
    q, r := a / b, a % b;
  }

  lemma ReturnsRemainder(a: nat, q: nat, b: nat, n: nat, r: nat)
    requires Returns(a) && Returns(b) && n == q * b && a == r + n
    ensures Returns(r)
  {
    hide *;
    ReturnsMultiple(b, q, n);
    ReturnsAdd(r, n);
  }

  /** Two multiples of k after which the power returns, one by a prime and one by less, leave k itself. */
  lemma {:induction false} Descend(p: nat, pk: nat, r: nat, rk: nat, k: nat)
    requires Prime(p) && 0 < r < p && pk == p * k && rk == r * k
    requires Returns(pk) && Returns(rk)
    ensures Returns(k)
    decreases r
  {
    hide Returns;
    if r > 1 {
      var q, r' := RemainderMultiple(p, r, k);
      hide Prime;
      ReturnsRemainder(pk, q, rk, q * rk, r' * k);
      Descend(p, pk, r', r' * k, k);
    }
  }

  lemma {:induction false} PrimeDivides(p: nat, k: nat, m: nat)
    requires Prime(p) && p * k == PERIOD && !Returns(k) && Returns(m)
    ensures m % p == 0
  {
    hide Returns, Prime;
    assert p > 1 by { PrimeAboveOne(p); }
    var q, r := RemainderMultiple(m, p, k);
    if r > 0 {
      PeriodReturns();
      ReturnsMultiple(m, k, m * k);
      ReturnsRemainder(m * k, q, PERIOD, q * PERIOD, r * k);
      Descend(p, PERIOD, r, r * k, k);
    }
  }

  lemma PrimeAboveOne(p: nat)
    requires Prime(p)
    ensures p > 1
  {}

  lemma {:induction false} Trial3()
    ensures Trial(65537, 3, 32)
  {
    assert Trial(65537, 3, 8);
    assert Trial(65537, 19, 8);
    assert Trial(65537, 35, 8);
    assert Trial(65537, 51, 8);
    hide Trial;
    TrialAppend(65537, 3, 8, 8);
    TrialAppend(65537, 3, 16, 8);
    TrialAppend(65537, 3, 24, 8);
  }

  lemma {:induction false} Trial67()
    ensures Trial(65537, 67, 32)
  {
    assert Trial(65537, 67, 8);
    assert Trial(65537, 83, 8);
    assert Trial(65537, 99, 8);
    assert Trial(65537, 115, 8);
    hide Trial;
    TrialAppend(65537, 67, 8, 8);
    TrialAppend(65537, 67, 16, 8);
    TrialAppend(65537, 67, 24, 8);
  }

  lemma {:induction false} Trial131()
    ensures Trial(65537, 131, 32)
  {
    assert Trial(65537, 131, 8);
    assert Trial(65537, 147, 8);
    assert Trial(65537, 163, 8);
    assert Trial(65537, 179, 8);
    hide Trial;
    TrialAppend(65537, 131, 8, 8);
    TrialAppend(65537, 131, 16, 8);
    TrialAppend(65537, 131, 24, 8);
  }

  lemma {:induction false} Trial195()
    ensures Trial(65537, 195, 32)
  {
    assert Trial(65537, 195, 8);
    assert Trial(65537, 211, 8);
    assert Trial(65537, 227, 8);
    assert Trial(65537, 243, 8);
    hide Trial;
    TrialAppend(65537, 195, 8, 8);
    TrialAppend(65537, 195, 16, 8);
    TrialAppend(65537, 195, 24, 8);
  }

  lemma {:induction false} TrialOf65537()
    ensures Trial(65537, 3, 128)
  {
    hide Trial;
    Trial3();
    Trial67();
    Trial131();
    Trial195();
    TrialAppend(65537, 3, 32, 32);
    TrialAppend(65537, 3, 64, 32);
    TrialAppend(65537, 3, 96, 32);
  }

  lemma {:induction false} FactorsArePrime()
    ensures Prime(3) && Prime(5) && Prime(17) && Prime(257) && Prime(65537)
  {
    hide Prime;
    PrimeByTrial(3, 0);
    PrimeByTrial(5, 1);
    PrimeByTrial(17, 2);
    PrimeByTrial(257, 8);
    TrialOf65537();
    PrimeByTrial(65537, 128);
  }

  lemma {:induction false} FactorsDivide(m: nat)
    requires m % 3 == 0 && m % 5 == 0 && m % 17 == 0 && m % 257 == 0 && m % 65537 == 0
    ensures m % PERIOD == 0
  {
    DivideTogether(m, 3, 5, 2, 1);
    DivideTogether(m, 15, 17, 8, 7);
    DivideTogether(m, 257, 255, 128, 129);
    DivideTogether(m, 65537, 65535, 32768, 32769);
  }

  /** The powers of x return to 1 after each 2^32 - 1 steps, and at no other time. */
  lemma {:induction false} ReturnsIff(m: nat)
    ensures Returns(m) <==> m % 0xffff_ffff == 0
  {
    hide Returns, Prime;
    PeriodReturns();
    if m % PERIOD == 0 {
      ReturnsMultiple(PERIOD, m / PERIOD, m);
    }
    if Returns(m) {
      NoShorterPeriod();
      FactorsArePrime();
      PrimeDivides(3, PERIOD / 3, m);
      PrimeDivides(5, PERIOD / 5, m);
      PrimeDivides(17, PERIOD / 17, m);
      PrimeDivides(257, PERIOD / 257, m);
      PrimeDivides(65537, PERIOD / 65537, m);
      FactorsDivide(m);
    }
  }

  // ----- strings of zero bytes -----

  const INVERSE: bv32 := 0xe572_48ce

  lemma InverseOfAllOnes()
    ensures Mul(INVERSE, 0xffff_ffff) == 0x8000_0000
  {}

  lemma {:induction false} AllOnesReturns(m: nat)
    ensures Steps(ALL_ONES, m) == ALL_ONES <==> Returns(m)
  {
    hide Steps, Value, Mul, Horner;
    ValueOfOne();
    ValueOfAllOnes();
    InverseOfAllOnes();
    ValueOfMul(INVERSE, 0xffff_ffff);
    HornerSteps(Value(INVERSE), 32, ALL_ONES, 0, m);
    StepsNonzero(0, m);
    StepsMultiply(ALL_ONES, m);
    TimesOne(ALL_ONES);
  }

  lemma {:induction false} RegisterOfZeros(r: nat, n: nat)
    ensures Register(r, seq(n, _ => 0)) == Steps(r, 8 * n)
    decreases n
  {
    hide Steps, Xor;
    if n == 0 {
      assert Steps(r, 0) == r by { StepsNone(r); }
    } else {
      var s: seq<Byte> := seq(n, _ => 0);
      assert s[0] == 0 && s[1..] == seq(n - 1, _ => 0);
      XorZero(r);
      RegisterOfZeros(Steps(r, 8), n - 1);
      StepsAdd(r, 8, 8 * (n - 1));
    }
  }

  lemma StepsNone(r: nat)
    ensures Steps(r, 0) == r
  {}

  lemma {:induction false} EightIsCoprime(n: nat)
    ensures (8 * n) % PERIOD == 0 <==> n % PERIOD == 0
  {
    if (8 * n) % PERIOD == 0 {
      var q := Divides(8 * n, PERIOD);
      assert n == PERIOD * (0x2000_0000 * q - n);
      MultipleMod(PERIOD, 0x2000_0000 * q - n);
    }
    if n % PERIOD == 0 {
      var q := Divides(n, PERIOD);
      assert 8 * n == PERIOD * (8 * q);
      MultipleMod(PERIOD, 8 * q);
    }
  }

  /** The CRC of a string of zero bytes is 0 exactly if their number is a multiple of 2^32 - 1: the preset tells every
      shorter run of zeros from the empty string. */
  lemma {:induction false} CrcOfZeros(n: nat)
    ensures Crc(0, seq(n, _ => 0)) == 0 <==> n % 0xffff_ffff == 0
  {
    hide Steps, Register, Xor, Returns;
    CrcIsRegister(0, seq(n, _ => 0));
    assert Xor(0, ALL_ONES) == ALL_ONES by { ZeroXor(ALL_ONES); }
    RegisterOfZeros(ALL_ONES, n);
    XorCancel(Steps(ALL_ONES, 8 * n), ALL_ONES);
    AllOnesReturns(8 * n);
    ReturnsIff(8 * n);
    EightIsCoprime(n);
  }

  /** The shortest run of zero bytes that has the CRC of the empty string. */
  lemma {:induction false} LongRunOfZeros()
    ensures Crc(0, seq(0xffff_ffff, _ => 0)) == 0 == Crc(0, [])
  {
    CrcOfZeros(0xffff_ffff);
    CrcOfZeros(0);
    assert seq(0, _ => 0) == [];
  }

  // ----- errors of two bits -----

  lemma BitThirtyOne()
    ensures Shl(1, 31) == ONE
  {
    PowersOfWord();
    ShlIsMul(1, 31);
    hide Shl, Pow2;
  }

  /** A lone bit is a power of x once it has been taken in. */
  lemma {:induction false} LoneBit(p: nat, n: nat)
    requires p <= n
    ensures Steps(Shl(1, p), n) == X(31 + (n - p))
  {
    hide Steps, Shl;
    BitThirtyOne();
    StepsShift(1, 31);
    StepsAdd(ONE, 31, n - p);
    StepsAdd(Shl(1, p), p, n - p);
    StepsShift(1, p);
  }

  lemma {:induction false} PowersAgreeIff(m: nat, k: nat)
    ensures X(m + k) == X(m) <==> Returns(k)
  {
    hide Returns, X, Times;
    if Returns(k) { ReturnsAdd(m, k); }
    if X(m + k) == X(m) {
      var c := m * (PERIOD - 1);
      assert c + m == m * PERIOD && c + (m + k) == k + m * PERIOD;
      PowersAdd(c, m + k);
      PowersAdd(c, m);
      SameReturns(k, m);
    }
  }

  lemma SameReturns(k: nat, m: nat)
    requires X(k + m * PERIOD) == X(m * PERIOD)
    ensures Returns(k)
  {
    hide X;
    PeriodReturns();
    ReturnsMultiple(PERIOD, m, m * PERIOD);
    ReturnsAdd(k, m * PERIOD);
  }

  /** The strings differ in the bits p and q and in no other. */
  ghost predicate DifferInTwo(x: BitString, y: BitString, p: nat, q: nat) {
    |x| == |y| && p < q < |x| && forall i :: 0 <= i < |x| ==> (x[i] != y[i] <==> i == p || i == q)
  }

  lemma {:induction false} DifferenceOfTwo(x: BitString, y: BitString, p: nat, q: nat)
    requires DifferInTwo(x, y, p, q)
    ensures Xor(Word(x), Word(y)) == Xor(Shl(1, p), Shl(1, q))
    decreases p
  {
    hide Xor, Word;
    var x', y' := x[1..], y[1..];
    XorWordCons(x, y);
    assert forall i :: 0 <= i < |x'| ==> x'[i] == x[i + 1] && y'[i] == y[i + 1];
    XorDigits(0, if p == 0 then 0 else Shl(1, p - 1), 0, Shl(1, q - 1));
    if p > 0 {
      DifferenceOfTwo(x', y', p - 1, q - 1);
    } else {
      DifferenceOfOne(x', y', q - 1);
      XorDigits(1, 0, 0, Shl(1, q - 1));
    }
  }

  lemma {:induction false} DifferenceOfOne(x: BitString, y: BitString, q: nat)
    requires |x| == |y| && q < |x| && forall i :: 0 <= i < |x| ==> (x[i] != y[i] <==> i == q)
    ensures Xor(Word(x), Word(y)) == Shl(1, q) == Xor(0, Shl(1, q))
    decreases q
  {
    hide Xor, Word;
    ZeroXor(Shl(1, q));
    var x', y' := x[1..], y[1..];
    XorWordCons(x, y);
    assert forall i :: 0 <= i < |x'| ==> x'[i] == x[i + 1] && y'[i] == y[i + 1];
    if q > 0 {
      DifferenceOfOne(x', y', q - 1);
    } else {
      assert x' == y';
      XorSelf(Word(x'));
    }
  }

  /** Two strings of one length that differ in two bits, in transmission order, share their CRC exactly if the distance
      of the bits is a multiple of 2^32 - 1. Below half a gigabyte every error of two bits is detected. */
  lemma {:induction false} TwoBitErrors(c: nat, a: seq<Byte>, b: seq<Byte>, p: nat, q: nat)
    requires |a| == |b| && DifferInTwo(Transmitted(a), Transmitted(b), p, q)
    ensures Crc(c, a) == Crc(c, b) <==> (q - p) % 0xffff_ffff == 0
  {
    hide *;
    var n := 8 * |a|;
    TransmittedLength(a);
    TwoInside(Transmitted(a), Transmitted(b), p, q);
    SharedCrcIff(c, a, b);
    DifferenceOfTwo(Transmitted(a), Transmitted(b), p, q);
    StepsLinear(Shl(1, p), Shl(1, q), n);
    LoneBit(p, n);
    LoneBit(q, n);
    XorCancel(X(31 + (n - p)), X(31 + (n - q)));
    PowersAgreeIff(31 + (n - q), q - p);
    ReturnsIff(q - p);
  }

  lemma TwoInside(x: BitString, y: BitString, p: nat, q: nat)
    requires DifferInTwo(x, y, p, q)
    ensures p < q < |x|
  {}
}
