/** Machine words as the numbers they hold, digit by digit, so that values of the checksums, which are defined on
    natural numbers, can be computed on bit vectors. */
module Words {
  import opened Bits

  function Half(x: bv32): bv32 { x >> 1 }

  function Plus(x: bv32, y: bv32): bv32 { x ^ y }

  function Odd(x: bv32): nat { if x & 1 == 1 then 1 else 0 }

  lemma HalfLess(x: bv32)
    ensures x != 0 ==> Half(x) < x
    ensures Half(0) == 0 && Odd(0) == 0 && Odd(x) < 2
    ensures x == 0 <==> Half(x) == 0 && Odd(x) == 0
  {}

  /** The number a word holds. */
  function Value(x: bv32): nat
    decreases x
  {
    HalfLess(x);
    if x == 0 then 0 else Odd(x) + 2 * Value(Half(x))
  }

  lemma Digits(x: bv32)
    ensures Value(x) == Odd(x) + 2 * Value(Half(x)) && Odd(x) < 2
  {
    HalfLess(x);
    hide Half, Odd;
  }

  lemma {:induction false} ValueZero(x: bv32)
    ensures Value(x) == 0 <==> x == 0
    decreases x
  {
    hide Half, Odd;
    HalfLess(x);
    if x != 0 { ValueZero(Half(x)); }
  }

  lemma SameWord(x: bv32, y: bv32)
    requires Half(x) == Half(y) && Odd(x) == Odd(y)
    ensures x == y
  {}

  lemma {:induction false} ValueInjective(x: bv32, y: bv32)
    requires Value(x) == Value(y)
    ensures x == y
    decreases x
  {
    hide *;
    ValueZero(x);
    ValueZero(y);
    if x != 0 {
      HalfLess(x);
      Digits(x);
      Digits(y);
      ValueInjective(Half(x), Half(y));
      SameWord(x, y);
    }
  }

  lemma OddOfPlus(x: bv32, y: bv32)
    ensures Odd(Plus(x, y)) == (if Odd(x) == Odd(y) then 0 else 1)
    ensures Half(Plus(x, y)) == Plus(Half(x), Half(y))
    ensures Plus(0, y) == y
  {}

  lemma {:induction false} ValueOfPlus(x: bv32, y: bv32)
    ensures Value(Plus(x, y)) == Xor(Value(x), Value(y))
    decreases x
  {
    hide *;
    OddOfPlus(x, y);
    if x == 0 {
      ValueZero(x);
      ZeroXor(Value(y));
    } else {
      HalfLess(x);
      Digits(x);
      Digits(y);
      Digits(Plus(x, y));
      ValueOfPlus(Half(x), Half(y));
      XorDigits(Odd(x), Value(Half(x)), Odd(y), Value(Half(y)));
    }
  }

  lemma ZeroXor(x: nat)
    ensures Xor(0, x) == x
  {}

  lemma Halves(x: bv32)
    ensures Half(x) == x >> 1 && Half(x >> 1) == x >> 2 && Half(x >> 2) == x >> 3 && Half(x >> 3) == x >> 4
  {}

  lemma FourDigits(x: bv32)
    ensures Value(x) == 8 * Odd(x >> 3) + 4 * Odd(x >> 2) + 2 * Odd(x >> 1) + Odd(x) + 16 * Value(x >> 4)
  {
    hide Value, Half, Odd;
    Halves(x);
    Digits(x);
    Digits(x >> 1);
    Digits(x >> 2);
    Digits(x >> 3);
  }

  /** The characters 1 to 9. */
  lemma ValuesOfDigits()
    ensures Value(0x31) == 0x31 && Value(0x32) == 0x32 && Value(0x33) == 0x33 && Value(0x34) == 0x34
    ensures Value(0x35) == 0x35 && Value(0x36) == 0x36 && Value(0x37) == 0x37 && Value(0x38) == 0x38
    ensures Value(0x39) == 0x39
  {
    hide Value;
    FourDigits(0x31);
    FourDigits(0x32);
    FourDigits(0x33);
    FourDigits(0x34);
    FourDigits(0x35);
    FourDigits(0x36);
    FourDigits(0x37);
    FourDigits(0x38);
    FourDigits(0x39);
    FourDigits(3);
    ValueZero(0);
  }

  lemma LiftedDigits(x: bv32)
    requires x < 0x1000_0000
    ensures Odd(x << 4) == 0 && Odd(Half(x << 4)) == 0 && Odd(Half(Half(x << 4))) == 0
    ensures Odd(Half(Half(Half(x << 4)))) == 0 && Half(Half(Half(Half(x << 4)))) == x
  {}

  lemma FourZeros(y: bv32)
    requires Odd(y) == 0 && Odd(Half(y)) == 0 && Odd(Half(Half(y))) == 0 && Odd(Half(Half(Half(y)))) == 0
    ensures Value(y) == 16 * Value(Half(Half(Half(Half(y)))))
  {
    hide *;
    Digits(y);
    Digits(Half(y));
    Digits(Half(Half(y)));
    Digits(Half(Half(Half(y))));
  }

  lemma Lifted(x: bv32)
    requires x < 0x1000_0000
    ensures Value(x << 4) == 16 * Value(x)
  {
    hide Value;
    LiftedDigits(x);
    FourZeros(x << 4);
  }

  lemma ByteLifts(x: bv32)
    requires x < 0x100
    ensures x << 4 < 0x1000 && x << 4 << 4 < 0x1_0000 && x << 4 << 4 << 4 < 0x10_0000
    ensures x << 4 << 4 << 4 << 4 == x << 16 && (x << 16) >> 24 == 0
  {}

  lemma {:induction false} ValueOfLifted(x: bv32)
    requires x < 0x100
    ensures Value(x << 16) == 0x1_0000 * Value(x) && (x << 16) >> 24 == 0
  {
    hide Value;
    ByteLifts(x);
    Lifted(x);
    Lifted(x << 4);
    Lifted(x << 4 << 4);
    Lifted(x << 4 << 4 << 4);
  }

  /** `c` or nothing, by the lowest bit of `x`, without a branch. */
  function Mask(c: bv32, x: bv32): bv32 { c & (0 - (x & 1)) }

  lemma MaskIsChoice(c: bv32, x: bv32)
    ensures Mask(c, x) == if Odd(x) == 1 then c else 0
  {
    if x & 1 == 1 {
      assert 0 - (x & 1) == 0xffff_ffff;
    } else {
      assert x & 1 == 0;
    }
  }
}
