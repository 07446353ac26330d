/** A value of the CRC-24 of misc.c, worked out: the registers after each octet of "123456789" on machine words, and
    that they are the remainders of the octets so far. */
module Crc24Check {
  import opened Bits
  import opened Crc24
  import opened Words

  // ----- the register on machine words -----

  function Twice(x: bv32): bv32 { x << 1 }

  lemma TwiceDigits(x: bv32)
    requires x < 0x8000_0000
    ensures Half(Twice(x)) == x && Odd(Twice(x)) == 0
  {}

  lemma ValueOfTwice(x: bv32)
    requires x < 0x8000_0000
    ensures Value(Twice(x)) == 2 * Value(x)
  {
    TwiceDigits(x);
    hide Half, Odd, Twice, Value;
    Digits(Twice(x));
  }

  function Drop(x: bv32): bv32 { x >> 4 }

  /** The word shifted right, and what falls off. */
  lemma Sixteenth(x: bv32) returns (d: nat)
    ensures d < 16 && Value(x) == d + 16 * Value(Drop(x))
  {
    FourDigits(x);
    hide Value;
    d := Value(x) - 16 * Value(x >> 4);
  }

  lemma TwentyBits(x: bv32) returns (low: nat)
    ensures low < 0x10_0000 && Value(x) == low + 0x10_0000 * Value(Drop(Drop(Drop(Drop(Drop(x))))))
  {
    hide *;
    var a := Sixteenth(x);
    var b := Sixteenth(Drop(x));
    var c := Sixteenth(Drop(Drop(x)));
    var d := Sixteenth(Drop(Drop(Drop(x))));
    var e := Sixteenth(Drop(Drop(Drop(Drop(x)))));
    low := a + 16 * (b + 16 * (c + 16 * (d + 16 * e)));
  }

  lemma FourBits(x: bv32) returns (low: nat)
    requires Half(Half(Half(Half(x)))) == 0
    ensures low < 8 && Value(x) == low + 8 * Odd(Half(Half(Half(x)))) && Odd(Half(Half(Half(x)))) < 2
  {
    hide *;
    Digits(x);
    Digits(Half(x));
    Digits(Half(Half(x)));
    Digits(Half(Half(Half(x))));
    ValueZero(0);
    low := Odd(x) + 2 * (Odd(Half(x)) + 2 * Odd(Half(Half(x))));
  }

  lemma ShiftTogether(x: bv32, y: bv32)
    requires x >> 24 == 0 && y == Drop(Drop(Drop(Drop(Drop(x)))))
    ensures Half(Half(Half(y))) == x >> 23 && Half(Half(Half(Half(y)))) == 0
  {}

  lemma {:induction false} BitTwentyThree(x: bv32) returns (low: nat)
    requires x >> 24 == 0
    ensures low < 0x80_0000 && Value(x) == low + 0x80_0000 * Odd(x >> 23) && Odd(x >> 23) < 2
  {
    hide *;
    var y := Drop(Drop(Drop(Drop(Drop(x)))));
    ShiftTogether(x, y);
    var a := TwentyBits(x);
    var b := FourBits(y);
    low := a + 0x10_0000 * b;
  }

  lemma ValueOfGenerator()
    ensures Value(0x186_4cfb) == CRC24_POLY
  {
    hide Value;
    FourDigits(0x186_4cfb);
    FourDigits(0x18_64cf);
    FourDigits(0x1_864c);
    FourDigits(0x1864);
    FourDigits(0x186);
    FourDigits(0x18);
    FourDigits(1);
    ValueZero(0);
  }

  function ShiftWord(x: bv32): bv32 { Plus(Twice(x), Mask(0x186_4cfb, x >> 23)) }

  lemma ShiftIs(crc: nat, low: nat, b: nat)
    requires crc == low + 0x80_0000 * b && low < 0x80_0000 && b < 2
    ensures Shift(crc) == if b == 1 then Xor(2 * crc, CRC24_POLY) else 2 * crc
  {
    hide Xor;
  }

  lemma ShiftWordIs(x: bv32)
    ensures ShiftWord(x) == Plus(Twice(x), Mask(0x186_4cfb, x >> 23))
    ensures x >> 24 == 0 ==> x < 0x8000_0000 && ShiftWord(x) >> 24 == 0
  {}

  lemma {:induction false} ValueOfShift(x: bv32)
    requires x >> 24 == 0
    ensures Value(ShiftWord(x)) == Shift(Value(x)) && ShiftWord(x) >> 24 == 0
  {
    ShiftWordIs(x);
    hide *;
    var low := BitTwentyThree(x);
    ShiftIs(Value(x), low, Odd(x >> 23));
    MaskIsChoice(0x186_4cfb, x >> 23);
    ValueOfTwice(x);
    ValueOfGenerator();
    ValueOfPlus(Twice(x), 0x186_4cfb);
    ValueOfPlus(Twice(x), 0);
    ValueZero(0);
    XorZero(Value(Twice(x)));
  }

  // ----- octets -----

  function FourShifts(x: bv32): bv32 { ShiftWord(ShiftWord(ShiftWord(ShiftWord(x)))) }

  ghost predicate InStep(a: nat, x: bv32) { x >> 24 == 0 && Remainder(a, Value(x)) }

  lemma {:induction false} OneShift(a: nat, x: bv32)
    requires InStep(a, x)
    ensures InStep(2 * a, ShiftWord(x))
  {
    hide ShiftWord, Shift, Value, Remainder;
    ValueOfShift(x);
    ShiftMultiplies(a, Value(x));
  }

  lemma {:induction false} FourShiftsInStep(a: nat, x: bv32)
    requires InStep(a, x)
    ensures InStep(16 * a, FourShifts(x))
  {
    hide InStep, ShiftWord;
    OneShift(a, x);
    OneShift(2 * a, ShiftWord(x));
    OneShift(4 * a, ShiftWord(ShiftWord(x)));
    OneShift(8 * a, ShiftWord(ShiftWord(ShiftWord(x))));
  }

  lemma SumStaysLow(x: bv32, c: bv32)
    requires x >> 24 == 0 && c >> 24 == 0
    ensures Plus(x, c) >> 24 == 0
  {}

  lemma ShlEight(a: nat)
    ensures Shl(a, 8) == 16 * (16 * a)
  {
    ShlIsMul(a, 8);
    assert Pow2(4) == 16;
    assert Pow2(8) == 256;
    hide Shl, Pow2;
  }

  lemma ShlSixteen(b: nat)
    ensures Shl(b, 16) == 0x1_0000 * b
  {
    ShlIsMul(b, 16);
    PowerOfTop();
    hide Shl, Pow2;
  }

  function OctetWord(x: bv32, c: bv32): bv32 { FourShifts(FourShifts(Plus(x, c << 16))) }

  lemma {:induction false} NextOctet(s: seq<Octet>, x: bv32, b: Octet, c: bv32)
    requires InStep(Dividend(s), x) && c < 0x100 && Value(c) == b
    ensures InStep(Dividend(s + [b]), OctetWord(x, c))
  {
    hide Dividend, FourShifts, Remainder, Shl, Xor, Value, Plus;
    var a := Xor(Dividend(s), Shl(b, 16));
    var y := c << 16;
    ValueOfLifted(c);
    ShlSixteen(b);
    AddOctet(Dividend(s), Value(x), b);
    ValueOfPlus(x, y);
    SumStaysLow(x, y);
    assert InStep(a, Plus(x, y));
    hide InStep;
    FourShiftsInStep(a, Plus(x, y));
    FourShiftsInStep(16 * a, FourShifts(Plus(x, y)));
    DividendSnoc(s, b);
    ShlEight(a);
  }

  // ----- the check value -----

  lemma ValueOfPreset()
    ensures InStep(Dividend([]), 0xb7_04ce)
  {
    FourDigits(0xb7_04ce);
    FourDigits(0xb_704c);
    FourDigits(0xb704);
    FourDigits(0xb70);
    FourDigits(0xb7);
    FourDigits(0xb);
    ValueZero(0);
    SelfRemainder();
    DividendStart([]);
    hide Value, Dividend, Remainder;
  }

  lemma ValueOfResult()
    ensures Value(0x21_cf02) == 0x21_cf02
  {
    hide Value;
    FourDigits(0x21_cf02);
    FourDigits(0x2_1cf0);
    FourDigits(0x21cf);
    FourDigits(0x21c);
    FourDigits(0x21);
    FourDigits(2);
    ValueZero(0);
  }

  lemma Octets1To3()
    ensures OctetWord(0xb7_04ce, 0x31) == 0x2e_ba48
    ensures OctetWord(0x2e_ba48, 0x32) == 0x4d_6151
    ensures OctetWord(0x4d_6151, 0x33) == 0x09_df67
  {}

  lemma Octets4To6()
    ensures OctetWord(0x09_df67, 0x34) == 0xa2_d343
    ensures OctetWord(0xa2_d343, 0x35) == 0xba_353a
    ensures OctetWord(0xba_353a, 0x36) == 0x34_1a7c
  {}

  lemma Octets7To9()
    ensures OctetWord(0x34_1a7c, 0x37) == 0x16_e5f6
    ensures OctetWord(0x16_e5f6, 0x38) == 0x51_953c
    ensures OctetWord(0x51_953c, 0x39) == 0x21_cf02
  {}

  lemma {:induction false} ThreeOctets(s: seq<Octet>, x: bv32, b: Octet, c: bv32, b': Octet, c': bv32, b'': Octet,
          c'': bv32)
    requires InStep(Dividend(s), x)
    requires c < 0x100 && c' < 0x100 && c'' < 0x100 && Value(c) == b && Value(c') == b' && Value(c'') == b''
    ensures InStep(Dividend(s + [b, b', b'']), OctetWord(OctetWord(OctetWord(x, c), c'), c''))
  {
    hide *;
    NextOctet(s, x, b, c);
    NextOctet(s + [b], OctetWord(x, c), b', c');
    NextOctet(s + [b] + [b'], OctetWord(OctetWord(x, c), c'), b'', c'');
    assert s + [b] + [b'] + [b''] == s + [b, b', b''];
  }

  lemma {:induction false} DividendOfDigits()
    ensures InStep(Dividend([] + [0x31, 0x32, 0x33] + [0x34, 0x35, 0x36] + [0x37, 0x38, 0x39]), 0x21_cf02)
  {
    hide *;
    ValueOfPreset();
    ValuesOfDigits();
    Octets1To3();
    Octets4To6();
    Octets7To9();
    ThreeOctets([], 0xb7_04ce, 0x31, 0x31, 0x32, 0x32, 0x33, 0x33);
    ThreeOctets([] + [0x31, 0x32, 0x33], 0x09_df67, 0x34, 0x34, 0x35, 0x35, 0x36, 0x36);
    ThreeOctets([] + [0x31, 0x32, 0x33] + [0x34, 0x35, 0x36], 0x34_1a7c, 0x37, 0x37, 0x38, 0x38, 0x39, 0x39);
  }

  lemma InStepRemains(a: nat, x: bv32)
    ensures InStep(a, x) ==> Remainder(a, Value(x))
  {}

  /** The CRC-24 of "123456789", the only remainder it leaves. */
  lemma {:induction false} CheckValue(r: nat)
    requires Remainder(Dividend([0x31, 0x32, 0x33, 0x34, 0x35, 0x36, 0x37, 0x38, 0x39]), r)
    ensures r == 0x21_cf02
  {
    hide *;
    var s: seq<Octet> := [0x31, 0x32, 0x33, 0x34, 0x35, 0x36, 0x37, 0x38, 0x39];
    assert s == [] + [0x31, 0x32, 0x33] + [0x34, 0x35, 0x36] + [0x37, 0x38, 0x39];
    DividendOfDigits();
    InStepRemains(Dividend(s), 0x21_cf02);
    ValueOfResult();
    RemainderUnique(Dividend(s), r, 0x21_cf02);
  }
}
