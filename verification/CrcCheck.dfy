/** Values of the CRC-32 of misc.c, worked out on machine words: the residue of data followed by its CRC, and the check
    value of "123456789". */
module CrcCheck {
  import opened Bits
  import opened Crc32
  import opened CrcBursts
  import opened CrcPowers
  import opened CrcWords
  import opened Octets
  import opened Words

  lemma {:induction false} HornerOfZero(n: nat, acc: nat)
    ensures Horner(0, n, 0, acc) == Steps(acc, n)
    decreases n
  {
    hide Step, Xor;
    if n > 0 {
      XorZero(Step(acc));
      HornerOfZero(n - 1, Step(acc));
    }
  }

  function Advance(x: bv32): bv32 { Eight(0, 0, x) }

  lemma {:induction false} AdvanceIsSteps(x: bv32)
    ensures Steps(Value(x), 8) == Value(Advance(x))
  {
    hide *;
    AdvanceIsEight(x);
    EightTurns(0, 0, 0, x);
    ProductTurn(Next(0), 0, 0, Eight(0, 0, x));
    ValueOfProduct(0, 8, 0, x);
    ValueZero(0);
    HornerOfZero(8, Value(x));
  }

  lemma AdvanceIsEight(x: bv32)
    ensures Advance(x) == Eight(0, 0, x)
  {}

  // ----- the residue -----

  lemma {:induction false} StepsOfAllOnes()
    ensures Steps(ALL_ONES, 32) == Value(0xdebb_20e3)
  {
    hide Steps, Value;
    ValueOfAllOnes();
    AdvanceIsSteps(0xffff_ffff);
    AdvanceIsSteps(0x2dfd_1072);
    AdvanceIsSteps(0xbe26_ed00);
    AdvanceIsSteps(0x00be_26ed);
    StepsAdd(ALL_ONES, 8, 24);
    StepsAdd(Value(0x2dfd_1072), 8, 16);
    StepsAdd(Value(0xbe26_ed00), 8, 8);
  }

  lemma ValueOfResidue()
    ensures Value(0x2144_df1c) == 0x2144_df1c
  {
    hide Value;
    FourDigits(0x2144_df1c);
    FourDigits(0x214_4df1);
    FourDigits(0x21_44df);
    FourDigits(0x2_144d);
    FourDigits(0x2144);
    FourDigits(0x214);
    FourDigits(0x21);
    FourDigits(2);
    ValueZero(0);
  }

  /** Data followed by its own CRC, lowest byte first, always has the CRC 0x2144df1c. */
  lemma {:induction false} Residue(data: seq<Byte>, v: U32)
    requires v == Crc(0, data)
    ensures Crc(0, data + LittleEndian(v, 4)) == 0x2144_df1c
  {
    hide Steps, Value, Register, Xor, LittleEndian, Crc;
    ResidueIsConstant(data, v);
    CrcIsRegister(0, data + LittleEndian(v, 4));
    StepsOfAllOnes();
    ValueOfAllOnes();
    ValueOfResidue();
    ValueOfPlus(0xdebb_20e3, 0xffff_ffff);
    assert Plus(0xdebb_20e3, 0xffff_ffff) == 0x2144_df1c;
  }

  // ----- the check value -----

  lemma {:induction false} NextByte(r: bv32, b: bv32, v: Byte, s: seq<Byte>)
    requires Value(b) == v
    ensures Register(Value(r), [v] + s) == Register(Value(Advance(Plus(r, b))), s)
  {
    hide Steps, Value, Advance, Plus, Xor;
    assert ([v] + s)[1..] == s;
    ValueOfPlus(r, b);
    AdvanceIsSteps(Plus(r, b));
  }

  lemma Bytes1To3()
    ensures Advance(Plus(0xffff_ffff, 0x31)) == 0x7c23_1048
    ensures Advance(Plus(0x7c23_1048, 0x32)) == 0xb0ac_bb32
    ensures Advance(Plus(0xb0ac_bb32, 0x33)) == 0x77b7_9c2d
  {}

  lemma Bytes4To6()
    ensures Advance(Plus(0x77b7_9c2d, 0x34)) == 0x641c_1f5c
    ensures Advance(Plus(0x641c_1f5c, 0x35)) == 0x340a_c5e3
    ensures Advance(Plus(0x340a_c5e3, 0x36)) == 0xf68d_2c9e
  {}

  lemma Bytes7To9()
    ensures Advance(Plus(0xf68d_2c9e, 0x37)) == 0xaffc_9660
    ensures Advance(Plus(0xaffc_9660, 0x38)) == 0x651f_2550
    ensures Advance(Plus(0x651f_2550, 0x39)) == 0x340b_c6d9
  {}

  lemma ValueOfCheck()
    ensures Value(0xcbf4_3926) == 0xcbf4_3926
  {
    hide Value;
    FourDigits(0xcbf4_3926);
    FourDigits(0xcbf_4392);
    FourDigits(0xcb_f439);
    FourDigits(0xc_bf43);
    FourDigits(0xcbf4);
    FourDigits(0xcbf);
    FourDigits(0xcb);
    FourDigits(0xc);
    ValueZero(0);
  }

  lemma {:induction false} ThreeBytes(r: bv32, b: bv32, v: Byte, b': bv32, v': Byte, b'': bv32, v'': Byte, s: seq<Byte>)
    requires Value(b) == v && Value(b') == v' && Value(b'') == v''
    ensures Register(Value(r), [v, v', v''] + s)
         == Register(Value(Advance(Plus(Advance(Plus(Advance(Plus(r, b)), b')), b''))), s)
  {
    hide *;
    assert [v, v', v''] + s == [v] + ([v'] + ([v''] + s));
    NextByte(r, b, v, [v'] + ([v''] + s));
    NextByte(Advance(Plus(r, b)), b', v', [v''] + s);
    NextByte(Advance(Plus(Advance(Plus(r, b)), b')), b'', v'', s);
  }

  lemma RegisterEnds(r: nat)
    ensures Register(r, []) == r
  {}

  lemma {:induction false} RegisterOfDigits()
    ensures Register(Value(0xffff_ffff), [0x31, 0x32, 0x33] + ([0x34, 0x35, 0x36] + ([0x37, 0x38, 0x39] + [])))
         == Value(0x340b_c6d9)
  {
    hide *;
    ValuesOfDigits();
    Bytes1To3();
    Bytes4To6();
    Bytes7To9();
    ThreeBytes(0xffff_ffff, 0x31, 0x31, 0x32, 0x32, 0x33, 0x33, [0x34, 0x35, 0x36] + ([0x37, 0x38, 0x39] + []));
    ThreeBytes(0x77b7_9c2d, 0x34, 0x34, 0x35, 0x35, 0x36, 0x36, [0x37, 0x38, 0x39] + []);
    ThreeBytes(0xf68d_2c9e, 0x37, 0x37, 0x38, 0x38, 0x39, 0x39, []);
    RegisterEnds(Value(0x340b_c6d9));
  }

  lemma Inverted()
    ensures Plus(0x340b_c6d9, 0xffff_ffff) == 0xcbf4_3926
  {}

  /** The CRC of "123456789". */
  lemma {:induction false} CheckValue()
    ensures Crc(0, [0x31, 0x32, 0x33, 0x34, 0x35, 0x36, 0x37, 0x38, 0x39]) == 0xcbf4_3926
  {
    hide Value, Plus, Xor, Register, Crc;
    var s: seq<Byte> := [0x31, 0x32, 0x33, 0x34, 0x35, 0x36, 0x37, 0x38, 0x39];
    assert s == [0x31, 0x32, 0x33] + ([0x34, 0x35, 0x36] + ([0x37, 0x38, 0x39] + []));
    RegisterOfDigits();
    ValueOfAllOnes();
    ValueOfCheck();
    CrcIsRegister(0, s);
    ZeroXor(ALL_ONES);
    ValueOfPlus(0x340b_c6d9, 0xffff_ffff);
    Inverted();
  }
}
