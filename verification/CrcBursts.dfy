/** The burst errors that the CRC-32 of misc.c detects. */
module CrcBursts {
  import opened BitStrings
  import opened Bits
  import opened Crc32
  import opened Octets

  lemma {:induction false} TransmittedInjective(a: seq<Byte>, b: seq<Byte>)
    requires |a| == |b| && Transmitted(a) == Transmitted(b)
    ensures a == b
  {
    if a != [] {
      PowersOfWord();
      WordOfBits(a[0], 8);
      WordOfBits(b[0], 8);
      assert BitsOf(a[0], 8) == Transmitted(a)[..8] && BitsOf(b[0], 8) == Transmitted(b)[..8];
      assert Transmitted(a[1..]) == Transmitted(a)[8..] && Transmitted(b[1..]) == Transmitted(b)[8..];
      TransmittedInjective(a[1..], b[1..]);
      assert a == [a[0]] + a[1..] && b == [b[0]] + b[1..];
    }
  }

  /** Whether two strings of one length share their CRC depends on their difference alone, not on the chaining value. */
  lemma {:induction false} SharedCrcIff(c: nat, a: seq<Byte>, b: seq<Byte>)
    requires |a| == |b|
    ensures Crc(c, a) == Crc(c, b) <==> Steps(Xor(Word(Transmitted(a)), Word(Transmitted(b))), 8 * |a|) == 0
    ensures a == b <==> Xor(Word(Transmitted(a)), Word(Transmitted(b))) == 0
  {
    TransmittedLength(a);
    TransmittedLength(b);
    hide *;
    var r, x, y := Xor(c, ALL_ONES), Transmitted(a), Transmitted(b);
    XorCancel(Word(x), Word(y));
    if Word(x) == Word(y) {
      WordInjective(x, y);
      TransmittedInjective(a, b);
    }
    DifferenceOfRegisters(r, a, b);
    var ra, rb := Register(r, a), Register(r, b);
    XorCancel(ra, rb);
    XorCancel(ALL_ONES, ra);
    XorCancel(ALL_ONES, rb);
    CrcIsRegister(c, a);
    CrcIsRegister(c, b);
  }

  lemma TransmittedLength(s: seq<Byte>)
    ensures |Transmitted(s)| == 8 * |s|
  {}

  /** Every burst of 32 bits or less is detected: strings of one length whose differing bits, in transmission
      order, lie in a 32-bit window have different CRCs, whatever the chaining value. */
  lemma {:induction false} BurstsAreDetected(c: nat, a: seq<Byte>, b: seq<Byte>, p: nat)
    requires |a| == |b| && a != b
    requires DifferWithin(Transmitted(a), Transmitted(b), p, 32)
    ensures Crc(c, a) != Crc(c, b)
  {
    hide *;
    var w := WindowedDifference(Transmitted(a), Transmitted(b), p, 32);
    WindowIsHit(a, b, p, 32);
    ShiftedSurvives(w, p, 8 * |a|);
    ZeroShifted(w, p);
    SharedCrcIff(c, a, b);
  }

  lemma {:induction false} WindowIsHit(a: seq<Byte>, b: seq<Byte>, p: nat, n: nat)
    requires |a| == |b| && a != b && DifferWithin(Transmitted(a), Transmitted(b), p, n)
    ensures p < 8 * |a| && |Transmitted(a)| == |Transmitted(b)|
    ensures Pow2(32) == 0x1_0000_0000
  {
    hide Transmitted;
    PowersOfWord();
    if Transmitted(a) == Transmitted(b) { TransmittedInjective(a, b); }
    var i :| 0 <= i < 8 * |a| && Transmitted(a)[i] != Transmitted(b)[i];
  }

  /** A nonzero word that enters an empty register leaves a nonzero register behind. */
  lemma {:induction false} ShiftedSurvives(w: U32, p: nat, n: nat)
    requires p < n
    ensures Steps(Shl(w, p), n) == 0 <==> w == 0
  {
    hide Steps, Shl;
    StepsAdd(Shl(w, p), p, n - p);
    StepsShift(w, p);
    StepsNonzero(w, n - p);
  }

  lemma {:induction false} ZeroShifted(w: nat, p: nat)
    ensures w == 0 ==> Shl(w, p) == 0
  {
    ShlIsMul(w, p);
  }

  /** By linearity, two registers differ by what the difference of the messages alone leaves in an empty register. */
  lemma {:induction false} DifferenceOfRegisters(r: nat, a: seq<Byte>, b: seq<Byte>)
    requires |a| == |b|
    ensures Xor(Register(r, a), Register(r, b)) == Steps(Xor(Word(Transmitted(a)), Word(Transmitted(b))), 8 * |a|)
  {
    hide Xor, Steps;
    var x, y, n := Word(Transmitted(a)), Word(Transmitted(b)), 8 * |a|;
    RegisterIsSerial(r, a);
    RegisterIsSerial(r, b);
    FeedAtOnce(r, Transmitted(a));
    FeedAtOnce(r, Transmitted(b));
    StepsLinear(Xor(r, x), Xor(r, y), n);
    XorSwap(r, x, r, y);
    XorSelf(r);
    assert Xor(0, Xor(x, y)) == Xor(x, y) by { XorComm(0, Xor(x, y)); XorZero(Xor(x, y)); }
  }

  // ----- the CRC appended to the data -----

  lemma {:induction false} WordOfBytes(s: seq<Byte>)
    requires s != []
    ensures Word(Transmitted(s)) == s[0] + 256 * Word(Transmitted(s[1..]))
  {
    PowersOfWord();
    WordOfBits(s[0], 8);
    WordAppend(BitsOf(s[0], 8), Transmitted(s[1..]));
    ShlIsMul(Word(Transmitted(s[1..])), 8);
  }

  lemma {:induction false} WordOfLittleEndianBytes(v: nat, n: nat)
    requires v < Pow2(8 * n)
    ensures Word(Transmitted(LittleEndian(v, n))) == v
    decreases n
  {
    if n == 0 {
      assert Transmitted([]) == [];
    } else {
      var s := LittleEndian(v, n);
      assert s == [v % 256] + LittleEndian(v / 256, n - 1);
      PowerSteps(8 * (n - 1));
      hide LittleEndian, Transmitted, Word, Pow2;
      WordOfBytes(s);
      assert s[1..] == LittleEndian(v / 256, n - 1);
      WordOfLittleEndianBytes(v / 256, n - 1);
    }
  }

  lemma {:induction false} PowerSteps(n: nat)
    ensures Pow2(n + 8) == 256 * Pow2(n)
  {
    assert Pow2(n + 2) == 4 * Pow2(n);
    assert Pow2(n + 4) == 16 * Pow2(n);
    assert Pow2(n + 6) == 64 * Pow2(n);
  }

  lemma {:induction false} WordOfLittleEndian(v: U32)
    ensures Word(Transmitted(LittleEndian(v, 4))) == v
  {
    PowersOfWord();
    WordOfLittleEndianBytes(v, 4);
  }

  /** Data followed by its own CRC always leaves the same register. */
  lemma {:induction false} ResidueIsConstant(data: seq<Byte>, v: U32)
    requires v == Crc(0, data)
    ensures Register(Xor(0, ALL_ONES), data + LittleEndian(v, 4)) == Steps(ALL_ONES, 32)
  {
    hide Xor, Steps, Register;
    var r := Register(Xor(0, ALL_ONES), data);
    RegisterAppend(Xor(0, ALL_ONES), data, LittleEndian(v, 4));
    RegisterIsSerial(r, LittleEndian(v, 4));
    FeedAtOnce(r, Transmitted(LittleEndian(v, 4)));
    WordOfLittleEndian(v);
    XorCancel(r, ALL_ONES);
  }

  /** The property survives appending the CRC in little-endian order: no burst of 32 bits or less anywhere in
      data and CRC together turns a correct codeword into another one. */
  lemma {:induction false} BurstsAcrossAppendedCrcAreDetected(data: seq<Byte>, v: U32, data': seq<Byte>, v': U32,
          p: nat)
    requires v == Crc(0, data)
    requires |data'| == |data| && data + LittleEndian(v, 4) != data' + LittleEndian(v', 4)
    requires DifferWithin(Transmitted(data + LittleEndian(v, 4)), Transmitted(data' + LittleEndian(v', 4)), p, 32)
    ensures v' != Crc(0, data')
  {
    hide Xor, Steps, Register;
    BurstsAreDetected(0, data + LittleEndian(v, 4), data' + LittleEndian(v', 4), p);
    ResidueIsConstant(data, v);
    if v' == Crc(0, data') {
      ResidueIsConstant(data', v');
    }
  }

  // ----- 33 bits -----

  /** In a 33-bit window one difference escapes, the polynomial's own 33 bits: different strings of one length that
      differ within the window share their CRC exactly when they differ there by those bits. */
  lemma {:induction false} ThirtyThreeBitWindows(c: nat, a: seq<Byte>, b: seq<Byte>, p: nat)
    requires |a| == |b| && a != b
    requires DifferWithin(Transmitted(a), Transmitted(b), p, 33)
    ensures Crc(c, a) == Crc(c, b) <==>
            Xor(Word(Transmitted(a)), Word(Transmitted(b))) == Shl(2 * POLYNOMIAL + 1, p)
  {
    PowersOfWord();
    assert Pow2(33) == 2 * Pow2(32);
    hide *;
    var w := WindowedDifference(Transmitted(a), Transmitted(b), p, 33);
    WindowIsHit(a, b, p, 33);
    WideSurvives(w, p, 8 * |a|);
    ShlInjective(w, 2 * POLYNOMIAL + 1, p);
    ZeroShifted(w, p);
    SharedCrcIff(c, a, b);
  }

  /** Of the 33-bit words, only zero and the polynomial leave an empty register. */
  lemma {:induction false} WideSurvives(w: nat, p: nat, n: nat)
    requires p < n && w < 0x2_0000_0000
    ensures Steps(Shl(w, p), n) == 0 <==> w == 0 || w == 2 * POLYNOMIAL + 1
  {
    StepOfWide(w);
    hide Steps, Shl, Step;
    StepsAdd(Shl(w, p), p, n - p);
    StepsShift(w, p);
    StepsAdd(w, 1, n - p - 1);
    OneStep(w);
    StepsNonzero(Step(w), n - p - 1);
  }

  lemma {:induction false} StepOfWide(w: nat)
    requires w < 0x2_0000_0000
    ensures Step(w) < WORD
    ensures Step(w) == 0 <==> w == 0 || w == 2 * POLYNOMIAL + 1
  {
    PowersOfWord();
    XorZero(w / 2);
    XorBelow(w / 2, POLYNOMIAL, 32);
    XorCancel(w / 2, POLYNOMIAL);
    hide Xor;
  }

  lemma OneStep(x: nat)
    ensures Steps(x, 1) == Step(x)
  {}

  lemma {:induction false} ShlInjective(v: nat, w: nat, p: nat)
    ensures Shl(v, p) == Shl(w, p) <==> v == w
    decreases p
  {
    if p > 0 { ShlInjective(v, w, p - 1); }
  }

  lemma {:induction false} FiveByteWord(s: seq<Byte>)
    requires |s| == 5
    ensures Word(Transmitted(s)) ==
            s[0] as nat + 0x100 * (s[1] as nat) + 0x1_0000 * (s[2] as nat) + 0x100_0000 * (s[3] as nat)
              + 0x1_0000_0000 * (s[4] as nat)
  {
    WordOfBytes(s);
    WordOfBytes(s[1..]);
    WordOfBytes(s[2..]);
    WordOfBytes(s[3..]);
    WordOfBytes(s[4..]);
    assert s[1..][1..] == s[2..] && s[2..][1..] == s[3..] && s[3..][1..] == s[4..] && s[4..][1..] == [];
    assert Transmitted([]) == [];
  }

  /** A last byte below 2 leaves the seven last bits zero. */
  lemma {:induction false} TopBits(s: seq<Byte>, i: nat)
    requires |s| > 0 && s[|s| - 1] < 2 && 8 * |s| - 7 <= i < 8 * |s|
    ensures !Transmitted(s)[i]
  {
    assert Transmitted(s) == BitsOf(s[0], 8) + Transmitted(s[1..]);
    hide Transmitted;
    if |s| == 1 {
      ZeroBits(7);
      assert BitsOf(s[0], 8) == [s[0] % 2 == 1] + BitsOf(0, 7);
    } else {
      hide BitsOf;
      TopBits(s[1..], i - 8);
    }
  }

  lemma {:induction false} ZeroBits(n: nat)
    ensures forall i :: 0 <= i < n ==> !BitsOf(0, n)[i]
  {
    if n > 0 { ZeroBits(n - 1); }
  }

  const ZEROS: seq<Byte> := [0, 0, 0, 0, 0]
  const LONG_BURST: seq<Byte> := [0x41, 0x06, 0x71, 0xdb, 0x01]

  /** The escaping difference occurs: five bytes that differ by it share their CRC, for every chaining value. */
  lemma {:induction false} ThirtyThreeBitsEscape(c: nat)
    ensures DifferWithin(Transmitted(ZEROS), Transmitted(LONG_BURST), 0, 33)
    ensures Crc(c, ZEROS) == Crc(c, LONG_BURST)
  {
    FiveByteWord(ZEROS);
    FiveByteWord(LONG_BURST);
    LongBurstWindow();
    assert Shl(2 * POLYNOMIAL + 1, 0) == 2 * POLYNOMIAL + 1;
    hide *;
    XorComm(0, 2 * POLYNOMIAL + 1);
    XorZero(2 * POLYNOMIAL + 1);
    ThirtyThreeBitWindows(c, ZEROS, LONG_BURST, 0);
  }

  lemma {:induction false} LongBurstWindow()
    ensures DifferWithin(Transmitted(ZEROS), Transmitted(LONG_BURST), 0, 33)
  {
    hide Transmitted;
    forall i | 0 <= i < 40 && Transmitted(ZEROS)[i] != Transmitted(LONG_BURST)[i] ensures i < 33 {
      if i >= 33 {
        TopBits(ZEROS, i);
        TopBits(LONG_BURST, i);
      }
    }
  }
}
