/** The errors that the CRC-24 of misc.c detects. */
module Crc24Bursts {
  import opened BitStrings
  import opened Bits
  import opened Crc24

  // Every burst of 24 bits or less, and every odd number of bits.

  /** The bits of a string in the order of the division, the last one first. */
  function BackToFront(s: seq<Octet>): (bits: BitString)
    ensures |bits| == 8 * |s|
  {
    if s == [] then [] else BitsOf(s[|s| - 1], 8) + BackToFront(s[..|s| - 1])
  }

  // ----- the difference of two dividends -----

  lemma {:induction false} XorShl(x: nat, y: nat, n: nat)
    ensures Xor(Shl(x, n), Shl(y, n)) == Shl(Xor(x, y), n)
    decreases n
  {
    if n > 0 {
      hide Xor;
      XorShl(x, y, n - 1);
      Doubled(Shl(x, n - 1), Shl(y, n - 1));
    }
  }

  lemma {:induction false} PowerOfOctet()
    ensures Pow2(8) == 256
  {
    assert Pow2(4) == 16;
  }

  lemma {:induction false} WordOfLast(s: seq<Octet>)
    requires s != []
    ensures Word(BackToFront(s)) == Xor(Shl(Word(BackToFront(s[..|s| - 1])), 8), s[|s| - 1])
  {
    var b, rest := s[|s| - 1], s[..|s| - 1];
    assert BackToFront(s) == BitsOf(b, 8) + BackToFront(rest);
    hide BackToFront, Word, BitsOf, Shl, Xor, Pow2;
    PowerOfOctet();
    WordOfBits(b, 8);
    WordAppend(BitsOf(b, 8), BackToFront(rest));
    XorDisjoint(Word(BackToFront(rest)), b, 8);
  }

  lemma {:induction false} DividendOfLast(s: seq<Octet>)
    requires s != []
    ensures Dividend(s) == Shl(Xor(Dividend(s[..|s| - 1]), Shl(s[|s| - 1], 16)), 8)
  {
    hide Shl, Xor;
  }

  /** One more octet, on both sides of a difference. */
  lemma {:induction false} OctetDiffers(a: nat, x: nat, b: nat, y: nat, d: nat)
    requires Xor(a, b) == Shl(d, 24)
    ensures Xor(Shl(Xor(a, Shl(x, 16)), 8), Shl(Xor(b, Shl(y, 16)), 8)) == Shl(Xor(Shl(d, 8), Xor(x, y)), 24)
  {
    hide *;
    XorShl(Xor(a, Shl(x, 16)), Xor(b, Shl(y, 16)), 8);
    XorSwap(a, Shl(x, 16), b, Shl(y, 16));
    XorShl(x, y, 16);
    ShlAdd(d, 8, 16);
    XorShl(Shl(d, 8), Xor(x, y), 16);
    ShlAdd(Xor(Shl(d, 8), Xor(x, y)), 16, 8);
  }

  /** The preset register is the same on both sides, so the dividends differ as the strings do. */
  lemma {:induction false} DividendsDiffer(a: seq<Octet>, b: seq<Octet>)
    requires |a| == |b|
    ensures Xor(Dividend(a), Dividend(b)) == Shl(Xor(Word(BackToFront(a)), Word(BackToFront(b))), 24)
    decreases |a|
  {
    if a == [] {
      XorSelf(CRC24_INIT);
      ShlIsMul(0, 24);
    } else {
      hide Dividend, BackToFront, Word, Shl, Xor;
      var a', x, b', y := a[..|a| - 1], a[|a| - 1], b[..|b| - 1], b[|b| - 1];
      DividendsDiffer(a', b');
      var m, n := Word(BackToFront(a')), Word(BackToFront(b'));
      OctetDiffers(Dividend(a'), x, Dividend(b'), y, Xor(m, n));
      DividendOfLast(a);
      DividendOfLast(b);
      WordOfLast(a);
      WordOfLast(b);
      XorSwap(Shl(m, 8), x, Shl(n, 8), y);
      XorShl(m, n, 8);
    }
  }

  /** Strings that leave the same remainder differ by a multiple of the generator. */
  lemma {:induction false} SameRemainder(a: nat, b: nat, r: nat) returns (q: nat)
    requires Remainder(a, r) && Remainder(b, r)
    ensures Xor(a, b) == Product(q, CRC24_POLY)
  {
    hide Product, Xor;
    var p: nat :| DiffersBy(a, r, p);
    var p': nat :| DiffersBy(b, r, p');
    q := Xor(p, p');
    ProductAdds(p, p', CRC24_POLY);
    XorSwap(a, r, b, r);
    XorSelf(r);
    XorZero(Xor(a, b));
  }

  // ----- bursts -----

  lemma ZeroOnTheLeft(x: nat)
    ensures Xor(0, x) == x
  {}

  /** The generator has a constant term, so x does not divide it. */
  lemma {:induction false} EvenProduct(q: nat)
    requires Product(q, CRC24_POLY) % 2 == 0
    ensures q % 2 == 0 && Product(q / 2, CRC24_POLY) == Product(q, CRC24_POLY) / 2
  {
    hide Product, Xor;
    var h := Product(q / 2, CRC24_POLY);
    ProductStep(q, CRC24_POLY);
    assert (2 * h) % 2 == 0 && (2 * h) / 2 == h;
    XorBits(if q % 2 == 1 then CRC24_POLY else 0, 2 * h);
    ZeroOnTheLeft(h);
  }

  lemma {:induction false} MultipleOfShifted(q: nat, w: nat, n: nat)
    requires Product(q, CRC24_POLY) == Shl(w, n) && w < TOP
    ensures w == 0
    decreases n
  {
    hide Product;
    if n == 0 {
      if q != 0 { ProductIsLarge(q); } else { NoProduct(); }
    } else {
      EvenProduct(q);
      MultipleOfShifted(q / 2, w, n - 1);
    }
  }

  lemma NoProduct()
    ensures Product(0, CRC24_POLY) == 0
  {}

  lemma {:induction false} BackToFrontInjective(a: seq<Octet>, b: seq<Octet>)
    requires |a| == |b| && BackToFront(a) == BackToFront(b)
    ensures a == b
    decreases |a|
  {
    if a != [] {
      var a', x, b', y := a[..|a| - 1], a[|a| - 1], b[..|b| - 1], b[|b| - 1];
      PowerOfOctet();
      WordOfBits(x, 8);
      WordOfBits(y, 8);
      assert BitsOf(x, 8) == BackToFront(a)[..8] && BitsOf(y, 8) == BackToFront(b)[..8];
      assert BackToFront(a') == BackToFront(a)[8..] && BackToFront(b') == BackToFront(b)[8..];
      BackToFrontInjective(a', b');
      assert a == a' + [x] && b == b' + [y];
    }
  }

  lemma SmallWindow(w: nat)
    requires w < Pow2(24)
    ensures w < TOP
  {
    PowerOfTop();
  }

  lemma {:induction false} SameStrings(a: seq<Octet>, b: seq<Octet>, p: nat)
    requires |a| == |b| && Xor(Word(BackToFront(a)), Word(BackToFront(b))) == Shl(0, p)
    ensures a == b
  {
    ShlIsMul(0, p);
    hide Xor, Shl, Word, BackToFront;
    XorCancel(Word(BackToFront(a)), Word(BackToFront(b)));
    LengthBackToFront(a);
    LengthBackToFront(b);
    WordInjective(BackToFront(a), BackToFront(b));
    BackToFrontInjective(a, b);
  }

  lemma LengthBackToFront(s: seq<Octet>)
    ensures |BackToFront(s)| == 8 * |s|
  {}

  /** Every burst of 24 bits or less is detected: different strings of one length whose differing bits lie in a window
      of 24 bits have different remainders. */
  lemma {:induction false} BurstsAreDetected(a: seq<Octet>, r: nat, b: seq<Octet>, r': nat, p: nat)
    requires |a| == |b| && a != b && DifferWithin(BackToFront(a), BackToFront(b), p, 24)
    requires Remainder(Dividend(a), r) && Remainder(Dividend(b), r')
    ensures r != r'
  {
    hide *;
    if r == r' {
      var q := SameRemainder(Dividend(a), Dividend(b), r);
      DividendsDiffer(a, b);
      var w := WindowedDifference(BackToFront(a), BackToFront(b), p, 24);
      SmallWindow(w);
      ShlAdd(w, p, 24);
      MultipleOfShifted(q, w, p + 24);
      SameStrings(a, b, p);
    }
  }

  // ----- odd numbers of bits -----

  /** Whether a number has an odd number of ones. */
  function OddOnes(x: nat): bool {
    if x == 0 then false else (x % 2 == 1) != OddOnes(x / 2)
  }

  lemma OddOnesStep(x: nat)
    ensures OddOnes(x) == ((x % 2 == 1) != OddOnes(x / 2))
  {}

  lemma NoOnes()
    ensures !OddOnes(0)
  {}

  lemma {:induction false} OddOnesOfXor(x: nat, y: nat)
    ensures OddOnes(Xor(x, y)) == (OddOnes(x) != OddOnes(y))
    decreases x
  {
    if x != 0 {
      OddOnesStep(Xor(x, y));
      OddOnesStep(y);
      XorBits(x, y);
      hide Xor;
      OddOnesOfXor(x / 2, y / 2);
    }
  }

  /** The generator is a multiple of x + 1, and so are its multiples. */
  lemma {:induction false} EvenOnes(q: nat)
    ensures !OddOnes(Product(q, CRC24_POLY))
    decreases q
  {
    hide Xor;
    if q != 0 {
      var h := Product(q / 2, CRC24_POLY);
      EvenOnes(q / 2);
      GeneratorHasEvenOnes();
      OddOnesStep(2 * h);
      OddOnesOfXor(if q % 2 == 1 then CRC24_POLY else 0, 2 * h);
    }
  }

  lemma {:induction false} GeneratorHasEvenOnes()
    ensures !OddOnes(CRC24_POLY) && !OddOnes(0)
  {
    hide OddOnes;
    NoOnes();
    OddOnesStep(0x1864cfb);
    OddOnesStep(0xc3267d);
    OddOnesStep(0x61933e);
    OddOnesStep(0x30c99f);
    OddOnesStep(0x1864cf);
    OddOnesStep(0xc3267);
    OddOnesStep(0x61933);
    OddOnesStep(0x30c99);
    OddOnesStep(0x1864c);
    OddOnesStep(0xc326);
    OddOnesStep(0x6193);
    OddOnesStep(0x30c9);
    OddOnesStep(0x1864);
    OddOnesStep(0xc32);
    OddOnesStep(0x619);
    OddOnesStep(0x30c);
    OddOnesStep(0x186);
    OddOnesStep(0xc3);
    OddOnesStep(0x61);
    OddOnesStep(0x30);
    OddOnesStep(0x18);
    OddOnesStep(0xc);
    OddOnesStep(0x6);
    OddOnesStep(0x3);
    OddOnesStep(0x1);
  }

  /** Whether the strings differ in an odd number of bits. */
  function OddlyMany(x: BitString, y: BitString): bool
    requires |x| == |y|
  {
    if x == [] then false else (x[0] != y[0]) != OddlyMany(x[1..], y[1..])
  }

  lemma {:induction false} OddDifference(x: BitString, y: BitString)
    requires |x| == |y|
    ensures OddOnes(Xor(Word(x), Word(y))) == OddlyMany(x, y)
    decreases |x|
  {
    if x == [] {
      XorZero(0);
    } else {
      XorWordCons(x, y);
      OddDifference(x[1..], y[1..]);
      OddOnesStep(Xor(Word(x), Word(y)));
    }
  }

  lemma {:induction false} OddOnesOfShl(x: nat, n: nat)
    ensures OddOnes(Shl(x, n)) == OddOnes(x)
    decreases n
  {
    if n > 0 {
      OddOnesOfShl(x, n - 1);
      OddOnesStep(Shl(x, n));
    }
  }

  /** Strings of one length that differ in an odd number of bits have different remainders. */
  lemma {:induction false} OddErrorsAreDetected(a: seq<Octet>, r: nat, b: seq<Octet>, r': nat)
    requires |a| == |b| && OddlyMany(BackToFront(a), BackToFront(b))
    requires Remainder(Dividend(a), r) && Remainder(Dividend(b), r')
    ensures r != r'
  {
    hide *;
    if r == r' {
      var q := SameRemainder(Dividend(a), Dividend(b), r);
      DividendsDiffer(a, b);
      LengthBackToFront(a);
      LengthBackToFront(b);
      var d := Xor(Word(BackToFront(a)), Word(BackToFront(b)));
      EvenOnes(q);
      OddOnesOfShl(d, 24);
      OddDifference(BackToFront(a), BackToFront(b));
    }
  }
}
