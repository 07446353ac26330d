/** The CRC-24 of misc.c (section 6.1 of RFC 2440). */
module Crc24 {
  import opened Bits
  import opened Octets

  // The remainder of the message polynomial over GF(2). Numbers are polynomials, bit k being the coefficient of x^k.

  const CRC24_INIT: nat := 0xb704ce
  const CRC24_POLY: nat := 0x1864cfb
  const TOP: nat := 0x100_0000

  type Octet = Byte

  // ----- polynomial division over GF(2), independent of the algorithm -----

  /** The product of two polynomials. */
  function Product(q: nat, g: nat): nat
    decreases q
  {
    if q == 0 then 0 else Xor(if q % 2 == 1 then g else 0, 2 * Product(q / 2, g))
  }

  /** `a` and `b` differ by the multiple `q` of the generator. */
  predicate DiffersBy(a: nat, b: nat, q: nat) { Xor(a, b) == Product(q, CRC24_POLY) }

  /** `r` is the remainder of `a` by the generator: of lower degree, and congruent to `a`. */
  ghost predicate Remainder(a: nat, r: nat) {
    r < TOP && exists q: nat :: DiffersBy(a, r, q)
  }

  lemma {:induction false} ProductAdds(p: nat, q: nat, g: nat)
    ensures Xor(Product(p, g), Product(q, g)) == Product(Xor(p, q), g)
    decreases p
  {
    if p == 0 || q == 0 {
      XorZero(Product(p, g));
      XorZero(p);
    } else {
      ProductAdds(p / 2, q / 2, g);
      hide Xor;
      var a, b := if p % 2 == 1 then g else 0, if q % 2 == 1 then g else 0;
      XorSwap(a, 2 * Product(p / 2, g), b, 2 * Product(q / 2, g));
      Doubled(Product(p / 2, g), Product(q / 2, g));
      XorBits(p, q);
      XorSelf(g);
      XorZero(g);
      XorComm(0, g);
      ProductStep(Xor(p, q), g);
      assert Xor(a, b) == if Xor(p, q) % 2 == 1 then g else 0 by { XorSelf(0); }
    }
  }

  lemma {:induction false} Doubled(x: nat, y: nat)
    ensures Xor(2 * x, 2 * y) == 2 * Xor(x, y)
  {
    XorBits(2 * x, 2 * y);
  }

  lemma ProductStep(q: nat, g: nat)
    ensures Product(q, g) == Xor(if q % 2 == 1 then g else 0, 2 * Product(q / 2, g))
  {}

  /** A multiple of the generator by a nonzero polynomial has at least the generator's degree. */
  lemma {:induction false} ProductIsLarge(q: nat)
    requires q != 0
    ensures Product(q, CRC24_POLY) >= TOP
    decreases q
  {
    hide Xor;
    if q == 1 {
      assert Product(0, CRC24_POLY) == 0;
      XorZero(CRC24_POLY);
    } else {
      ProductIsLarge(q / 2);
      XorLarge(if q % 2 == 1 then CRC24_POLY else 0, 2 * Product(q / 2, CRC24_POLY));
    }
  }

  lemma {:induction false} XorLarge(g: nat, y: nat)
    requires g < 2 * TOP <= y
    ensures Xor(g, y) >= 2 * TOP
  {
    hide Xor, Pow2;
    PowerOfTop();
    XorCancel(g, y);
    if Xor(g, y) < 2 * TOP {
      XorBelow(g, Xor(g, y), 25);
    }
  }

  lemma {:induction false} PowerOfTop()
    ensures Pow2(16) == 0x1_0000 && Pow2(24) == TOP && Pow2(25) == 2 * TOP
  {
    assert Pow2(4) == 16;
    assert Pow2(8) == 256;
    assert Pow2(12) == 4096;
    assert Pow2(16) == 0x1_0000;
    assert Pow2(20) == 0x10_0000;
  }

  /** The remainder is unique. */
  lemma {:induction false} RemainderUnique(a: nat, r: nat, r': nat)
    requires Remainder(a, r) && Remainder(a, r')
    ensures r == r'
  {
    var q: nat :| DiffersBy(a, r, q);
    var q': nat :| DiffersBy(a, r', q');
    ProductAdds(q, q', CRC24_POLY);
    XorComm(a, r);
    XorSwap(r, a, a, r');
    XorAssoc(r, a, Xor(a, r'));
    XorCancel(a, r');
    PowerOfTop();
    XorBelow(r, r', 24);
    if Xor(q, q') != 0 {
      ProductIsLarge(Xor(q, q'));
    }
    XorCancel(r, r');
  }

  // ----- the register -----

  /** One bit step: shift left, and subtract the generator if bit 24 comes up. */
  function Shift(crc: nat): nat {
    if 2 * crc / TOP % 2 == 1 then Xor(2 * crc, CRC24_POLY) else 2 * crc
  }

  lemma {:induction false} ShiftCases(crc: nat)
    requires crc < TOP
    ensures Shift(crc) == if 2 * crc >= TOP then Xor(2 * crc, CRC24_POLY) else 2 * crc
  {
    hide Xor;
  }

  /** A bit step multiplies by x modulo the generator and keeps the register below degree 24. */
  lemma {:induction false} ShiftMultiplies(a: nat, crc: nat)
    requires Remainder(a, crc)
    ensures Remainder(2 * a, Shift(crc)) && Shift(crc) < TOP
  {
    hide Xor, Product, Shift;
    var q: nat :| DiffersBy(a, crc, q);
    ShiftCases(crc);
    DoubleProduct(q);
    Doubled(a, crc);
    assert DiffersBy(2 * a, 2 * crc, 2 * q);
    if 2 * crc >= TOP {
      TopCancels(2 * crc);
      SubtractGenerator(2 * a, 2 * crc, 2 * q);
    }
  }

  lemma {:induction false} SubtractGenerator(a: nat, r: nat, q: nat)
    requires DiffersBy(a, r, q)
    ensures DiffersBy(a, Xor(r, CRC24_POLY), Xor(q, 1))
  {
    hide Xor, Product;
    XorAssoc(a, r, CRC24_POLY);
    ProductAdds(q, 1, CRC24_POLY);
    ProductOne();
  }

  lemma {:induction false} ProductOne()
    ensures Product(1, CRC24_POLY) == CRC24_POLY
  {
    assert Product(0, CRC24_POLY) == 0;
    XorZero(CRC24_POLY);
  }

  lemma DoubleProduct(q: nat)
    ensures Product(2 * q, CRC24_POLY) == 2 * Product(q, CRC24_POLY)
  {}

  /** Both the shifted register and the generator have bit 24 set and nothing above, so their sum has neither. */
  lemma {:induction false} TopCancels(x: nat)
    requires TOP <= x < 2 * TOP
    ensures Xor(x, CRC24_POLY) < TOP
  {
    PowerOfTop();
    XorShr(x, CRC24_POLY, 24);
    ShrIsDiv(x, 24);
    ShrIsDiv(CRC24_POLY, 24);
    ShrIsDiv(Xor(x, CRC24_POLY), 24);
    assert x / TOP == 1 && CRC24_POLY / TOP == 1;
    XorSelf(1);
  }

  /** The initialised message: the preset register followed by the octets, most significant bit first, all times
      x^24. */
  function Dividend(octets: seq<Octet>): nat {
    if octets == [] then CRC24_INIT
    else Shl(Xor(Dividend(octets[..|octets| - 1]), Shl(octets[|octets| - 1], 16)), 8)
  }

  /** Adding the same octet to message and register keeps them congruent. */
  lemma {:induction false} AddOctet(a: nat, crc: nat, b: Octet)
    requires Remainder(a, crc)
    ensures Remainder(Xor(a, Shl(b, 16)), Xor(crc, Shl(b, 16))) && Xor(crc, Shl(b, 16)) < TOP
  {
    var q: nat :| DiffersBy(a, crc, q);
    var x := Shl(b, 16);
    XorSwap(a, x, crc, x);
    XorSelf(x);
    XorZero(Xor(a, crc));
    assert DiffersBy(Xor(a, x), Xor(crc, x), q);
    ShlIsMul(b, 16);
    PowerOfTop();
    XorBelow(crc, x, 24);
  }

  /** `crc_octets`. The register stays below 2^24 after every bit step, so the final mask changes nothing, and the
      result is the polynomial remainder of the initialised message, for octet strings of any length. */
  method CrcOctets(octets: array<Octet>) returns (result: nat)
    ensures result < TOP
    ensures Remainder(Dividend(octets[..]), result)
  {
    hide Shl, Product, Xor, Remainder, Dividend;
    var crc: nat := CRC24_INIT;
    SelfRemainder();
    DividendStart(octets[..0]);
    for k := 0 to octets.Length
      invariant crc < TOP && Remainder(Dividend(octets[..k]), crc)
    {
      ghost var a := Xor(Dividend(octets[..k]), Shl(octets[k], 16));
      AddOctet(Dividend(octets[..k]), crc, octets[k]);
      crc := Xor(crc, Shl(octets[k], 16));
      ShlIsMul(a, 0);
      for i := 0 to 8
        invariant crc < TOP && Remainder(Shl(a, i), crc)
      {
        ShlStep(a, i);
        ShiftMultiplies(Shl(a, i), crc);
        crc := 2 * crc;
        if crc / TOP % 2 == 1 {
          crc := Xor(crc, CRC24_POLY);
        }
      }
      assert octets[..k + 1] == octets[..k] + [octets[k]];
      DividendSnoc(octets[..k], octets[k]);
    }
    assert octets[..octets.Length] == octets[..];
    result := crc % TOP;
  }

  lemma DividendStart(s: seq<Octet>)
    ensures s == [] ==> Dividend(s) == CRC24_INIT
  {}

  lemma {:induction false} DividendSnoc(s: seq<Octet>, b: Octet)
    ensures Dividend(s + [b]) == Shl(Xor(Dividend(s), Shl(b, 16)), 8)
  {
    assert (s + [b])[..|s|] == s;
  }

  lemma ShlStep(a: nat, i: nat)
    ensures Shl(a, i + 1) == 2 * Shl(a, i)
  {}

  lemma {:induction false} SelfRemainder()
    ensures Remainder(CRC24_INIT, CRC24_INIT)
  {
    XorSelf(CRC24_INIT);
    assert DiffersBy(CRC24_INIT, CRC24_INIT, 0);
  }

  /** A correct CRC makes the whole transmission divisible: appending the remainder leaves remainder zero. */
  lemma {:induction false} AppendedCrcDivides(octets: seq<Octet>, crc: nat)
    requires Remainder(Dividend(octets), crc)
    ensures Remainder(Xor(Dividend(octets), crc), 0)
  {
    var q: nat :| DiffersBy(Dividend(octets), crc, q);
    XorZero(Xor(Dividend(octets), crc));
    assert DiffersBy(Xor(Dividend(octets), crc), 0, q);
  }
}
