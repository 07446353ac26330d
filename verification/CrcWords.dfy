/** Products of registers of CRC-32 on machine words, where products of constants can be computed. A turn of a product
    has no branch, and eight turns are one expression. */
module CrcWords {
  import opened Bits
  import opened Crc32
  import opened CrcPowers
  import opened Words

  // ----- constants -----

  lemma ValueOfOne()
    ensures Value(0x8000_0000) == ONE
  {
    hide Value;
    FourDigits(0x8000_0000);
    FourDigits(0x0800_0000);
    FourDigits(0x0080_0000);
    FourDigits(0x0008_0000);
    FourDigits(0x8000);
    FourDigits(0x800);
    FourDigits(0x80);
    FourDigits(8);
    ValueZero(0);
  }

  lemma ValueOfPolynomial()
    ensures Value(0xedb8_8320) == POLYNOMIAL
  {
    hide Value;
    FourDigits(0xedb8_8320);
    FourDigits(0xedb_8832);
    FourDigits(0xed_b883);
    FourDigits(0xe_db88);
    FourDigits(0xedb8);
    FourDigits(0xedb);
    FourDigits(0xed);
    FourDigits(0xe);
    ValueZero(0);
  }

  lemma ValueOfAllOnes()
    ensures Value(0xffff_ffff) == ALL_ONES
  {
    hide Value;
    FourDigits(0xffff_ffff);
    FourDigits(0xfff_ffff);
    FourDigits(0xff_ffff);
    FourDigits(0xf_ffff);
    FourDigits(0xffff);
    FourDigits(0xfff);
    FourDigits(0xff);
    FourDigits(0xf);
    ValueZero(0);
  }

  // ----- products -----

  /** One turn of a product. */
  function Turn(u: bv32, w: bv32, acc: bv32): bv32 {
    (acc >> 1) ^ (0xedb8_8320 & (0 - (acc & 1))) ^ (w & (0 - (u & 1)))
  }

  lemma TurnIsSum(u: bv32, w: bv32, acc: bv32)
    ensures Turn(u, w, acc) == Plus(Plus(Half(acc), Mask(0xedb8_8320, acc)), Mask(w, u))
  {}

  function Product(u: bv32, n: nat, w: bv32, acc: bv32): bv32
    decreases n
  {
    if n == 0 then acc else Product(Half(u), n - 1, w, Turn(u, w, acc))
  }

  lemma {:induction false} ValueOfTurn(u: bv32, w: bv32, acc: bv32)
    ensures Value(Turn(u, w, acc)) == Xor(Step(Value(acc)), if Odd(u) == 1 then Value(w) else 0)
  {
    hide Value, Half, Odd, Plus, Mask, Turn, Xor;
    TurnIsSum(u, w, acc);
    MaskIsChoice(0xedb8_8320, acc);
    MaskIsChoice(w, u);
    var p, s := if Odd(acc) == 1 then 0xedb8_8320 else 0, if Odd(u) == 1 then w else 0;
    ValueOfPlus(Plus(Half(acc), p), s);
    ValueOfPlus(Half(acc), p);
    ValueZero(0);
    ValueOfPolynomial();
    Digits(acc);
  }

  lemma ProductTurn(u: bv32, n: nat, w: bv32, acc: bv32)
    ensures Product(u, n + 1, w, acc) == Product(Half(u), n, w, Turn(u, w, acc)) && Product(u, 0, w, acc) == acc
  {
    hide Half, Turn;
  }

  lemma {:induction false} ValueOfProduct(u: bv32, n: nat, w: bv32, acc: bv32)
    ensures Value(Product(u, n, w, acc)) == Horner(Value(u), n, Value(w), Value(acc))
    decreases n
  {
    hide *;
    if n == 0 {
      ProductTurn(u, 0, w, acc);
      HornerEnds(Value(u), Value(w), Value(acc));
    } else {
      ProductTurn(u, n - 1, w, acc);
      Digits(u);
      ValueOfTurn(u, w, acc);
      HornerTurn(Value(Half(u)), Odd(u), n - 1, Value(w), Value(acc));
      ValueOfProduct(Half(u), n - 1, w, Turn(u, w, acc));
    }
  }

  /** Eight turns in one expression. */
  function Eight(u: bv32, w: bv32, acc: bv32): bv32 {
    Turn(u >> 7, w, Turn(u >> 6, w, Turn(u >> 5, w, Turn(u >> 4, w,
      Turn(u >> 3, w, Turn(u >> 2, w, Turn(u >> 1, w, Turn(u, w, acc))))))))
  }

  function Next(u: bv32): bv32 { u >> 8 }

  lemma LowerHalves(u: bv32)
    ensures Half(u >> 4) == u >> 5 && Half(u >> 5) == u >> 6 && Half(u >> 6) == u >> 7 && Half(u >> 7) == u >> 8
    ensures Next(u) == u >> 8
  {}

  lemma {:induction false} EightTurns(u: bv32, n: nat, w: bv32, acc: bv32)
    ensures Product(u, n + 8, w, acc) == Product(Next(u), n, w, Eight(u, w, acc))
  {
    hide Turn, Half, Product;
    Halves(u);
    LowerHalves(u);
    var a := Turn(u, w, acc);
    var b := Turn(u >> 1, w, a);
    var c := Turn(u >> 2, w, b);
    var d := Turn(u >> 3, w, c);
    var e := Turn(u >> 4, w, d);
    var f := Turn(u >> 5, w, e);
    var g := Turn(u >> 6, w, f);
    ProductTurn(u, n + 7, w, acc);
    ProductTurn(u >> 1, n + 6, w, a);
    ProductTurn(u >> 2, n + 5, w, b);
    ProductTurn(u >> 3, n + 4, w, c);
    ProductTurn(u >> 4, n + 3, w, d);
    ProductTurn(u >> 5, n + 2, w, e);
    ProductTurn(u >> 6, n + 1, w, f);
    ProductTurn(u >> 7, n, w, g);
  }

  /** The product of two words. */
  function Mul(u: bv32, w: bv32): bv32 {
    Eight(Next(Next(Next(u))), w, Eight(Next(Next(u)), w, Eight(Next(u), w, Eight(u, w, 0))))
  }

  lemma {:induction false} MulIsProduct(u: bv32, w: bv32)
    ensures Mul(u, w) == Product(u, 32, w, 0)
  {
    hide Next, Eight, Product;
    var a := Eight(u, w, 0);
    var b := Eight(Next(u), w, a);
    var c := Eight(Next(Next(u)), w, b);
    EightTurns(u, 24, w, 0);
    EightTurns(Next(u), 16, w, a);
    EightTurns(Next(Next(u)), 8, w, b);
    EightTurns(Next(Next(Next(u))), 0, w, c);
    ProductTurn(Next(Next(Next(Next(u)))), 0, w, Mul(u, w));
  }

  lemma {:induction false} ValueOfMul(u: bv32, w: bv32)
    ensures Value(Mul(u, w)) == Times(Value(u), Value(w))
  {
    hide Mul, Product, Value, Horner;
    MulIsProduct(u, w);
    ValueZero(0);
    ValueOfProduct(u, 32, w, 0);
  }
}
