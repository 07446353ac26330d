/** Strings of bits, lowest first, and the numbers they are the binary digits of; strings that differ within a window,
    and the difference of their numbers. */
module BitStrings {
  import opened Bits

  type BitString = seq<bool>

  function Bit(b: bool): nat { if b then 1 else 0 }

  /** The number whose binary digits, lowest first, are `bits`. */
  function Word(bits: BitString): nat {
    if bits == [] then 0 else Bit(bits[0]) + 2 * Word(bits[1..])
  }

  /** The `n` lowest bits of `x`, lowest first. */
  function BitsOf(x: nat, n: nat): (bits: BitString)
    ensures |bits| == n
  {
    if n == 0 then [] else [x % 2 == 1] + BitsOf(x / 2, n - 1)
  }

  lemma {:induction false} WordOfBits(x: nat, n: nat)
    requires x < Pow2(n)
    ensures Word(BitsOf(x, n)) == x
  {
    if n > 0 { WordOfBits(x / 2, n - 1); }
  }

  // ----- differences -----

  /** The strings differ nowhere outside bit positions p, ..., p + n - 1. */
  ghost predicate DifferWithin(x: BitString, y: BitString, p: nat, n: nat) {
    |x| == |y| && forall i :: 0 <= i < |x| && x[i] != y[i] ==> p <= i < p + n
  }

  lemma {:induction false} XorWordCons(x: BitString, y: BitString)
    requires |x| == |y| > 0
    ensures Xor(Word(x), Word(y)) == 2 * Xor(Word(x[1..]), Word(y[1..])) + Bit(x[0] != y[0])
  {
    hide Xor;
    XorBits(Word(x), Word(y));
    assert Word(x) / 2 == Word(x[1..]) && Word(x) % 2 == Bit(x[0]);
    assert Word(y) / 2 == Word(y[1..]) && Word(y) % 2 == Bit(y[0]);
  }

  /** Strings that differ in a window of n bits at p have words that differ by an n-bit number shifted by p. */
  lemma {:induction false} WindowedDifference(x: BitString, y: BitString, p: nat, n: nat) returns (w: nat)
    requires DifferWithin(x, y, p, n)
    ensures w < Pow2(n) && Xor(Word(x), Word(y)) == Shl(w, p)
    decreases |x|
  {
    if x == [] {
      w := 0;
      ShlIsMul(0, p);
    } else {
      XorWordCons(x, y);
      assert forall i :: 0 <= i < |x[1..]| ==> x[1..][i] == x[i + 1] && y[1..][i] == y[i + 1];
      if p > 0 {
        w := WindowedDifference(x[1..], y[1..], p - 1, n);
        assert x[0] == y[0];
      } else if n > 0 {
        var v := WindowedDifference(x[1..], y[1..], 0, n - 1);
        w := 2 * v + Bit(x[0] != y[0]);
      } else {
        w := WindowedDifference(x[1..], y[1..], 0, 0);
        assert x[0] == y[0];
      }
    }
  }

  lemma {:induction false} WordInjective(x: BitString, y: BitString)
    requires |x| == |y| && Word(x) == Word(y)
    ensures x == y
  {
    if x != [] {
      assert Bit(x[0]) == Word(x) % 2 && Bit(y[0]) == Word(y) % 2;
      WordInjective(x[1..], y[1..]);
      assert x == [x[0]] + x[1..] && y == [y[0]] + y[1..];
    }
  }

  lemma {:induction false} WordAppend(a: BitString, b: BitString)
    ensures Word(a + b) == Word(a) + Shl(Word(b), |a|)
  {
    if a == [] {
      assert a + b == b;
    } else {
      assert (a + b)[1..] == a[1..] + b;
      WordAppend(a[1..], b);
    }
  }
}
