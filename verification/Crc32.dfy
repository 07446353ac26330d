/** The reflected CRC-32 of misc.c and its table. */
module Crc32 {
  import opened BitStrings
  import opened Bits
  import opened Octets

  // Registers are natural numbers below 2^32; most lemmas hold for registers of any width, which lets a whole message
  // be folded in as one number.

  const POLYNOMIAL: nat := 0xedb88320
  const ALL_ONES: nat := 0xffffffff
  const WORD: nat := 0x1_0000_0000

  type U32 = w: nat | w < 0x1_0000_0000

  // ----- the register step -----

  /** One bit step of the register. */
  function Step(x: nat): nat {
    Xor(x / 2, if x % 2 == 1 then POLYNOMIAL else 0)
  }

  function Steps(x: nat, n: nat): nat
    decreases n
  {
    if n == 0 then x else Steps(Step(x), n - 1)
  }

  lemma {:induction false} StepLinear(a: nat, b: nat)
    ensures Step(Xor(a, b)) == Xor(Step(a), Step(b))
  {
    var p, q := if a % 2 == 1 then POLYNOMIAL else 0, if b % 2 == 1 then POLYNOMIAL else 0;
    XorBits(a, b);
    XorSwap(a / 2, p, b / 2, q);
    XorSelf(POLYNOMIAL);
    XorZero(POLYNOMIAL);
  }

  lemma {:induction false} StepsLinear(a: nat, b: nat, n: nat)
    ensures Steps(Xor(a, b), n) == Xor(Steps(a, n), Steps(b, n))
    decreases n
  {
    if n > 0 {
      StepLinear(a, b);
      hide Xor, Step;
      StepsLinear(Step(a), Step(b), n - 1);
    }
  }

  lemma {:induction false} StepsAdd(x: nat, m: nat, n: nat)
    ensures Steps(x, m + n) == Steps(Steps(x, m), n)
    decreases m
  {
    if m > 0 { StepsAdd(Step(x), m - 1, n); }
  }

  /** Zero low bits just shift out. */
  lemma {:induction false} StepsShift(x: nat, n: nat)
    ensures Steps(Shl(x, n), n) == x
  {
    if n > 0 {
      XorZero(Shl(x, n - 1));
      StepsShift(x, n - 1);
    }
  }

  lemma {:induction false} PowersOfWord()
    ensures Pow2(7) == 128 && Pow2(8) == 256 && Pow2(32) == WORD && Pow2(31) == 0x8000_0000
  {
    assert Pow2(4) == 16;
    assert Pow2(8) == 256;
    assert Pow2(16) == 0x1_0000 by { assert Pow2(12) == 4096; }
    assert Pow2(20) == 0x10_0000;
    assert Pow2(24) == 0x100_0000;
    assert Pow2(28) == 0x1000_0000;
    assert Pow2(32) == WORD;
  }

  /** The step is injective at zero on 32-bit registers, because the polynomial's top bit is set. */
  lemma {:induction false} StepNonzero(x: U32)
    ensures Step(x) < WORD
    ensures Step(x) == 0 <==> x == 0
  {
    PowersOfWord();
    XorBelow(x / 2, POLYNOMIAL, 32);
    XorZero(x / 2);
    XorCancel(x / 2, POLYNOMIAL);
  }

  lemma {:induction false} StepsNonzero(x: U32, n: nat)
    ensures Steps(x, n) < WORD
    ensures Steps(x, n) == 0 <==> x == 0
    decreases n
  {
    if n > 0 {
      StepNonzero(x);
      StepsNonzero(Step(x), n - 1);
    }
  }

  // ----- the bit-at-a-time CRC -----

  /** The textbook serial CRC: each message bit is added to the register, then the register steps once. */
  function Feed(r: nat, bits: BitString): nat
    decreases |bits|
  {
    if bits == [] then r else Feed(Step(Xor(r, Bit(bits[0]))), bits[1..])
  }

  lemma {:induction false} FeedAppend(r: nat, a: BitString, b: BitString)
    ensures Feed(r, a + b) == Feed(Feed(r, a), b)
    decreases |a|
  {
    if a == [] {
      assert a + b == b;
    } else {
      assert (a + b)[1..] == a[1..] + b;
      FeedAppend(Step(Xor(r, Bit(a[0]))), a[1..], b);
    }
  }

  /** One serial step, when `2 * w` of the message is still to come. */
  lemma {:induction false} FeedOne(r: nat, b: nat, w: nat)
    requires b < 2
    ensures Step(Xor(r, b + 2 * w)) == Xor(Step(Xor(r, b)), w)
  {
    hide Xor;
    assert Shl(w, 1) == 2 * w && Pow2(1) == 2 by { assert Shl(w, 0) == w && Pow2(0) == 1; }
    XorDisjoint(w, b, 1);
    XorComm(2 * w, b);
    XorAssoc(r, b, 2 * w);
    StepLinear(Xor(r, b), 2 * w);
    XorZero(w);
  }

  /** Feeding bit by bit equals adding the whole message as one number and stepping once per bit. */
  lemma {:induction false} FeedAtOnce(r: nat, bits: BitString)
    ensures Feed(r, bits) == Steps(Xor(r, Word(bits)), |bits|)
    decreases |bits|
  {
    hide Xor, Step;
    if bits == [] {
      XorZero(r);
    } else {
      var b, rest := Bit(bits[0]), bits[1..];
      FeedOne(r, b, Word(rest));
      FeedAtOnce(Step(Xor(r, b)), rest);
    }
  }

  // ----- bytes -----

  /** A string as transmitted: bytes in order, least significant bit first. */
  function Transmitted(s: seq<Byte>): (bits: BitString)
    ensures |bits| == 8 * |s|
  {
    if s == [] then [] else BitsOf(s[0], 8) + Transmitted(s[1..])
  }

  /** The register after a string, one byte at a time: add the byte, take eight steps. */
  function Register(r: nat, s: seq<Byte>): nat
    decreases |s|
  {
    if s == [] then r else Register(Steps(Xor(r, s[0]), 8), s[1..])
  }

  /** `crc32`: preset and inverted. */
  function Crc(c: nat, s: seq<Byte>): nat {
    Xor(Register(Xor(c, ALL_ONES), s), ALL_ONES)
  }

  /** The bytewise register is the bit-at-a-time CRC of the transmitted bits, on every string. */
  lemma {:induction false} RegisterIsSerial(r: nat, s: seq<Byte>)
    ensures Register(r, s) == Feed(r, Transmitted(s))
    decreases |s|
  {
    if s != [] {
      var r' := Steps(Xor(r, s[0]), 8);
      PowersOfWord();
      WordOfBits(s[0], 8);
      FeedAtOnce(r, BitsOf(s[0], 8));
      FeedAppend(r, BitsOf(s[0], 8), Transmitted(s[1..]));
      RegisterIsSerial(r', s[1..]);
    }
  }

  lemma {:induction false} RegisterAppend(r: nat, a: seq<Byte>, b: seq<Byte>)
    ensures Register(r, a + b) == Register(Register(r, a), b)
    decreases |a|
  {
    if a == [] {
      assert a + b == b;
    } else {
      assert (a + b)[1..] == a[1..] + b;
      RegisterAppend(Steps(Xor(r, a[0]), 8), a[1..], b);
    }
  }

  /** The chaining value: the CRC of a concatenation continues from the CRC of its first part. */
  lemma {:induction false} CrcChains(c: nat, a: seq<Byte>, b: seq<Byte>)
    ensures Crc(c, a + b) == Crc(Crc(c, a), b)
  {
    RegisterAppend(Xor(c, ALL_ONES), a, b);
    XorCancel(ALL_ONES, Register(Xor(c, ALL_ONES), a));
  }

  // ----- the table -----

  /** Entry `b` of the table: the eight-step reduction of byte `b`. */
  function Entry(b: nat): nat { Steps(b, 8) }

  /** One table-driven step replaces eight bit steps. */
  lemma {:induction false} TableStep(crc: nat, b: Byte)
    ensures Steps(Xor(crc, b), 8) == Xor(crc / 256, Entry(Xor(crc, b) % 256))
  {
    hide Steps, Xor, Shr, Low, Shl;
    PowersOfWord();
    var x := Xor(crc, b);
    ShrIsDiv(x, 8);
    ShrIsDiv(crc, 8);
    ShrIsDiv(b, 8);
    XorShr(crc, b, 8);
    XorZero(crc / 256);
    XorDisjoint(x / 256, x % 256, 8);
    StepsLinear(Shl(x / 256, 8), x % 256, 8);
    StepsShift(x / 256, 8);
  }

  // The index arithmetic of the two loops: `Low(k, n) == 0` says that k is a multiple of 2^n.

  lemma LowStep(a: nat, n: nat)
    ensures Low(a, n + 1) == 2 * Low(a / 2, n) + a % 2
  {}

  lemma {:induction false} NextSlot(j: nat, m: nat)
    requires Low(j, m + 1) == 0
    ensures Low(j + Pow2(m), m + 1) == Pow2(m) && Low(j + Pow2(m + 1), m + 1) == 0
    decreases m
  {
    hide Low, Pow2;
    Doubles(m);
    LowStep(j, m);
    var h, p := j / 2, Pow2(m);
    assert j == 2 * h;
    LowStep(j + p, m);
    LowStep(j + 2 * p, m);
    assert (j + 2 * p) / 2 == h + p && (j + 2 * p) % 2 == 0;
    if m > 0 {
      Doubles(m - 1);
      NextSlot(h, m - 1);
      assert (j + p) / 2 == h + Pow2(m - 1) && (j + p) % 2 == 0;
    }
  }

  lemma {:induction false} SlotBetween(j: nat, k: nat, m: nat)
    requires Low(j, m + 1) == 0 && Low(k, m + 1) == Pow2(m)
    ensures k < j + Pow2(m + 1) <==> k < j || k == Pow2(m) + j
    decreases m
  {
    if m > 0 {
      hide Low, Pow2;
      Doubles(m);
      Doubles(m - 1);
      LowStep(j, m);
      LowStep(k, m);
      SlotBetween(j / 2, k / 2, m - 1);
    }
  }

  lemma {:induction false} HalfStride(k: nat, m: nat)
    ensures Low(k, m) == 0 <==> Low(k, m + 1) == 0 || Low(k, m + 1) == Pow2(m)
    decreases m
  {
    if m > 0 { HalfStride(k / 2, m - 1); }
  }

  /** What the stores of a stride up to j + i have filled, from what those before have. */
  lemma {:induction false} StrideFilled(e: nat, d: nat, i: nat, j: nat, before: set<nat>, written: set<nat>)
    requires d == e + 1 && e < 8 && i == Pow2(e) && Low(j, d) == 0 && j < 256
    requires forall k: nat :: k in before <==> k < 256 && Low(k, d) == 0
    requires forall k: nat :: k in written <==> k in before || (k < j && Low(k, d) == i)
    ensures i + j < 256 && j + 2 * i <= 256 && i + j !in written && j in written
    ensures forall k: nat :: k in written + {i + j} <==> k in before || (k < j + 2 * i && Low(k, d) == i)
  {
    hide Low, Pow2;
    PowersOfWord();
    Doubles(e);
    NextSlot(j, e);
    SlotInRange(j, d, 8);
    PositivePower(e);
    forall k: nat | Low(k, d) == i ensures k < j + 2 * i <==> k < j || k == i + j {
      SlotBetween(j, k, e);
    }
  }

  lemma {:induction false} PositivePower(n: nat)
    ensures Pow2(n) > 0
  {}

  lemma {:induction false} SlotInRange(j: nat, e: nat, n: nat)
    requires Low(j, e) == 0 && e <= n && j < Pow2(n)
    ensures j + Pow2(e) <= Pow2(n)
    decreases e
  {
    if e > 0 { SlotInRange(j / 2, e - 1, n - 1); }
  }

  /** Entries combine when an index is made of a lone bit and a multiple of twice that bit. */
  lemma {:induction false} EntryCombines(j: nat, m: nat)
    requires Low(j, m + 1) == 0
    ensures Entry(Pow2(m) + j) == Xor(Entry(j), Entry(Pow2(m)))
  {
    hide Xor, Shl, Shr, Low, Steps;
    ShrIsDiv(j, m + 1);
    assert Pow2(m) < Pow2(m + 1);
    XorDisjoint(Shr(j, m + 1), Pow2(m), m + 1);
    StepsLinear(j, Pow2(m), 8);
  }

  /** The doubling trick: the entry of a bit is one step after the entry of the next higher bit. */
  lemma {:induction false} EntryHalves(i: nat)
    ensures Entry(i) == Step(Entry(2 * i))
  {
    hide Xor;
    XorZero(i);
    assert Step(2 * i) == i;
    StepsAdd(2 * i, 8, 1);
    StepsAdd(2 * i, 1, 8);
  }

  lemma {:induction false} EntryOfZero()
    ensures Entry(0) == 0 && Entry(256) == 1
  {
    StepsNonzero(0, 8);
    StepsShift(1, 8);
    PowersOfWord();
    ShlIsMul(1, 8);
  }

  /** The static table and its routines. */
  class CrcTable {
    var table: array<nat>

    /** The table as the program starts with it. */
    constructor ()
      ensures fresh(table) && table.Length == 256 && forall k :: 0 <= k < 256 ==> table[k] == 0
      ensures Usable()
    {
      table := new nat[256](_ => 0);
    }

    ghost predicate Filled()
      reads this, table
    {
      table.Length == 256 && forall k :: 0 <= k < 256 ==> table[k] == Entry(k)
    }

    /** Either not built yet, which the last entry tells, or built. */
    ghost predicate Usable()
      reads this, table
    {
      table.Length == 256 && (table[255] != 0 ==> Filled())
    }

    /** `make_crc_table`: `stores` counts the stores at each index, and `last` is the index of the last one. Every index
        is stored exactly once, so that at every moment an entry is either what it was or final, and the entry
        `crc32` looks at to see whether the table is there comes last. */
    method MakeCrcTable() returns (ghost stores: multiset<nat>, ghost last: nat)
      requires table.Length == 256
      modifies table
      ensures Filled()
      ensures forall k: nat :: stores[k] == if k < 256 then 1 else 0
      ensures last == 255
    {
      hide Entry, Xor, Low, Steps, Pow2;
      EntryOfZero();
      PowersOfWord();
      var h := 1;
      table[0] := 0;
      ghost var written: set<nat> := {0};
      stores, last := multiset{0}, 0;
      ghost var e: nat := 8;
      forall k: nat ensures k == 0 <==> k < 256 && Low(k, 8) == 0 { SmallMultiple(k, 8); }
      var i := 128;
      while i != 0
        invariant i == if e == 0 then 0 else Pow2(e - 1)
        invariant e <= 8
        invariant forall k: nat :: k in written <==> k < 256 && Low(k, e) == 0
        invariant stores == multiset(written)
        invariant forall k: nat :: k < 256 ==> table[k] == if k in written then Entry(k) else old(table[k])
        invariant h == Entry(Pow2(e)) && (e < 8 ==> last == 256 - Pow2(e))
        decreases i
      {
        e := e - 1;
        Doubles(e);
        EntryHalves(i);
        h := Xor(h / 2, if h % 2 == 1 then POLYNOMIAL else 0);
        written, stores, last := FillStride(i, h, e, written, stores);
        i := i / 2;
        if e > 0 { Doubles(e - 1); }
      }
      Doubles(0);
    }

    /** The inner loop: the entries at odd multiples of `i`, from those at multiples of `2 * i`. */
    method FillStride(i: nat, h: nat, ghost e: nat, ghost before: set<nat>, ghost stored: multiset<nat>)
      returns (ghost written: set<nat>, ghost stores: multiset<nat>, ghost last: nat)
      requires table.Length == 256 && e < 8 && i == Pow2(e) && h == Entry(i)
      requires forall k: nat :: k in before <==> k < 256 && Low(k, e + 1) == 0
      requires stored == multiset(before) && forall k: nat :: k in before ==> k < 256 && table[k] == Entry(k)
      modifies table
      ensures forall k: nat :: k in written <==> k < 256 && Low(k, e) == 0
      ensures stores == multiset(written) && before <= written
      ensures forall k: nat :: k < 256 ==> table[k] == if k in written then Entry(k) else old(table[k])
      ensures last == 256 - i
    {
      hide Entry, Xor, Low, Steps, Pow2;
      PowersOfWord();
      Doubles(e);
      ghost var d: nat := e + 1;
      written, stores, last := before, stored, 0;
      var j := 0;
      SmallMultiple(0, d);
      while j < 256
        invariant j <= 256 && Low(j, d) == 0 && (j > 0 ==> last == j - i)
        invariant forall k: nat :: k in written <==> k in before || (k < j && Low(k, d) == i)
        invariant stores == multiset(written)
        invariant forall k: nat :: k < 256 ==> table[k] == if k in written then Entry(k) else old(table[k])
        decreases 256 - j
      {
        NextSlot(j, e);
        EntryCombines(j, e);
        StrideFilled(e, d, i, j, before, written);
        table[i + j] := Xor(table[j], h);
        stores, last := stores + multiset{i + j}, i + j;
        written := written + {i + j};
        j := j + 2 * i;
      }
      forall k: nat
        ensures Low(k, e) == 0 <==> Low(k, d) == 0 || Low(k, d) == i
      {
        HalfStride(k, e);
      }
    }

    /** `crc32`: builds the table on first use, then takes one table step per byte. */
    method Crc32(crc: U32, buf: seq<Byte>) returns (r: U32)
      requires Usable()
      modifies table
      ensures Filled() && Usable()
      ensures r == Crc(crc, buf)
    {
      hide Crc, Entry, Xor, Register;
      if table[255] == 0 {
        ghost var _, _ := MakeCrcTable();
      }
      PowersOfWord();
      XorBelow(crc, ALL_ONES, 32);
      var reg: U32 := Xor(crc, ALL_ONES);
      RegisterStart(reg, buf);
      for i := 0 to |buf|
        invariant Filled()
        invariant reg == Register(Xor(crc, ALL_ONES), buf[..i])
      {
        TableStep(reg, buf[i]);
        RegisterSnoc(Xor(crc, ALL_ONES), buf, i);
        StepsBelow(reg, buf[i]);
        reg := Xor(reg / 256, table[Xor(reg, buf[i]) % 256]);
      }
      assert buf[..|buf|] == buf;
      CrcIsRegister(crc, buf);
      XorBelow(reg, ALL_ONES, 32);
      return Xor(reg, ALL_ONES);
    }
  }

  lemma RegisterStart(r: nat, s: seq<Byte>)
    ensures Register(r, s[..0]) == r
  {}

  lemma {:induction false} RegisterSnoc(r: nat, s: seq<Byte>, i: nat)
    requires i < |s|
    ensures Register(r, s[..i + 1]) == Steps(Xor(Register(r, s[..i]), s[i]), 8)
  {
    assert s[..i + 1] == s[..i] + [s[i]];
    RegisterAppend(r, s[..i], [s[i]]);
    assert [s[i]][1..] == [];
  }

  lemma {:induction false} StepsBelow(r: U32, b: Byte)
    ensures Steps(Xor(r, b), 8) < WORD
  {
    PowersOfWord();
    XorBelow(r, b, 32);
    StepsNonzero(Xor(r, b), 8);
  }

  lemma CrcIsRegister(c: nat, s: seq<Byte>)
    ensures Crc(c, s) == Xor(Register(Xor(c, ALL_ONES), s), ALL_ONES)
  {}

  lemma Doubles(n: nat)
    ensures Pow2(n + 1) == 2 * Pow2(n) && (n == 0 ==> Pow2(n) == 1)
    ensures forall k: nat :: Low(k, 0) == 0
  {}

  lemma {:induction false} SmallMultiple(k: nat, n: nat)
    ensures k == 0 <==> k < Pow2(n) && Low(k, n) == 0
    decreases n
  {
    if n > 0 { SmallMultiple(k / 2, n - 1); }
  }
}
