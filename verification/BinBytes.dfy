/** The documented wire format of bin_prot, byte for byte. */
module BinBytes {
  import opened Bits
  import opened BinCodec
  import opened BinTypes
  import opened BinWrite
  import opened BinRead
  import opened BinTheorems
  import opened Octets
  import opened Options

  // Section 4 of its README, and the byte strings of its tests.

  // ----- integers -----

  /** The k lowest bytes of a two's complement integer, lowest first. */
  ghost predicate LowBytes(s: Bytes, n: int, k: nat) {
    |s| == k && forall i: nat :: i < k ==> s[i] == n / Pow256(i) % 256
  }

  /** A code byte and the k lowest bytes of the integer. */
  ghost predicate Coded(s: Bytes, code: Byte, n: int, k: nat) {
    s != [] && s[0] == code && LowBytes(s[1..], n, k)
  }

  lemma {:induction false} TwoDigits(t: nat, b: nat, r: nat, a: nat)
    requires t < b && r < a
    ensures a * t + r < a * b && a * b > 0
  {
    var d := b - 1 - t;
    assert a * d >= 0;
    assert a * b == a * t + a + a * d;
  }

  lemma {:induction false} DivTwice(n: int, a: nat, b: nat)
    requires a > 0 && b > 0
    ensures n / a / b == n / (a * b)
  {
    var q, r := n / a, n % a;
    var s, t := q / b, q % b;
    TwoDigits(t, b, r, a);
    assert n == s * (a * b) + (a * t + r) by {
      assert n == a * q + r && q == b * s + t;
      assert a * (b * s + t) == s * (a * b) + a * t;
    }
    DivModUnique(n, a * b, s, a * t + r);
  }

  lemma {:induction false} LittleEndianBytes(n: int, k: nat)
    ensures LowBytes(LittleEndian(n, k), n, k)
    decreases k
  {
    if k > 0 {
      var s := LittleEndian(n / 256, k - 1);
      LittleEndianBytes(n / 256, k - 1);
      assert LittleEndian(n, k) == [n % 256] + s;
      forall i: nat | i < k ensures LittleEndian(n, k)[i] == n / Pow256(i) % 256 {
        if i > 0 {
          assert LittleEndian(n, k)[i] == s[i - 1];
          DivTwice(n, 256, Pow256(i - 1));
        }
      }
    }
  }

  lemma {:induction false} CodedBytes(code: Byte, n: int, k: nat)
    ensures Coded([code] + LittleEndian(n, k), code, n, k)
  {
    LittleEndianBytes(n, k);
    assert ([code] + LittleEndian(n, k))[1..] == LittleEndian(n, k);
  }

  /** Integers of every type. */
  lemma {:induction false} Integers(n: int)
    ensures 0 <= n < 0x80 ==> EncInt(n) == [n]
    ensures -0x80 <= n < 0 ==> Coded(EncInt(n), 0xff, n, 1)
    ensures -0x8000 <= n < -0x80 || 0x80 <= n < 0x8000 ==> Coded(EncInt(n), 0xfe, n, 2)
    ensures -0x8000_0000 <= n < -0x8000 || 0x8000 <= n < 0x8000_0000 ==> Coded(EncInt(n), 0xfd, n, 4)
    ensures n < -0x8000_0000 || n >= 0x8000_0000 ==> Coded(EncInt(n), 0xfc, n, 8)
  {
    hide Coded, LittleEndian;
    CodedBytes(0xff, n, 1);
    CodedBytes(0xfe, n, 2);
    CodedBytes(0xfd, n, 4);
    CodedBytes(0xfc, n, 8);
  }

  /** Natural numbers: sizes and lengths. */
  lemma {:induction false} Naturals(n: nat)
    ensures n < 0x80 ==> EncNat0(n) == [n]
    ensures 0x80 <= n < 0x1_0000 ==> Coded(EncNat0(n), 0xfe, n, 2)
    ensures 0x1_0000 <= n < 0x1_0000_0000 ==> Coded(EncNat0(n), 0xfd, n, 4)
    ensures n >= 0x1_0000_0000 ==> Coded(EncNat0(n), 0xfc, n, 8)
  {
    hide Coded, LittleEndian;
    CodedBytes(0xfe, n, 2);
    CodedBytes(0xfd, n, 4);
    CodedBytes(0xfc, n, 8);
  }

  // ----- sums -----

  lemma {:induction false} OneTagByte(n: nat)
    requires n < 0x100
    ensures LittleEndian(n, 1) == [n]
  {
    assert LittleEndian(n / 256, 0) == [];
  }

  lemma {:induction false} TwoTagBytes(n: nat)
    requires n < 0x1_0000
    ensures LittleEndian(n, 2) == [n % 256, n / 256]
  {
    assert LittleEndian(n / 256 / 256, 0) == [];
    assert LittleEndian(n / 256, 1) == [n / 256 % 256];
  }

  /** A constructor is written as its number, in one byte when the type has at most 256 constructors and in two, the
      lower first, when it has more; its arguments follow, and the size is that of all this. */
  lemma {:induction false} SumBytes(env: Env, n: nat, v: Value)
    requires WfEnv(env) && n < |env| && env[n].Sum? && HasType(env, TNamed(n), v)
    ensures WfDef(env, n) && v.VCon? && v.alt < |env[n].alts| && HaveTypes(env, env[n].alts[v.alt], v.args)
    ensures var args := WriteArgs(env, env[n].alts[v.alt], v.args);
            && (|env[n].alts| <= 256 ==>
                  && v.alt < 256 && Write(env, TNamed(n), v) == [v.alt] + args
                  && Size(env, TNamed(n), v) == 1 + |args|)
            && (|env[n].alts| > 256 ==>
                  && v.alt < 0x1_0000 && Write(env, TNamed(n), v) == [v.alt % 256, v.alt / 256] + args
                  && Size(env, TNamed(n), v) == 2 + |args|)
    ensures v.args == [] ==> WriteArgs(env, env[n].alts[v.alt], v.args) == []
  {
    assert WfDef(env, n) && DefHasType(env, n, v);
    SizeIsLength(env, TNamed(n), v);
    hide HaveTypes, WriteArgs, Size, LittleEndian;
    if |env[n].alts| <= 256 { OneTagByte(v.alt); } else { TwoTagBytes(v.alt); }
    NoArguments(env, env[n].alts[v.alt], v.args);
  }

  lemma NoArguments(env: Env, ts: seq<Type>, vs: seq<Value>)
    requires WfEnv(env) && WfTypes(env, ts) && HaveTypes(env, ts, vs)
    ensures vs == [] ==> WriteArgs(env, ts, vs) == []
  {}

  lemma {:induction false} OneByteNumber(b: Bytes, pos: nat)
    ensures DecUnsigned(b, pos, 1) == if pos >= |b| then Short else Ok(b[pos], pos + 1)
  {
    if pos < |b| {
      var s := b[pos..pos + 1];
      assert s[0] == b[pos] && s[1..] == [];
      assert Unsigned(s[1..]) == 0;
    }
  }

  lemma {:induction false} TwoByteNumber(b: Bytes, pos: nat)
    ensures DecUnsigned(b, pos, 2) ==
            if pos + 2 > |b| then Short else Ok(b[pos] as nat + 256 * (b[pos + 1] as nat), pos + 2)
  {
    if pos + 2 <= |b| {
      var s := b[pos..pos + 2];
      assert s[0] == b[pos] && s[1] == b[pos + 1] && s[1..][1..] == [];
      assert Unsigned(s[1..][1..]) == 0;
      assert Unsigned(s[1..]) == s[1];
    }
  }

  /** The number the reader of a sum finds at `pos`, and where the arguments start. */
  function NumberAt(alts: nat, b: Bytes, pos: nat): Result<nat> {
    if alts <= 256 then
      if pos >= |b| then Short else Ok(b[pos], pos + 1)
    else
      if pos + 2 > |b| then Short else Ok(b[pos] as nat + 256 * (b[pos + 1] as nat), pos + 2)
  }

  /** The reader takes the number back from its one or two bytes; a number that no constructor has is an error at the
      byte after it. */
  lemma {:induction false} SumReads(env: Env, n: nat, b: Bytes, pos: nat)
    requires WfEnv(env) && n < |env| && env[n].Sum? && pos <= |b|
    ensures WfDef(env, n)
    ensures var alts, r := env[n].alts, NumberAt(|env[n].alts|, b, pos);
            && (r.Short? ==> Read(env, TNamed(n), b, pos) == Short)
            && (r.Ok? && r.value >= |alts| ==> Read(env, TNamed(n), b, pos) == Fail(SumTag(n), r.next))
            && (r.Ok? && r.value < |alts| ==>
                  && r.next <= |b| && WfTypes(env, alts[r.value])
                  && var a := ReadArgs(env, alts[r.value], b, r.next);
                     && (a.Ok? ==> Read(env, TNamed(n), b, pos) == Ok(VCon(r.value, a.value), a.next))
                     && (a.Short? ==> Read(env, TNamed(n), b, pos) == Short)
                     && (a.Fail? ==> Read(env, TNamed(n), b, pos) == Fail(a.error, a.at)))
  {
    assert WfDef(env, n);
    assert Read(env, TNamed(n), b, pos) == ReadDef(env, n, b, pos) == ReadSum(env, n, env[n].alts, b, pos);
    hide Read, ReadDef, DecUnsigned, ReadArgs;
    OneByteNumber(b, pos);
    TwoByteNumber(b, pos);
  }

  /** `type t = A | B`: both constructors, and a number that is neither. */
  lemma {:induction false} TwoConstructors()
    ensures var env: Env := [Sum([[], []])];
            && WfEnv(env) && HasType(env, TNamed(0), VCon(0, [])) && HasType(env, TNamed(0), VCon(1, []))
            && Write(env, TNamed(0), VCon(0, [])) == [0] && Write(env, TNamed(0), VCon(1, [])) == [1]
            && Size(env, TNamed(0), VCon(0, [])) == Size(env, TNamed(0), VCon(1, [])) == 1
            && Read(env, TNamed(0), [1], 0) == Ok(VCon(1, []), 1)
            && Read(env, TNamed(0), [2], 0) == Fail(SumTag(0), 1) && Read(env, TNamed(0), [], 0) == Short
  {
    var env: Env := [Sum([[], []])];
    assert WfDef(env, 0);
    Enumerated(env, 0);
    Enumerated(env, 1);
    hide HasType, Write, Size, Read, ReadArgs;
    SumBytes(env, 0, VCon(0, []));
    SumBytes(env, 0, VCon(1, []));
    SumReads(env, 0, [1], 0);
    SumReads(env, 0, [2], 0);
    SumReads(env, 0, [], 0);
  }

  lemma Enumerated(env: Env, alt: nat)
    requires WfEnv(env) && env == [Sum([[], []])] && alt < 2
    ensures HasType(env, TNamed(0), VCon(alt, []))
    ensures WfTypes(env, []) && ReadArgs(env, [], [1], 1) == Ok([], 1)
  {
    assert HaveTypes(env, [], []);
  }

  // ----- polymorphic variants -----

  lemma {:induction false} FourByteNumber(b: Bytes, pos: nat)
    requires pos + 4 <= |b|
    ensures DecUnsigned(b, pos, 4) == Ok(TagAt(b, pos), pos + 4)
  {
    var s := b[pos..pos + 4];
    assert s[1..][1..] == s[2..] && s[2..][1..] == s[3..] && s[3..][1..] == [];
    assert Unsigned(s[3..]) == s[3];
    assert Unsigned(s[2..]) == s[2] as nat + 256 * Unsigned(s[3..]);
    assert Unsigned(s[1..]) == s[1] as nat + 256 * Unsigned(s[2..]);
  }

  /** The 32-bit number at `pos`. */
  function TagAt(b: Bytes, pos: nat): nat
    requires pos + 4 <= |b|
  {
    b[pos] as nat + 0x100 * (b[pos + 1] as nat) + 0x1_0000 * (b[pos + 2] as nat) + 0x100_0000 * (b[pos + 3] as nat)
  }

  /** A variant is its four bytes of tag, and then the argument of the first row with that tag. An even number and a tag
      that no row has are different errors, both at the tag. */
  lemma {:induction false} VariantReads(env: Env, rows: seq<Row>, b: Bytes, pos: nat)
    requires WfEnv(env) && WfRows(env, rows) && pos <= |b|
    ensures pos + 4 > |b| ==> Read(env, TVariant(rows), b, pos) == Short
    ensures pos + 4 <= |b| ==>
              var tag, r := TagAt(b, pos), Read(env, TVariant(rows), b, pos);
              if tag % 2 == 0 then r == Fail(VariantTag, pos) else
                match FindRow(env, rows, tag)
                case None => r == Fail(VariantError, pos)
                case Some(Leaf(_, None)) => r == Ok(VTag(tag), pos + 4)
                case Some(Leaf(_, Some(arg))) =>
                  match Read(env, arg, b, pos + 4)
                  case Ok(v, next) => r == Ok(VTagged(tag, v), next)
                  case Short => r == Short
                  case Fail(e, at) => r == Fail(e, at)
  {
    assert Read(env, TVariant(rows), b, pos) == ReadVariant(env, rows, b, pos);
    hide Read, Eval, FindRow, VariantCode, Unsigned, WfEnv, WfRows;
    if pos + 4 <= |b| {
      FourByteNumber(b, pos);
      VariantCodeSelectsFirst(env, rows, TagAt(b, pos), b, pos + 4);
    }
  }

  /** type u = [ `A ] and type v = [ u | `B of int ], whose tags are 131 and 133. */
  const TWO_VARIANTS: Env := [Variants([Atom(131)]), Variants([Inherit(0), Of(133, TInt)])]

  lemma {:induction false} TwoVariantsWf()
    ensures WfEnv(TWO_VARIANTS) && WfRows(TWO_VARIANTS, [Inherit(0), Of(133, TInt)])
    ensures Flatten(TWO_VARIANTS, [Inherit(0), Of(133, TInt)]) == [Leaf(131, None), Leaf(133, Some(TInt))]
  {
    var env, rows := TWO_VARIANTS, [Inherit(0), Of(133, TInt)];
    assert rows[1..] == [Of(133, TInt)] && rows[1..][1..] == [];
    assert RowsLevel(rows[1..]) == 0 by { assert RowsLevel([]) == 0; }
    assert RowsLevel([Atom(131)]) == 0 by { assert [Atom(131)][1..] == [] && RowsLevel([]) == 0; }
    assert WfDef(env, 0);
    assert WfRow(env, rows[0]) && WfRow(env, rows[1]);
    assert WfDef(env, 1);
    assert Flatten(env, [Atom(131)]) == [Leaf(131, None)] by {
      assert [Atom(131)][1..] == [] && Flatten(env, []) == [];
    }
    assert Flatten(env, rows[1..]) == [Leaf(133, Some(TInt))] by { assert Flatten(env, []) == []; }
  }

  lemma {:induction false} TwoTags(tag: nat)
    ensures var r := Find([Leaf(131, None), Leaf(133, Some(TInt))], tag);
            r == if tag == 131 then Some(Leaf(131, None)) else if tag == 133 then Some(Leaf(133, Some(TInt))) else None
  {
    var s := [Leaf(131, None), Leaf(133, Some(TInt))];
    assert s[1..] == [Leaf(133, Some(TInt))] && s[1..][1..] == [];
    assert Find([], tag) == None;
  }

  lemma RowsFound(tag: nat)
    ensures WfEnv(TWO_VARIANTS) && WfRows(TWO_VARIANTS, [Inherit(0), Of(133, TInt)])
    ensures FindRow(TWO_VARIANTS, [Inherit(0), Of(133, TInt)], tag) ==
            if tag == 131 then Some(Leaf(131, None)) else if tag == 133 then Some(Leaf(133, Some(TInt))) else None
  {
    hide Flatten, Find, WfRows, WfEnv, TWO_VARIANTS;
    TwoVariantsWf();
    TwoTags(tag);
  }

  lemma SmallIntRead(env: Env, b: Bytes, pos: nat)
    requires WfEnv(env) && pos < |b| && b[pos] < 128
    ensures Read(env, TInt, b, pos) == Ok(VInt(b[pos]), pos + 1)
  {}

  /** The reader of the second type: the inherited tag, its own with an argument, and other tags. */
  lemma {:induction false} InheritedTag()
    ensures WfEnv(TWO_VARIANTS) && WfRows(TWO_VARIANTS, [Inherit(0), Of(133, TInt)])
    ensures var t := TVariant([Inherit(0), Of(133, TInt)]);
            && Read(TWO_VARIANTS, t, [131, 0, 0, 0], 0) == Ok(VTag(131), 4)
            && Read(TWO_VARIANTS, t, [133, 0, 0, 0, 7], 0) == Ok(VTagged(133, VInt(7)), 5)
            && Read(TWO_VARIANTS, t, [135, 0, 0, 0], 0) == Fail(VariantError, 0)
            && Read(TWO_VARIANTS, t, [132, 0, 0, 0], 0) == Fail(VariantTag, 0)
  {
    hide Read, FindRow, WfEnv, WfRows, TWO_VARIANTS;
    var env, rows := TWO_VARIANTS, [Inherit(0), Of(133, TInt)];
    RowsFound(131);
    RowsFound(133);
    RowsFound(135);
    VariantReads(env, rows, [131, 0, 0, 0], 0);
    VariantReads(env, rows, [133, 0, 0, 0, 7], 0);
    VariantReads(env, rows, [135, 0, 0, 0], 0);
    VariantReads(env, rows, [132, 0, 0, 0], 0);
    SmallIntRead(env, [133, 0, 0, 0, 7], 4);
  }

  // ----- the other values -----

  /** Unit, booleans, options, strings and tags of polymorphic variants. */
  lemma {:induction false} SmallValues(env: Env, t: Type, v: Value, s: Bytes, tag: nat)
    requires WfEnv(env) && WfType(env, t) && HasType(env, t, v) && |s| <= MAX_STRING
    ensures Write(env, TUnit, VUnit) == [0]
    ensures Write(env, TBool, VBool(false)) == [0] && Write(env, TBool, VBool(true)) == [1]
    ensures Write(env, TOption(t), VNone) == [0] && Write(env, TOption(t), VSome(v)) == [1] + Write(env, t, v)
    ensures |s| < 0x80 ==> Write(env, TString, VString(s)) == [|s|] + s
    ensures LowBytes(WriteTag(tag), tag, 4)
  {
    LittleEndianBytes(tag, 4);
    hide LittleEndian, LowBytes;
  }

  /** Any other byte than the documented ones is refused where it stands, and nothing is read from an empty buffer. */
  lemma {:induction false} SmallReaders(env: Env, t: Type, b: Bytes, pos: nat)
    requires WfEnv(env) && WfType(env, t) && pos <= |b|
    ensures pos == |b| ==>
              Read(env, TUnit, b, pos) == Read(env, TBool, b, pos) == Read(env, TOption(t), b, pos) == Short
    ensures pos < |b| && b[pos] > 0 ==> Read(env, TUnit, b, pos) == Fail(UnitCode, pos)
    ensures pos < |b| && b[pos] > 1 ==> Read(env, TBool, b, pos) == Fail(BoolCode, pos)
    ensures pos < |b| && b[pos] > 1 ==> Read(env, TOption(t), b, pos) == Fail(OptionCode, pos)
  {}

  // ----- byte strings of the tests -----

  lemma {:induction false} EightBytes(s: Bytes)
    requires |s| == 8
    ensures Unsigned(s) == s[0] as nat + 0x100 * (s[1] as nat) + 0x1_0000 * (s[2] as nat) + 0x100_0000 * (s[3] as nat)
                           + 0x1_0000_0000 * (s[4] as nat) + 0x100_0000_0000 * (s[5] as nat)
                           + 0x1_0000_0000_0000 * (s[6] as nat) + 0x100_0000_0000_0000 * (s[7] as nat)
    ensures Signed(s) == if s[7] < 128 then Unsigned(s) as int else Unsigned(s) - TWO_64
  {
    PowersOf256();
    assert s[1..][1..] == s[2..] && s[2..][1..] == s[3..] && s[3..][1..] == s[4..] && s[4..][1..] == s[5..];
    assert s[5..][1..] == s[6..] && s[6..][1..] == s[7..] && s[7..][1..] == [];
    assert Unsigned(s[7..]) == s[7];
    assert Unsigned(s[6..]) == s[6] as nat + 256 * Unsigned(s[7..]);
    assert Unsigned(s[5..]) == s[5] as nat + 256 * Unsigned(s[6..]);
    assert Unsigned(s[4..]) == s[4] as nat + 256 * Unsigned(s[5..]);
    assert Unsigned(s[3..]) == s[3] as nat + 256 * Unsigned(s[4..]);
    assert Unsigned(s[2..]) == s[2] as nat + 256 * Unsigned(s[3..]);
    assert Unsigned(s[1..]) == s[1] as nat + 256 * Unsigned(s[2..]);
    hide Pow256;
  }

  /** An 8-byte field at the start of a string that ends with it. */
  lemma {:induction false} WideField(b: Bytes)
    requires |b| == 9 && b[0] == 0xfc
    ensures DecUnsigned(b, 1, 8) == Ok(Unsigned(b[1..]), 9) && DecSigned(b, 1, 8) == Ok(Signed(b[1..]), 9)
  {
    hide Unsigned, Signed;
    assert b[1..9] == b[1..];
  }

  lemma {:induction false} WideNumbers(top: Byte)
    ensures var b := [252, 255, 255, 255, 255, 255, 255, 255, top];
            var n := 0xff_ffff_ffff_ffff + 0x100_0000_0000_0000 * (top as nat);
            && DecUnsigned(b, 1, 8) == Ok(n, 9)
            && DecSigned(b, 1, 8) == Ok(if top < 128 then n as int else n - TWO_64, 9)
  {
    hide DecUnsigned, DecSigned, Signed, Unsigned;
    var b := [252, 255, 255, 255, 255, 255, 255, 255, top];
    WideField(b);
    EightBytes(b[1..]);
  }

  /** Bytes that are no code, and a negative byte that is not. */
  lemma {:induction false} RefusedCodes()
    ensures DecInt(KInt, [132], 0) == Fail(IntCode, 0) && DecInt(KInt32, [132], 0) == Fail(Int32Code, 0)
    ensures DecInt(KInt64, [132], 0) == Fail(Int64Code, 0) && DecNat0([128], 0) == Fail(Nat0Code, 0)
    ensures DecInt(KInt, [255, 127], 0) == Fail(NegInt8, 0) && DecInt(KInt, [255, 128], 0) == Ok(-128, 2)
  {
    hide DecUnsigned, DecSigned;
  }

  /** The ends of the ranges: the largest integer, and its neighbours outside. */
  lemma {:induction false} RefusedIntegers()
    ensures DecInt(KInt, [252, 255, 255, 255, 255, 255, 255, 255, 63], 0) == Ok(0x3fff_ffff_ffff_ffff, 9)
    ensures DecNat0([252, 255, 255, 255, 255, 255, 255, 255, 63], 0) == Ok(0x3fff_ffff_ffff_ffff, 9)
    ensures DecInt(KInt, [252, 255, 255, 255, 255, 255, 255, 255, 64], 0) == Fail(IntOverflow, 0)
    ensures DecInt(KInt, [252, 255, 255, 255, 255, 255, 255, 255, 191], 0) == Fail(IntOverflow, 0)
    ensures DecNat0([252, 255, 255, 255, 255, 255, 255, 255, 64], 0) == Fail(Nat0Overflow, 0)
    ensures DecInt(KInt32, [252, 255, 255, 255, 255, 255, 255, 255, 64], 0) == Fail(Int32Code, 0)
    ensures DecInt(KInt64, [252, 255, 255, 255, 255, 255, 255, 255, 64], 0) == Ok(0x40ff_ffff_ffff_ffff, 9)
  {
    hide DecUnsigned, DecSigned;
    WideNumbers(63);
    WideNumbers(64);
    WideNumbers(191);
  }

  lemma {:induction false} WideLength(b: Bytes, n: nat)
    requires |b| == 9 && b[0] == 0xfc && n < TWO_62
    requires n == b[1] as nat + 0x100 * (b[2] as nat) + 0x1_0000 * (b[3] as nat) + 0x100_0000 * (b[4] as nat)
                  + 0x1_0000_0000 * (b[5] as nat) + 0x100_0000_0000 * (b[6] as nat)
                  + 0x1_0000_0000_0000 * (b[7] as nat) + 0x100_0000_0000_0000 * (b[8] as nat)
    ensures DecNat0(b, 0) == Ok(n, 9)
  {
    hide Unsigned, Signed, DecUnsigned;
    WideField(b);
    EightBytes(b[1..]);
  }

  /** A buffer of nothing but a length holds no element. */
  lemma {:induction false} NothingBehind(env: Env, b: Bytes, len: nat)
    requires WfEnv(env) && DecNat0(b, 0) == Ok(len, |b|) && len > 0
    ensures DecString(b, 0) == if len > MAX_STRING then Fail(StringTooLong, 0) else Short
    ensures Read(env, TArray(TInt), b, 0) == if len > MAX_ARRAY then Fail(ArrayTooLong, 0) else Short
    ensures ReadFloatArray(b, 0) == if len > MAX_ARRAY then Fail(ArrayTooLong, 0) else Short
  {
    hide DecNat0, Unsigned;
    assert DecInt(KInt, b, |b|) == Short;
    assert Read(env, TInt, b, |b|) == Short;
    assert ReadN(env, TInt, len, b, |b|) == Short;
    assert |b| + 8 * len > |b|;
  }

  /** The longest string and the longest array that the readers accept: one more is an error, and these are not there
      in a buffer that ends. */
  lemma {:induction false} LengthLimits(env: Env)
    requires WfEnv(env)
    ensures DecString([252, 248, 255, 255, 255, 255, 255, 255, 1], 0) == Fail(StringTooLong, 0)
    ensures DecString([252, 247, 255, 255, 255, 255, 255, 255, 1], 0) == Short
    ensures Read(env, TArray(TInt), [252, 0, 0, 0, 0, 0, 0, 64, 0], 0) == Fail(ArrayTooLong, 0)
    ensures Read(env, TArray(TInt), [252, 255, 255, 255, 255, 255, 255, 63, 0], 0) == Short
    ensures ReadFloatArray([252, 0, 0, 0, 0, 0, 0, 64, 0], 0) == Fail(ArrayTooLong, 0)
    ensures ReadFloatArray([252, 255, 255, 255, 255, 255, 255, 63, 0], 0) == Short
  {
    hide DecNat0, DecString, Read, ReadFloatArray;
    WideLength([252, 248, 255, 255, 255, 255, 255, 255, 1], 0x1ff_ffff_ffff_fff8);
    NothingBehind(env, [252, 248, 255, 255, 255, 255, 255, 255, 1], 0x1ff_ffff_ffff_fff8);
    WideLength([252, 247, 255, 255, 255, 255, 255, 255, 1], 0x1ff_ffff_ffff_fff7);
    NothingBehind(env, [252, 247, 255, 255, 255, 255, 255, 255, 1], 0x1ff_ffff_ffff_fff7);
    WideLength([252, 0, 0, 0, 0, 0, 0, 64, 0], 0x40_0000_0000_0000);
    NothingBehind(env, [252, 0, 0, 0, 0, 0, 0, 64, 0], 0x40_0000_0000_0000);
    WideLength([252, 255, 255, 255, 255, 255, 255, 63, 0], 0x3f_ffff_ffff_ffff);
    NothingBehind(env, [252, 255, 255, 255, 255, 255, 255, 63, 0], 0x3f_ffff_ffff_ffff);
  }

  lemma {:induction false} EltsCons(env: Env, t: Type, v: Value, vs: seq<Value>)
    requires WfEnv(env) && WfType(env, t) && HasType(env, t, v)
    requires forall i :: 0 <= i < |vs| ==> HasType(env, t, vs[i])
    ensures forall i :: 0 <= i < |[v] + vs| ==> HasType(env, t, ([v] + vs)[i])
    ensures WriteElts(env, t, [v] + vs) == Write(env, t, v) + WriteElts(env, t, vs)
  {
    assert ([v] + vs)[1..] == vs;
    hide Write, HasType;
  }

  lemma {:induction false} IntegersOfTests()
    ensures EncInt(42) == [42] && EncInt(-1) == [255, 255] && EncInt(200) == [254, 200, 0]
    ensures EncInt(33000) == [253, 232, 128, 0, 0] && EncNat0(4) == [4]
  {
    Integers(-1);
    Integers(200);
    Integers(33000);
    PowersOf256();
    assert Pow256(0) == 1 && Pow256(3) == 0x100_0000;
    hide EncInt, EncNat0, Pow256;
  }

  lemma IntIsWritten(env: Env, n: int)
    requires WfEnv(env) && InKind(KInt, n)
    ensures HasType(env, TInt, VInt(n)) && Write(env, TInt, VInt(n)) == EncInt(n)
  {}

  lemma {:induction false} EltsOfTests(env: Env, vs: seq<Value>)
    requires WfEnv(env) && vs == [VInt(42)] + ([VInt(-1)] + ([VInt(200)] + ([VInt(33000)] + [])))
    ensures forall i :: 0 <= i < |vs| ==> HasType(env, TInt, vs[i])
    ensures WriteElts(env, TInt, vs) == [42] + ([255, 255] + ([254, 200, 0] + ([253, 232, 128, 0, 0] + [])))
  {
    NoElts(env, TInt);
    hide *;
    IntegersOfTests();
    IntIsWritten(env, 42);
    IntIsWritten(env, -1);
    IntIsWritten(env, 200);
    IntIsWritten(env, 33000);
    EltsCons(env, TInt, VInt(33000), []);
    EltsCons(env, TInt, VInt(200), [VInt(33000)] + []);
    EltsCons(env, TInt, VInt(-1), [VInt(200)] + ([VInt(33000)] + []));
    EltsCons(env, TInt, VInt(42), [VInt(-1)] + ([VInt(200)] + ([VInt(33000)] + [])));
  }

  lemma NoElts(env: Env, t: Type)
    requires WfEnv(env) && WfType(env, t)
    ensures WriteElts(env, t, []) == []
  {}

  lemma SequenceIsWritten(env: Env, vs: seq<Value>)
    requires WfEnv(env) && |vs| <= MAX_ARRAY && forall i :: 0 <= i < |vs| ==> HasType(env, TInt, vs[i])
    ensures HasType(env, TList(TInt), VList(vs)) && HasType(env, TArray(TInt), VArray(vs))
    ensures Write(env, TList(TInt), VList(vs)) == EncNat0(|vs|) + WriteElts(env, TInt, vs)
    ensures Write(env, TArray(TInt), VArray(vs)) == EncNat0(|vs|) + WriteElts(env, TInt, vs)
  {
    hide EncNat0, WriteElts;
  }

  /** A list and an array of the tests, elements in order behind their number. */
  lemma {:induction false} ListOfTests(env: Env)
    requires WfEnv(env)
    ensures var vs := [VInt(42), VInt(-1), VInt(200), VInt(33000)];
            var w := [4, 42, 255, 255, 254, 200, 0, 253, 232, 128, 0, 0];
            && HasType(env, TList(TInt), VList(vs)) && Write(env, TList(TInt), VList(vs)) == w
            && HasType(env, TArray(TInt), VArray(vs)) && Write(env, TArray(TInt), VArray(vs)) == w
  {
    hide EncNat0, WriteElts, Write, HasType;
    IntegersOfTests();
    var vs := [VInt(42), VInt(-1), VInt(200), VInt(33000)];
    assert vs == [VInt(42)] + ([VInt(-1)] + ([VInt(200)] + ([VInt(33000)] + [])));
    EltsOfTests(env, vs);
    SequenceIsWritten(env, vs);
  }

  lemma {:induction false} ArgsCons(env: Env, t: Type, ts: seq<Type>, v: Value, vs: seq<Value>)
    requires WfEnv(env) && WfType(env, t) && WfTypes(env, ts) && HasType(env, t, v) && HaveTypes(env, ts, vs)
    ensures WfTypes(env, [t] + ts) && HaveTypes(env, [t] + ts, [v] + vs)
    ensures WriteArgs(env, [t] + ts, [v] + vs) == Write(env, t, v) + WriteArgs(env, ts, vs)
  {
    assert ([v] + vs)[1..] == vs && ([t] + ts)[1..] == ts;
    hide Write, HasType;
  }

  lemma {:induction false} ComponentsOfTests(env: Env, bits: Bytes, vs: seq<Value>, ts: seq<Type>)
    requires WfEnv(env) && |bits| == 8 && ts == [TFloat] + ([TInt] + ([TString] + []))
    requires vs == [VFloat(bits)] + ([VInt(42)] + ([VString([0x74, 0x65, 0x73, 0x74])] + []))
    ensures WfTypes(env, ts) && HaveTypes(env, ts, vs)
    ensures WriteArgs(env, ts, vs) == bits + ([42] + ([4, 0x74, 0x65, 0x73, 0x74] + []))
  {
    LastOfTests(env, bits);
    hide *;
    var test := VString([0x74, 0x65, 0x73, 0x74]);
    IntIsWritten(env, 42);
    IntegersOfTests();
    ArgsCons(env, TString, [], test, []);
    ArgsCons(env, TInt, [TString] + [], VInt(42), [test] + []);
    ArgsCons(env, TFloat, [TInt] + ([TString] + []), VFloat(bits), [VInt(42)] + ([test] + []));
  }

  lemma LastOfTests(env: Env, bits: Bytes)
    requires WfEnv(env) && |bits| == 8
    ensures var test := VString([0x74, 0x65, 0x73, 0x74]);
            HasType(env, TString, test) && Write(env, TString, test) == [4, 0x74, 0x65, 0x73, 0x74]
    ensures HasType(env, TFloat, VFloat(bits)) && Write(env, TFloat, VFloat(bits)) == bits
    ensures WfTypes(env, []) && HaveTypes(env, [], []) && WriteArgs(env, [], []) == []
    ensures WfType(env, TFloat) && WfType(env, TInt) && WfType(env, TString)
  {
    assert EncNat0(4) == [4];
  }

  /** A triple of the tests: the components in order, without anything between them. */
  lemma {:induction false} TripleOfTests(env: Env, bits: Bytes)
    requires WfEnv(env) && |bits| == 8
    ensures var ty := TTuple([TFloat, TInt, TString]);
            var v := VTuple([VFloat(bits), VInt(42), VString([0x74, 0x65, 0x73, 0x74])]);
            && WfType(env, ty) && HasType(env, ty, v)
            && Write(env, ty, v) == bits + [42, 4, 0x74, 0x65, 0x73, 0x74]
  {
    hide WfTypes, HaveTypes, WriteArgs;
    var ts := [TFloat, TInt, TString];
    var vs := [VFloat(bits), VInt(42), VString([0x74, 0x65, 0x73, 0x74])];
    assert ts == [TFloat] + ([TInt] + ([TString] + []));
    assert vs == [VFloat(bits)] + ([VInt(42)] + ([VString([0x74, 0x65, 0x73, 0x74])] + []));
    ComponentsOfTests(env, bits, vs, ts);
  }
}
