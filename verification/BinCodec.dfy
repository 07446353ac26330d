/** The wire format of the base types. */
module BinCodec {
  import opened Octets

  // Encodings, decoders with their errors, and what ties them together. The ML and the C codecs are proved against
  // these functions in their own modules.

  const CODE_NEG_INT8: Byte := 255
  const CODE_INT16: Byte := 254
  const CODE_INT32: Byte := 253
  const CODE_INT64: Byte := 252

  const TWO_62: int := 0x4000_0000_0000_0000
  const TWO_64: int := 0x1_0000_0000_0000_0000
  /** Sys.max_string_length and Sys.max_array_length. */
  const MAX_STRING: int := 0x1ff_ffff_ffff_fff7
  const MAX_ARRAY: int := 0x3f_ffff_ffff_ffff

  datatype ErrorKind =
    | NegInt8 | IntCode | IntOverflow | Nat0Code | Nat0Overflow | Int32Code | Int64Code
    | UnitCode | BoolCode | OptionCode | StringTooLong | VariantTag | ArrayTooLong
    | SumTag(def: nat) | VariantError | VariantWrongType

  /** What a reader does: a value and the next position, `Buffer_short`, or a read error and its position. */
  datatype Result<+T> = Ok(value: T, next: nat) | Short | Fail(error: ErrorKind, at: int)

  // ----- little-endian integers -----

  function Pow256(k: nat): (p: nat)
    ensures p > 0
  {
    if k == 0 then 1 else 256 * Pow256(k - 1)
  }

  function Unsigned(s: Bytes): nat {
    if s == [] then 0 else s[0] + 256 * Unsigned(s[1..])
  }

  function Signed(s: Bytes): int {
    if 2 * Unsigned(s) >= Pow256(|s|) then Unsigned(s) - Pow256(|s|) else Unsigned(s)
  }

  lemma {:induction false} UnsignedBound(s: Bytes)
    ensures Unsigned(s) < Pow256(|s|)
  {
    if s != [] { UnsignedBound(s[1..]); }
  }

  lemma {:induction false} PowersOf256()
    ensures Pow256(1) == 0x100 && Pow256(2) == 0x1_0000 && Pow256(4) == 0x1_0000_0000 && Pow256(8) == TWO_64
  {
    assert Pow256(3) == 0x100_0000;
    assert Pow256(5) == 0x100_0000_0000;
    assert Pow256(6) == 0x1_0000_0000_0000;
    assert Pow256(7) == 0x100_0000_0000_0000;
  }

  /** `n` is recovered from its k bytes up to a multiple of 256^k. */
  lemma {:induction false} UnsignedOfLittleEndian(n: int, k: nat) returns (c: int)
    ensures n == c * Pow256(k) + Unsigned(LittleEndian(n, k))
    decreases k
  {
    if k == 0 {
      c := n;
    } else {
      c := UnsignedOfLittleEndian(n / 256, k - 1);
      assert n == 256 * (n / 256) + n % 256;
      assert c * Pow256(k) == 256 * (c * Pow256(k - 1));
    }
  }

  lemma {:induction false} FitsBytes(n: int, k: nat)
    ensures 0 <= n < Pow256(k) ==> Unsigned(LittleEndian(n, k)) == n
    ensures -(Pow256(k) as int) <= 2 * n < Pow256(k) ==> Signed(LittleEndian(n, k)) == n
  {
    hide Unsigned, LittleEndian, Pow256;
    var c := UnsignedOfLittleEndian(n, k);
    UnsignedBound(LittleEndian(n, k));
    Multiples(c, Pow256(k));
  }

  lemma Multiples(c: int, p: int)
    requires p > 0
    ensures c >= 1 ==> c * p >= p
    ensures c <= -2 ==> c * p <= -2 * p
    ensures c == 0 ==> c * p == 0
    ensures c == -1 ==> c * p == -p
  {}

  // ----- encodings -----

  /** The encoding shared by int, int32, int64 and nativeint. */
  function EncInt(n: int): (s: Bytes)
    ensures 1 <= |s| <= 9
  {
    if n >= 0 then
      if n < 0x80 then [n]
      else if n < 0x8000 then [CODE_INT16] + LittleEndian(n, 2)
      else if n >= 0x8000_0000 then [CODE_INT64] + LittleEndian(n, 8)
      else [CODE_INT32] + LittleEndian(n, 4)
    else
      if n >= -0x80 then [CODE_NEG_INT8] + LittleEndian(n, 1)
      else if n >= -0x8000 then [CODE_INT16] + LittleEndian(n, 2)
      else if n < -0x8000_0000 then [CODE_INT64] + LittleEndian(n, 8)
      else [CODE_INT32] + LittleEndian(n, 4)
  }

  function EncNat0(n: nat): (s: Bytes)
    ensures 1 <= |s| <= 9
  {
    if n < 0x80 then [n]
    else if n < 0x1_0000 then [CODE_INT16] + LittleEndian(n, 2)
    else if n >= 0x1_0000_0000 then [CODE_INT64] + LittleEndian(n, 8)
    else [CODE_INT32] + LittleEndian(n, 4)
  }

  function EncString(s: Bytes): Bytes { EncNat0(|s|) + s }

  // ----- decoders -----

  datatype IntKind = KInt | KInt32 | KInt64

  /** The integers of each type. */
  predicate InKind(kind: IntKind, n: int) {
    match kind
    case KInt => -TWO_62 <= n < TWO_62
    case KInt32 => -0x8000_0000 <= n < 0x8000_0000
    case KInt64 => -TWO_64 <= 2 * n < TWO_64
  }

  function CodeError(kind: IntKind): ErrorKind {
    match kind case KInt => IntCode case KInt32 => Int32Code case KInt64 => Int64Code
  }

  /** The `k` bytes at `pos`, or `Short` when the buffer ends before. */
  function Field(b: Bytes, pos: nat, k: nat): (r: Result<Bytes>)
    ensures r.Ok? <==> pos + k <= |b|
  {
    if pos + k > |b| then Short else Ok(b[pos..pos + k], pos + k)
  }

  function DecSigned(b: Bytes, pos: nat, k: nat): Result<int> {
    match Field(b, pos, k) case Ok(s, next) => Ok(Signed(s), next) case Short => Short case Fail(e, at) => Fail(e, at)
  }

  function DecUnsigned(b: Bytes, pos: nat, k: nat): Result<nat> {
    match Field(b, pos, k) case Ok(s, next) => Ok(Unsigned(s), next) case Short => Short case Fail(e, at) => Fail(e, at)
  }

  /** `bin_read_int`, `bin_read_int32` and `bin_read_int64`. An error is reported at the code byte. */
  function DecInt(kind: IntKind, b: Bytes, pos: nat): Result<int> {
    if pos >= |b| then Short
    else if b[pos] < 0x80 then Ok(b[pos], pos + 1)
    else if b[pos] == CODE_INT16 then DecSigned(b, pos + 1, 2)
    else if b[pos] == CODE_NEG_INT8 then
      if pos + 1 >= |b| then Short
      else if b[pos + 1] < 0x80 then Fail(NegInt8, pos)
      else Ok(b[pos + 1] as int - 256, pos + 2)
    else if b[pos] == CODE_INT32 then DecSigned(b, pos + 1, 4)
    else if b[pos] == CODE_INT64 && kind != KInt32 then
      var r := DecSigned(b, pos + 1, 8);
      if kind == KInt && r.Ok? && !(-TWO_62 <= r.value < TWO_62) then Fail(IntOverflow, pos) else r
    else Fail(CodeError(kind), pos)
  }

  function DecNat0(b: Bytes, pos: nat): Result<nat> {
    if pos >= |b| then Short
    else if b[pos] < 0x80 then Ok(b[pos], pos + 1)
    else if b[pos] == CODE_INT16 then DecUnsigned(b, pos + 1, 2)
    else if b[pos] == CODE_INT32 then DecUnsigned(b, pos + 1, 4)
    else if b[pos] == CODE_INT64 then
      var r := DecUnsigned(b, pos + 1, 8);
      if r.Ok? && r.value >= TWO_62 then Fail(Nat0Overflow, pos) else r
    else Fail(Nat0Code, pos)
  }

  function DecString(b: Bytes, pos: nat): Result<Bytes> {
    match DecNat0(b, pos)
    case Ok(len, p) =>
      if len > MAX_STRING then Fail(StringTooLong, pos) else Field(b, p, len)
    case Short => Short
    case Fail(e, at) => Fail(e, at)
  }

  // ----- round trips -----

  /** `w` stands in the buffer at `pos`; anything may come before and after. */
  predicate Occurs(b: Bytes, pos: nat, w: Bytes) {
    pos + |w| <= |b| && b[pos..pos + |w|] == w
  }

  lemma {:induction false} OccursSplit(b: Bytes, pos: nat, v: Bytes, w: Bytes)
    ensures Occurs(b, pos, v + w) <==> Occurs(b, pos, v) && Occurs(b, pos + |v|, w)
  {
    if pos + |v + w| <= |b| {
      assert b[pos..pos + |v + w|] == b[pos..pos + |v|] + b[pos + |v|..pos + |v + w|];
      assert (v + w)[..|v|] == v && (v + w)[|v|..] == w;
    }
  }

  lemma {:induction false} OccursHead(b: Bytes, pos: nat, c: Byte, w: Bytes)
    requires Occurs(b, pos, [c] + w)
    ensures b[pos] == c && Occurs(b, pos + 1, w)
  {
    OccursSplit(b, pos, [c], w);
    assert b[pos] == b[pos..pos + 1][0];
  }

  lemma {:induction false} SignedAt(n: int, k: nat, b: Bytes, pos: nat)
    requires Occurs(b, pos, LittleEndian(n, k)) && -(Pow256(k) as int) <= 2 * n < Pow256(k)
    ensures DecSigned(b, pos, k) == Ok(n, pos + k)
  {
    FitsBytes(n, k);
  }

  lemma {:induction false} UnsignedAt(n: nat, k: nat, b: Bytes, pos: nat)
    requires Occurs(b, pos, LittleEndian(n, k)) && n < Pow256(k)
    ensures DecUnsigned(b, pos, k) == Ok(n, pos + k)
  {
    FitsBytes(n, k);
  }

  /** Every integer is read back, with anything after it, by each reader whose range holds it. */
  lemma {:induction false} IntRoundTrip(kind: IntKind, n: int, b: Bytes, pos: nat)
    requires InKind(kind, n) && Occurs(b, pos, EncInt(n))
    ensures DecInt(kind, b, pos) == Ok(n, pos + |EncInt(n)|)
  {
    hide LittleEndian, Signed, Pow256, Occurs, DecSigned;
    PowersOf256();
    if 0 <= n < 0x80 {
      OccursInside(b, pos, EncInt(n));
      OccursOne(b, pos, n);
    } else if -0x80 <= n < 0 {
      OccursHead(b, pos, CODE_NEG_INT8, LittleEndian(n, 1));
      OneByte(n, b, pos + 1);
    } else {
      var k := |EncInt(n)| - 1;
      OccursHead(b, pos, EncInt(n)[0], LittleEndian(n, k));
      OccursInside(b, pos, EncInt(n));
      SignedAt(n, k, b, pos + 1);
    }
  }

  lemma {:induction false} OccursOne(b: Bytes, pos: nat, c: Byte)
    requires Occurs(b, pos, [c])
    ensures pos < |b| && b[pos] == c
  {
    assert b[pos] == b[pos..pos + 1][0];
  }

  lemma OccursInside(b: Bytes, pos: nat, w: Bytes)
    requires Occurs(b, pos, w)
    ensures pos + |w| <= |b|
  {}

  lemma {:induction false} OneByte(n: int, b: Bytes, pos: nat)
    requires Occurs(b, pos, LittleEndian(n, 1)) && -0x80 <= n < 0
    ensures pos < |b| && b[pos] == n + 256
  {
    assert LittleEndian(n, 1) == [n % 256] by { assert LittleEndian(n / 256, 0) == []; }
    assert b[pos] == b[pos..pos + 1][0];
  }

  lemma {:induction false} Nat0RoundTrip(n: nat, b: Bytes, pos: nat)
    requires n < TWO_62 && Occurs(b, pos, EncNat0(n))
    ensures DecNat0(b, pos) == Ok(n, pos + |EncNat0(n)|)
  {
    hide LittleEndian, Unsigned, Pow256, Occurs, DecUnsigned;
    PowersOf256();
    OccursInside(b, pos, EncNat0(n));
    if n < 0x80 {
      OccursOne(b, pos, n);
    } else {
      var k := |EncNat0(n)| - 1;
      OccursHead(b, pos, EncNat0(n)[0], LittleEndian(n, k));
      UnsignedAt(n, k, b, pos + 1);
    }
  }

  lemma {:induction false} StringRoundTrip(s: Bytes, b: Bytes, pos: nat)
    requires |s| <= MAX_STRING && Occurs(b, pos, EncString(s))
    ensures DecString(b, pos) == Ok(s, pos + |EncString(s)|)
  {
    hide EncNat0, DecNat0;
    OccursSplit(b, pos, EncNat0(|s|), s);
    Nat0RoundTrip(|s|, b, pos);
  }

  // ----- the writers choose the shortest form -----

  lemma {:induction false} SignedRange(b: Bytes, pos: nat, k: nat)
    requires DecSigned(b, pos, k).Ok?
    ensures -(Pow256(k) as int) <= 2 * DecSigned(b, pos, k).value < Pow256(k)
    ensures DecSigned(b, pos, k).next == pos + k <= |b|
  {
    hide Unsigned, Pow256;
    UnsignedBound(b[pos..pos + k]);
  }

  /** Whatever the reader accepts is in range and took at least the bytes the writer would use. */
  lemma {:induction false} IntShortest(kind: IntKind, b: Bytes, pos: nat)
    requires DecInt(kind, b, pos).Ok?
    ensures var r := DecInt(kind, b, pos);
            InKind(kind, r.value) && pos + |EncInt(r.value)| <= r.next <= |b|
  {
    PowersOf256();
    if b[pos] == CODE_INT16 { SignedRange(b, pos + 1, 2); }
    else if b[pos] == CODE_INT32 { SignedRange(b, pos + 1, 4); }
    else if b[pos] == CODE_INT64 { SignedRange(b, pos + 1, 8); }
  }

  lemma {:induction false} Nat0Shortest(b: Bytes, pos: nat)
    requires DecNat0(b, pos).Ok?
    ensures var r := DecNat0(b, pos);
            r.value < TWO_62 && pos + |EncNat0(r.value)| <= r.next <= |b|
  {
    PowersOf256();
    if b[pos] == CODE_INT16 { UnsignedBound(b[pos + 1..pos + 3]); }
    else if b[pos] == CODE_INT32 { UnsignedBound(b[pos + 1..pos + 5]); }
    else if b[pos] == CODE_INT64 { UnsignedBound(b[pos + 1..pos + 9]); }
  }

  // ----- sizes -----

  /** `bin_size_int`, `bin_size_int32` and `bin_size_int64`: the length the writers produce. */
  function SizeInt(n: int): (r: nat)
    ensures r == |EncInt(n)|
  {
    if n >= 0 then
      if n < 0x80 then 1 else if n < 0x8000 then 3 else if n >= 0x8000_0000 then 9 else 5
    else
      if n >= -0x80 then 2 else if n >= -0x8000 then 3 else if n < -0x8000_0000 then 9 else 5
  }

  function SizeNat0(n: nat): (r: nat)
    ensures r == |EncNat0(n)|
  {
    if n < 0x80 then 1 else if n < 0x1_0000 then 3 else if n >= 0x1_0000_0000 then 9 else 5
  }
}
