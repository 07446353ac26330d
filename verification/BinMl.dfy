/** The ML codecs of bin_prot (write_ml.ml, read_ml.ml), byte by byte on a buffer, proved against the wire format. */
module BinMl {
  import opened BinCodec
  import opened Octets

  // ----- machine integers -----

  const TWO_63: int := 0x8000_0000_0000_0000

  /** OCaml integers are 63 bits wide; int64 has 64. */
  function Wrap63(n: int): (r: int)
    ensures InKind(KInt, r)
    ensures InKind(KInt, n) ==> r == n
  {
    (n + TWO_62) % TWO_63 - TWO_62
  }

  function Wrap64(n: int): (r: int)
    ensures InKind(KInt64, r)
    ensures InKind(KInt64, n) ==> r == n
  {
    (n + TWO_63) % TWO_64 - TWO_63
  }

  /** `n asr (8 * i)`. */
  function Asr8(n: int, i: nat): int
    decreases i
  {
    if i == 0 then n else Asr8(n / 256, i - 1)
  }

  /** `n lsl (8 * i)`. */
  function Lsl8(n: int, i: nat): int { Wrap63(n * Pow256(i)) }

  /** The byte `Char.unsafe_chr n` stores. */
  function UnsafeChr(n: int): Byte { n % 256 }

  lemma {:induction false} LittleEndianAt(n: int, k: nat, i: nat)
    requires i < k
    ensures LittleEndian(n, k)[i] == UnsafeChr(Asr8(n, i))
    decreases k
  {
    if i > 0 { LittleEndianAt(n / 256, k - 1, i - 1); }
  }

  /** `Int64.to_int` loses the top bit only, so that the low seven bytes are those of the int64. */
  lemma {:induction false} LowBytesSurvive(n: int, m: int, i: nat)
    ensures UnsafeChr(Asr8(n + m * Pow256(i + 1), i)) == UnsafeChr(Asr8(n, i))
    decreases i
  {
    var p := Pow256(i);
    if i == 0 {
      assert Pow256(1) == 256;
    } else {
      LowBytesSurvive(n / 256, m, i - 1);
      assert m * Pow256(i + 1) == 256 * (m * p);
      assert (n + 256 * (m * p)) / 256 == n / 256 + m * p;
    }
  }

  lemma {:induction false} ToIntKeepsLowBytes(n: int, i: nat)
    requires i <= 6
    ensures UnsafeChr(Asr8(Wrap63(n), i)) == UnsafeChr(Asr8(n, i))
  {
    var c := (n + TWO_62) / TWO_63;
    assert Wrap63(n) == n - c * TWO_63;
    hide Pow256, Asr8, UnsafeChr, Wrap63;
    var q := TwoTo63Over(i);
    assert -c * TWO_63 == (-c * q) * Pow256(i + 1);
    LowBytesSurvive(n, -c * q, i);
  }

  /** 2^63 is a multiple of 256^7. */
  lemma {:induction false} TwoTo63Over(i: nat) returns (q: nat)
    requires i <= 6
    ensures q * Pow256(i + 1) == TWO_63
  {
    PowersOf256();
    assert Pow256(3) == 0x100_0000 && Pow256(5) == 0x100_0000_0000;
    assert Pow256(6) == 0x1_0000_0000_0000 && Pow256(7) == 0x100_0000_0000_0000;
    q := [0x80_0000_0000_0000, 0x8000_0000_0000, 0x80_0000_0000, 0x8000_0000, 0x80_0000, 0x8000, 0x80][i];
  }

  // ----- writing -----

  datatype Written = Next(pos: nat) | BufferShort

  /** `b` with `w` stored at `pos`. */
  function Patch(b: Bytes, pos: nat, w: Bytes): (r: Bytes)
    requires pos + |w| <= |b|
    ensures |r| == |b|
    ensures forall i :: 0 <= i < |b| ==> r[i] == if pos <= i < pos + |w| then w[i - pos] else b[i]
  {
    b[..pos] + w + b[pos + |w|..]
  }

  /** A write that fits stores its bytes and returns the next position; one that does not stores nothing. */
  predicate Wrote(before: Bytes, after: Bytes, pos: nat, w: Bytes, r: Written) {
    if pos + |w| <= |before| then r == Next(pos + |w|) && after == Patch(before, pos, w)
    else r == BufferShort && after == before
  }

  /** `all_bin_write_small_int`, which also writes characters, and with 0 and 1 units and booleans. */
  method WriteSmallInt(buf: array<Byte>, pos: nat, n: int) returns (r: Written)
    modifies buf
    ensures Wrote(old(buf[..]), buf[..], pos, [n % 256], r)
  {
    if pos >= buf.Length { return BufferShort; }
    buf[pos] := UnsafeChr(n);
    assert buf[..] == Patch(old(buf[..]), pos, [n % 256]);
    return Next(pos + 1);
  }

  method WriteNegInt8(buf: array<Byte>, pos: nat, n: int) returns (r: Written)
    modifies buf
    ensures Wrote(old(buf[..]), buf[..], pos, [CODE_NEG_INT8] + LittleEndian(n, 1), r)
  {
    var next := pos + 2;
    if next > buf.Length { return BufferShort; }
    buf[pos] := CODE_NEG_INT8;
    buf[pos + 1] := UnsafeChr(n);
    LittleEndianAt(n, 1, 0);
    assert buf[..] == Patch(old(buf[..]), pos, [CODE_NEG_INT8] + LittleEndian(n, 1));
    return Next(next);
  }

  method WriteInt16(buf: array<Byte>, pos: nat, n: int) returns (r: Written)
    modifies buf
    ensures Wrote(old(buf[..]), buf[..], pos, [CODE_INT16] + LittleEndian(n, 2), r)
  {
    var next := pos + 3;
    if next > buf.Length { return BufferShort; }
    buf[pos] := CODE_INT16;
    buf[pos + 1] := UnsafeChr(n);
    buf[pos + 2] := UnsafeChr(Asr8(n, 1));
    LittleEndianAt(n, 2, 0);
    LittleEndianAt(n, 2, 1);
    assert buf[..] == Patch(old(buf[..]), pos, [CODE_INT16] + LittleEndian(n, 2));
    return Next(next);
  }

  method WriteInt32(buf: array<Byte>, pos: nat, n: int) returns (r: Written)
    modifies buf
    ensures Wrote(old(buf[..]), buf[..], pos, [CODE_INT32] + LittleEndian(n, 4), r)
  {
    var next := pos + 5;
    if next > buf.Length { return BufferShort; }
    buf[pos] := CODE_INT32;
    buf[pos + 1] := UnsafeChr(n);
    buf[pos + 2] := UnsafeChr(Asr8(n, 1));
    buf[pos + 3] := UnsafeChr(Asr8(n, 2));
    buf[pos + 4] := UnsafeChr(Asr8(n, 3));
    forall i: nat | i < 4 ensures LittleEndian(n, 4)[i] == UnsafeChr(Asr8(n, i)) { LittleEndianAt(n, 4, i); }
    hide Asr8, LittleEndian, UnsafeChr;
    assert Asr8(n, 0) == n by { AsrZero(n); }
    assert buf[..] == Patch(old(buf[..]), pos, [CODE_INT32] + LittleEndian(n, 4));
    return Next(next);
  }

  lemma AsrZero(n: int)
    ensures Asr8(n, 0) == n
  {}

  lemma {:induction false} EightLittleEndian(n: int)
    ensures LittleEndian(n, 8) ==
            [UnsafeChr(n), UnsafeChr(Asr8(n, 1)), UnsafeChr(Asr8(n, 2)), UnsafeChr(Asr8(n, 3)), UnsafeChr(Asr8(n, 4)),
             UnsafeChr(Asr8(n, 5)), UnsafeChr(Asr8(n, 6)), UnsafeChr(Asr8(n, 7))]
  {
    forall i: nat | i < 8 ensures LittleEndian(n, 8)[i] == UnsafeChr(Asr8(n, i)) { LittleEndianAt(n, 8, i); }
    AsrZero(n);
    hide Asr8, LittleEndian, UnsafeChr;
  }

  lemma {:induction false} SevenBytesSurvive(n: int)
    ensures var m := Wrap63(n);
            UnsafeChr(m) == UnsafeChr(n) && UnsafeChr(Asr8(m, 1)) == UnsafeChr(Asr8(n, 1)) &&
            UnsafeChr(Asr8(m, 2)) == UnsafeChr(Asr8(n, 2)) && UnsafeChr(Asr8(m, 3)) == UnsafeChr(Asr8(n, 3)) &&
            UnsafeChr(Asr8(m, 4)) == UnsafeChr(Asr8(n, 4)) && UnsafeChr(Asr8(m, 5)) == UnsafeChr(Asr8(n, 5)) &&
            UnsafeChr(Asr8(m, 6)) == UnsafeChr(Asr8(n, 6))
  {
    AsrZero(n);
    AsrZero(Wrap63(n));
    hide Asr8, UnsafeChr, Wrap63;
    ToIntKeepsLowBytes(n, 0); ToIntKeepsLowBytes(n, 1); ToIntKeepsLowBytes(n, 2); ToIntKeepsLowBytes(n, 3);
    ToIntKeepsLowBytes(n, 4); ToIntKeepsLowBytes(n, 5); ToIntKeepsLowBytes(n, 6);
  }

  /** The eight bytes of a 63-bit integer behind the code. */
  method WriteCodeInt64(buf: array<Byte>, pos: nat, n: int) returns (r: Written)
    modifies buf
    ensures Wrote(old(buf[..]), buf[..], pos, [CODE_INT64] + LittleEndian(n, 8), r)
  {
    var next := pos + 9;
    if next > buf.Length { return BufferShort; }
    buf[pos] := CODE_INT64;
    buf[pos + 1] := UnsafeChr(n);
    buf[pos + 2] := UnsafeChr(Asr8(n, 1));
    buf[pos + 3] := UnsafeChr(Asr8(n, 2));
    buf[pos + 4] := UnsafeChr(Asr8(n, 3));
    buf[pos + 5] := UnsafeChr(Asr8(n, 4));
    buf[pos + 6] := UnsafeChr(Asr8(n, 5));
    buf[pos + 7] := UnsafeChr(Asr8(n, 6));
    buf[pos + 8] := UnsafeChr(Asr8(n, 7));
    EightLittleEndian(n);
    hide *;
    assert buf[..] == Patch(old(buf[..]), pos, [CODE_INT64] + LittleEndian(n, 8));
    return Next(next);
  }

  method BinWriteIntNat0(buf: array<Byte>, pos: nat, n: int) returns (r: Written)
    requires n >= 0
    modifies buf
    ensures Wrote(old(buf[..]), buf[..], pos, EncInt(n), r)
  {
    hide LittleEndian;
    if n < 0x80 { r := WriteSmallInt(buf, pos, n); }
    else if n < 0x8000 { r := WriteInt16(buf, pos, n); }
    else if n >= 0x8000_0000 { r := WriteCodeInt64(buf, pos, n); }
    else { r := WriteInt32(buf, pos, n); }
  }

  method BinWriteIntNegative(buf: array<Byte>, pos: nat, n: int) returns (r: Written)
    requires n < 0
    modifies buf
    ensures Wrote(old(buf[..]), buf[..], pos, EncInt(n), r)
  {
    hide LittleEndian;
    if n >= -0x80 { r := WriteNegInt8(buf, pos, n); }
    else if n >= -0x8000 { r := WriteInt16(buf, pos, n); }
    else if n < -0x8000_0000 { r := WriteCodeInt64(buf, pos, n); }
    else { r := WriteInt32(buf, pos, n); }
  }

  /** `bin_write_int`, and `bin_write_int32` through `Int32.to_int`. */
  method BinWriteInt(buf: array<Byte>, pos: nat, n: int) returns (r: Written)
    requires InKind(KInt, n)
    modifies buf
    ensures Wrote(old(buf[..]), buf[..], pos, EncInt(n), r)
  {
    if n >= 0 { r := BinWriteIntNat0(buf, pos, n); } else { r := BinWriteIntNegative(buf, pos, n); }
  }

  method BinWriteNat0(buf: array<Byte>, pos: nat, n: nat) returns (r: Written)
    requires n < TWO_62
    modifies buf
    ensures Wrote(old(buf[..]), buf[..], pos, EncNat0(n), r)
  {
    hide LittleEndian;
    if n < 0x80 { r := WriteSmallInt(buf, pos, n); }
    else if n < 0x1_0000 { r := WriteInt16(buf, pos, n); }
    else if n >= 0x1_0000_0000 { r := WriteCodeInt64(buf, pos, n); }
    else { r := WriteInt32(buf, pos, n); }
  }

  /** The wide branch of `bin_write_int64`: `Int64.to_int` drops the top bit, and the last byte is taken from the
      int64 itself. */
  method WriteWideInt64(buf: array<Byte>, pos: nat, n: int) returns (r: Written)
    requires InKind(KInt64, n)
    modifies buf
    ensures Wrote(old(buf[..]), buf[..], pos, [CODE_INT64] + LittleEndian(n, 8), r)
  {
    var next := pos + 9;
    if next > buf.Length { return BufferShort; }
    buf[pos] := CODE_INT64;
    var nInt := Wrap63(n);
    buf[pos + 1] := UnsafeChr(nInt);
    buf[pos + 2] := UnsafeChr(Asr8(nInt, 1));
    buf[pos + 3] := UnsafeChr(Asr8(nInt, 2));
    buf[pos + 4] := UnsafeChr(Asr8(nInt, 3));
    buf[pos + 5] := UnsafeChr(Asr8(nInt, 4));
    buf[pos + 6] := UnsafeChr(Asr8(nInt, 5));
    buf[pos + 7] := UnsafeChr(Asr8(nInt, 6));
    buf[pos + 8] := UnsafeChr(Asr8(n, 7));
    EightLittleEndian(n);
    SevenBytesSurvive(n);
    hide *;
    assert buf[..] == Patch(old(buf[..]), pos, [CODE_INT64] + LittleEndian(n, 8));
    return Next(next);
  }

  method BinWriteInt64(buf: array<Byte>, pos: nat, n: int) returns (r: Written)
    requires InKind(KInt64, n)
    modifies buf
    ensures Wrote(old(buf[..]), buf[..], pos, EncInt(n), r)
  {
    hide LittleEndian;
    if n >= 0x8000_0000 || n < -0x8000_0000 { r := WriteWideInt64(buf, pos, n); }
    else { r := BinWriteInt(buf, pos, Wrap63(n)); }
  }

  /** `memcpy` of a string into the buffer. */
  method CopyBytes(buf: array<Byte>, dst: nat, str: Bytes)
    requires dst + |str| <= buf.Length
    modifies buf
    ensures buf[..] == Patch(old(buf[..]), dst, str)
  {
    forall i | 0 <= i < |str| { buf[dst + i] := str[i]; }
    assert buf[..] == Patch(old(buf[..]), dst, str);
  }

  /** A string whose length fits but whose characters do not leaves its length behind. */
  method BinWriteString(buf: array<Byte>, pos: nat, str: Bytes) returns (r: Written)
    requires |str| <= MAX_STRING
    modifies buf
    ensures r == if pos + |EncString(str)| <= buf.Length then Next(pos + |EncString(str)|) else BufferShort
    ensures r.Next? ==> buf[..] == Patch(old(buf[..]), pos, EncString(str))
    ensures r.BufferShort? && pos + |EncNat0(|str|)| <= buf.Length ==>
            buf[..] == Patch(old(buf[..]), pos, EncNat0(|str|))
    ensures r.BufferShort? && pos + |EncNat0(|str|)| > buf.Length ==> buf[..] == old(buf[..])
  {
    hide EncNat0;
    var len := |str|;
    var newPos := BinWriteNat0(buf, pos, len);
    if newPos.BufferShort? { return BufferShort; }
    var next := newPos.pos + len;
    if next > buf.Length { return BufferShort; }
    CopyBytes(buf, newPos.pos, str);
    PatchTwice(old(buf[..]), pos, EncNat0(len), str);
    return Next(next);
  }

  lemma PatchTwice(b: Bytes, pos: nat, v: Bytes, w: Bytes)
    requires pos + |v + w| <= |b|
    ensures Patch(Patch(b, pos, v), pos + |v|, w) == Patch(b, pos, v + w)
  {}

  // ----- reading -----

  /** `pos_ref`. */
  class PosRef {
    var pos: nat
    constructor (p: nat)
      ensures pos == p
    {
      pos := p;
    }
  }

  function SignedCode(c: Byte): int { if c >= 128 then c as int - 256 else c as int }

  lemma Unroll(s: Bytes)
    requires s != []
    ensures Unsigned(s) == s[0] as int + 0x100 * Unsigned(s[1..])
  {}

  lemma {:induction false} TwoBytes(s: Bytes)
    requires |s| == 2
    ensures Unsigned(s) == s[0] as int + 0x100 * (s[1] as int)
    ensures Signed(s) == s[0] as int + 0x100 * SignedCode(s[1])
  {
    PowersOf256();
    Unroll(s); Unroll(s[1..]);
    assert Unsigned(s[1..][1..]) == 0;
  }

  lemma {:induction false} FourBytes(s: Bytes)
    requires |s| == 4
    ensures Unsigned(s) == s[0] as int + 0x100 * (s[1] as int) + 0x1_0000 * (s[2] as int) + 0x100_0000 * (s[3] as int)
    ensures Signed(s) == s[0] as int + 0x100 * (s[1] as int) + 0x1_0000 * (s[2] as int) + 0x100_0000 * SignedCode(s[3])
  {
    PowersOf256();
    Unroll(s); Unroll(s[1..]);
    assert s[1..][1..] == s[2..];
    TwoBytes(s[2..]);
  }

  lemma {:induction false} EightBytes(s: Bytes)
    requires |s| == 8
    ensures Unsigned(s) == s[0] as int + 0x100 * (s[1] as int) + 0x1_0000 * (s[2] as int) + 0x100_0000 * (s[3] as int)
                           + 0x1_0000_0000 * (s[4] as int) + 0x100_0000_0000 * (s[5] as int)
                           + 0x1_0000_0000_0000 * (s[6] as int) + 0x100_0000_0000_0000 * (s[7] as int)
    ensures Signed(s) == if s[7] >= 128 then Unsigned(s) - TWO_64 else Unsigned(s)
  {
    PowersOf256();
    Unroll(s); Unroll(s[1..]); Unroll(s[2..]); Unroll(s[3..]);
    assert s[1..][1..] == s[2..] && s[2..][1..] == s[3..] && s[3..][1..] == s[4..];
    FourBytes(s[4..]);
    hide Unsigned;
  }

  /** `n + c lsl (8 * i)`. */
  function Join(n: int, c: int, i: nat): int { Wrap63(n + Lsl8(c, i)) }

  /** Nothing wraps while the sum is in range. */
  lemma JoinExact(n: int, c: int, i: nat)
    requires InKind(KInt, c * Pow256(i)) && InKind(KInt, n + c * Pow256(i))
    ensures Join(n, c, i) == n + c * Pow256(i)
  {}

  lemma {:induction false} Powers()
    ensures Pow256(1) == 0x100 && Pow256(2) == 0x1_0000 && Pow256(3) == 0x100_0000 && Pow256(4) == 0x1_0000_0000
    ensures Pow256(5) == 0x100_0000_0000 && Pow256(6) == 0x1_0000_0000_0000 && Pow256(7) == 0x100_0000_0000_0000
  {
    PowersOf256();
  }

  /** The top byte of a 63-bit integer: positive up to 0x3f, negative from 0xc0. */
  lemma {:induction false} TopByte(c: Byte)
    ensures c < 0x40 ==> Lsl8(c, 7) == 0x100_0000_0000_0000 * (c as int)
    ensures 0xc0 <= c ==> Lsl8(c, 7) == 0x100_0000_0000_0000 * (c as int) - TWO_64
  {
    Powers();
    var x := 0x100_0000_0000_0000 * (c as int);
    if c >= 0xc0 {
      assert (x + TWO_62) % TWO_63 == x + TWO_62 - 2 * TWO_63 by { assert 2 * TWO_63 <= x + TWO_62 < 3 * TWO_63; }
    }
  }

  lemma TopByte64(c: Byte)
    ensures Wrap64(0x100_0000_0000_0000 * (c as int)) ==
            if c < 128 then 0x100_0000_0000_0000 * (c as int) else 0x100_0000_0000_0000 * (c as int) - TWO_64
  {}

  // ----- the decoders, as expressions over the buffer -----

  function DoBinReadInt16(b: Bytes, pos: nat): (n: int)
    requires pos + 2 <= |b|
    ensures n == Signed(b[pos..pos + 2])
  {
    Powers();
    TwoBytes(b[pos..pos + 2]);
    JoinExact(b[pos], SignedCode(b[pos + 1]), 1);
    Join(b[pos], SignedCode(b[pos + 1]), 1)
  }

  function DoBinReadInt32(b: Bytes, pos: nat): (n: int)
    requires pos + 4 <= |b|
    ensures n == Signed(b[pos..pos + 4])
  {
    FourBytes(b[pos..pos + 4]);
    LowBytes3(b, pos, SignedCode(b[pos + 3]));
    Low3(b, pos, Lsl8(SignedCode(b[pos + 3]), 3))
  }

  /** The three low bytes added to the top one. */
  function Low3(b: Bytes, pos: nat, top: int): int
    requires pos + 3 <= |b|
  {
    var n := Join(top, b[pos + 2], 2);
    var n := Join(n, b[pos + 1], 1);
    Wrap63(n + b[pos])
  }

  lemma {:induction false} LowBytes3(b: Bytes, pos: nat, last: int)
    requires pos + 3 <= |b| && -128 <= last < 256
    ensures Low3(b, pos, Lsl8(last, 3)) ==
            0x100_0000 * last + 0x1_0000 * (b[pos + 2] as int) + 0x100 * (b[pos + 1] as int) + (b[pos] as int)
  {
    hide Wrap63, Join, Pow256;
    Powers();
    var n := Lsl8(last, 3);
    assert n == 0x100_0000 * last;
    JoinExact(n, b[pos + 2], 2);
    n := Join(n, b[pos + 2], 2);
    JoinExact(n, b[pos + 1], 1);
  }

  /** The seven low bytes added to the top one. */
  function Low7(b: Bytes, pos: nat, top: int): int
    requires pos + 7 <= |b|
  {
    var n := Join(top, b[pos + 6], 6);
    var n := Join(n, b[pos + 5], 5);
    var n := Join(n, b[pos + 4], 4);
    var n := Join(n, b[pos + 3], 3);
    var n := Join(n, b[pos + 2], 2);
    var n := Join(n, b[pos + 1], 1);
    Wrap63(n + b[pos])
  }

  lemma {:induction false} LowBytes7(b: Bytes, pos: nat, top: int)
    requires pos + 7 <= |b| && -TWO_62 <= top <= TWO_62 - 0x100_0000_0000_0000
    ensures Low7(b, pos, top) ==
            top + 0x1_0000_0000_0000 * (b[pos + 6] as int) + 0x100_0000_0000 * (b[pos + 5] as int)
            + 0x1_0000_0000 * (b[pos + 4] as int) + 0x100_0000 * (b[pos + 3] as int)
            + 0x1_0000 * (b[pos + 2] as int) + 0x100 * (b[pos + 1] as int) + (b[pos] as int)
  {
    hide Wrap63, Join, Pow256;
    Powers();
    var n := top;
    JoinExact(n, b[pos + 6], 6);
    n := Join(n, b[pos + 6], 6);
    JoinExact(n, b[pos + 5], 5);
    n := Join(n, b[pos + 5], 5);
    JoinExact(n, b[pos + 4], 4);
    n := Join(n, b[pos + 4], 4);
    JoinExact(n, b[pos + 3], 3);
    n := Join(n, b[pos + 3], 3);
    JoinExact(n, b[pos + 2], 2);
    n := Join(n, b[pos + 2], 2);
    JoinExact(n, b[pos + 1], 1);
  }

  /** Eight bytes in a 63-bit integer, for a top byte that fits. */
  function DoBinReadInt64(b: Bytes, pos: nat): (n: int)
    requires pos + 8 <= |b| && !(b[pos + 7] > 0x3f && b[pos + 7] < 0xc0)
    ensures n == Signed(b[pos..pos + 8])
  {
    hide Join, Lsl8, Signed, Unsigned, Low7;
    EightBytes(b[pos..pos + 8]);
    TopByte(b[pos + 7]);
    LowBytes7(b, pos, Lsl8(b[pos + 7], 7));
    Low7(b, pos, Lsl8(b[pos + 7], 7))
  }

  /** Seven bytes in a 63-bit integer, the last in an int64. */
  function JoinInt64(b: Bytes, pos: nat): (n: int)
    requires pos + 8 <= |b|
    ensures n == Signed(b[pos..pos + 8])
  {
    Seven(b, pos);
    EightBytes(b[pos..pos + 8]);
    TopByte64(b[pos + 7]);
    hide Join, Signed, Unsigned, Wrap64;
    var n := Join(b[pos], b[pos + 1], 1);
    var n := Join(n, b[pos + 2], 2);
    var n := Join(n, b[pos + 3], 3);
    var n := Join(n, b[pos + 4], 4);
    var n := Join(n, b[pos + 5], 5);
    var n := Join(n, b[pos + 6], 6);
    Wrap64(n + Wrap64(0x100_0000_0000_0000 * (b[pos + 7] as int)))
  }

  lemma {:induction false} Seven(b: Bytes, pos: nat)
    requires pos + 8 <= |b|
    ensures Join(Join(Join(Join(Join(Join(b[pos], b[pos + 1], 1), b[pos + 2], 2), b[pos + 3], 3), b[pos + 4], 4),
                 b[pos + 5], 5), b[pos + 6], 6) ==
            0x1_0000_0000_0000 * (b[pos + 6] as int) + 0x100_0000_0000 * (b[pos + 5] as int)
            + 0x1_0000_0000 * (b[pos + 4] as int) + 0x100_0000 * (b[pos + 3] as int)
            + 0x1_0000 * (b[pos + 2] as int) + 0x100 * (b[pos + 1] as int) + (b[pos] as int)
  {
    hide Wrap63, Join, Pow256;
    Powers();
    var n: int := b[pos];
    JoinExact(n, b[pos + 1], 1);
    n := Join(n, b[pos + 1], 1);
    JoinExact(n, b[pos + 2], 2);
    n := Join(n, b[pos + 2], 2);
    JoinExact(n, b[pos + 3], 3);
    n := Join(n, b[pos + 3], 3);
    JoinExact(n, b[pos + 4], 4);
    n := Join(n, b[pos + 4], 4);
    JoinExact(n, b[pos + 5], 5);
    n := Join(n, b[pos + 5], 5);
    JoinExact(n, b[pos + 6], 6);
  }

  function DoBinReadNat016(b: Bytes, pos: nat): (n: nat)
    requires pos + 2 <= |b|
    ensures n == Unsigned(b[pos..pos + 2])
  {
    Powers();
    TwoBytes(b[pos..pos + 2]);
    JoinExact(b[pos], b[pos + 1], 1);
    Join(b[pos], b[pos + 1], 1)
  }

  function DoBinReadNat032(b: Bytes, pos: nat): (n: nat)
    requires pos + 4 <= |b|
    ensures n == Unsigned(b[pos..pos + 4])
  {
    FourBytes(b[pos..pos + 4]);
    LowBytes3(b, pos, b[pos + 3]);
    Low3(b, pos, Lsl8(b[pos + 3], 3))
  }

  function DoBinReadNat064(b: Bytes, pos: nat): (n: nat)
    requires pos + 8 <= |b| && b[pos + 7] <= 0x3f
    ensures n == Unsigned(b[pos..pos + 8])
  {
    hide Join, Lsl8, Signed, Unsigned, Low7;
    EightBytes(b[pos..pos + 8]);
    TopByte(b[pos + 7]);
    LowBytes7(b, pos, Lsl8(b[pos + 7], 7));
    Low7(b, pos, Lsl8(b[pos + 7], 7))
  }

  /** Errors are raised with their position; `pos_ref` stays at the code or just behind it. */
  predicate Reads<T(==)>(dec: Result<T>, r: Result<T>, before: nat, after: nat) {
    r == dec && if r.Ok? then after == r.next else before <= after <= before + 1
  }

  method SafeBinReadNegInt8(buf: array<Byte>, p: PosRef) returns (r: Result<int>)
    requires p.pos > 0
    modifies p
    ensures r == if old(p.pos) >= buf.Length then Short
                 else if buf[old(p.pos)] < 0x80 then Fail(NegInt8, old(p.pos) - 1)
                 else Ok(buf[old(p.pos)] as int - 256, old(p.pos) + 1)
    ensures p.pos == if r.Ok? then r.next else old(p.pos)
  {
    var pos := p.pos;
    if pos >= buf.Length { return Short; }
    var n := SignedCode(buf[pos]);
    if n >= 0 { return Fail(NegInt8, pos - 1); }
    p.pos := pos + 1;
    return Ok(n, pos + 1);
  }

  method SafeBinReadInt16(buf: array<Byte>, p: PosRef) returns (r: Result<int>)
    modifies p
    ensures r == DecSigned(buf[..], old(p.pos), 2)
    ensures p.pos == if r.Ok? then r.next else old(p.pos)
  {
    var pos := p.pos;
    var next := pos + 2;
    if next > buf.Length { return Short; }
    p.pos := next;
    return Ok(DoBinReadInt16(buf[..], pos), next);
  }

  method SafeBinReadInt32(buf: array<Byte>, p: PosRef) returns (r: Result<int>)
    modifies p
    ensures r == DecSigned(buf[..], old(p.pos), 4)
    ensures p.pos == if r.Ok? then r.next else old(p.pos)
  {
    var pos := p.pos;
    var next := pos + 4;
    if next > buf.Length { return Short; }
    var n := DoBinReadInt32(buf[..], pos);
    p.pos := next;
    return Ok(n, next);
  }

  /** A 64-bit field read into 63 bits: the top two bits must agree, which only the last byte can tell. */
  method SafeBinReadInt64(buf: array<Byte>, p: PosRef) returns (r: Result<int>)
    requires p.pos > 0
    modifies p
    ensures var d := DecSigned(buf[..], old(p.pos), 8);
            r == if d.Ok? && !InKind(KInt, d.value) then Fail(IntOverflow, old(p.pos) - 1) else d
    ensures p.pos == if r.Ok? then r.next else old(p.pos)
  {
    hide Signed, DoBinReadInt64;
    var pos := p.pos;
    var next := pos + 8;
    if next > buf.Length { return Short; }
    var last := buf[pos + 7];
    EightBytes(buf[..][pos..next]);
    if last > 0x3f && last < 0xc0 { return Fail(IntOverflow, pos - 1); }
    var n := DoBinReadInt64(buf[..], pos);
    p.pos := next;
    return Ok(n, next);
  }

  /** `read_int64_aux`: seven bytes in a 63-bit integer, the last in an int64. */
  method ReadInt64Aux(buf: array<Byte>, p: PosRef) returns (r: Result<int>)
    modifies p
    ensures r == DecSigned(buf[..], old(p.pos), 8)
    ensures p.pos == if r.Ok? then r.next else old(p.pos)
  {
    hide Signed, JoinInt64;
    var pos := p.pos;
    var next := pos + 8;
    if next > buf.Length { return Short; }
    p.pos := next;
    return Ok(JoinInt64(buf[..], pos), next);
  }

  method BinReadInt(buf: array<Byte>, p: PosRef) returns (r: Result<int>)
    modifies p
    ensures Reads(DecInt(KInt, buf[..], old(p.pos)), r, old(p.pos), p.pos)
  {
    hide Signed, DecSigned;
    var pos := p.pos;
    if pos >= buf.Length { return Short; }
    var code := SignedCode(buf[pos]);
    p.pos := pos + 1;
    if code >= 0 { r := Ok(code, pos + 1); }
    else if code == -2 { r := SafeBinReadInt16(buf, p); NextOf(buf[..], pos + 1, 2); }
    else if code == -1 { r := SafeBinReadNegInt8(buf, p); }
    else if code == -3 { r := SafeBinReadInt32(buf, p); NextOf(buf[..], pos + 1, 4); }
    else if code == -4 { r := SafeBinReadInt64(buf, p); NextOf(buf[..], pos + 1, 8); }
    else { p.pos := pos; r := Fail(IntCode, pos); }
  }

  lemma NextOf(b: Bytes, pos: nat, k: nat)
    ensures DecSigned(b, pos, k).Ok? ==> DecSigned(b, pos, k).next == pos + k
    ensures !DecSigned(b, pos, k).Fail?
  {}

  method BinReadInt32(buf: array<Byte>, p: PosRef) returns (r: Result<int>)
    modifies p
    ensures Reads(DecInt(KInt32, buf[..], old(p.pos)), r, old(p.pos), p.pos)
  {
    hide Signed, DecSigned;
    var pos := p.pos;
    if pos >= buf.Length { return Short; }
    var code := SignedCode(buf[pos]);
    p.pos := pos + 1;
    if code >= 0 { r := Ok(code, pos + 1); }
    else if code == -2 { r := SafeBinReadInt16(buf, p); NextOf(buf[..], pos + 1, 2); }
    else if code == -1 { r := SafeBinReadNegInt8(buf, p); }
    else if code == -3 { r := SafeBinReadInt32(buf, p); NextOf(buf[..], pos + 1, 4); }
    else { p.pos := pos; r := Fail(Int32Code, pos); }
  }

  method BinReadInt64(buf: array<Byte>, p: PosRef) returns (r: Result<int>)
    modifies p
    ensures Reads(DecInt(KInt64, buf[..], old(p.pos)), r, old(p.pos), p.pos)
  {
    hide Signed, DecSigned;
    var pos := p.pos;
    if pos >= buf.Length { return Short; }
    var code := SignedCode(buf[pos]);
    p.pos := pos + 1;
    if code >= 0 { r := Ok(code, pos + 1); }
    else if code == -2 { r := SafeBinReadInt16(buf, p); NextOf(buf[..], pos + 1, 2); }
    else if code == -1 { r := SafeBinReadNegInt8(buf, p); }
    else if code == -3 { r := SafeBinReadInt32(buf, p); NextOf(buf[..], pos + 1, 4); }
    else if code == -4 { r := ReadInt64Aux(buf, p); NextOf(buf[..], pos + 1, 8); }
    else { p.pos := pos; r := Fail(Int64Code, pos); }
  }

  method SafeBinReadNat016(buf: array<Byte>, p: PosRef) returns (r: Result<nat>)
    modifies p
    ensures r == DecUnsigned(buf[..], old(p.pos), 2)
    ensures p.pos == if r.Ok? then r.next else old(p.pos)
  {
    var pos := p.pos;
    var next := pos + 2;
    if next > buf.Length { return Short; }
    p.pos := next;
    return Ok(DoBinReadNat016(buf[..], pos), next);
  }

  method SafeBinReadNat032(buf: array<Byte>, p: PosRef) returns (r: Result<nat>)
    modifies p
    ensures r == DecUnsigned(buf[..], old(p.pos), 4)
    ensures p.pos == if r.Ok? then r.next else old(p.pos)
  {
    var pos := p.pos;
    var next := pos + 4;
    if next > buf.Length { return Short; }
    var n := DoBinReadNat032(buf[..], pos);
    p.pos := next;
    return Ok(n, next);
  }

  method SafeBinReadNat064(buf: array<Byte>, p: PosRef) returns (r: Result<nat>)
    requires p.pos > 0
    modifies p
    ensures var d := DecUnsigned(buf[..], old(p.pos), 8);
            r == if d.Ok? && d.value >= TWO_62 then Fail(Nat0Overflow, old(p.pos) - 1) else d
    ensures p.pos == if r.Ok? then r.next else old(p.pos)
  {
    hide Unsigned, DoBinReadNat064;
    var pos := p.pos;
    var next := pos + 8;
    if next > buf.Length { return Short; }
    var last := buf[pos + 7];
    EightBytes(buf[..][pos..next]);
    if last > 0x3f { return Fail(Nat0Overflow, pos - 1); }
    var n := DoBinReadNat064(buf[..], pos);
    p.pos := next;
    return Ok(n, next);
  }

  method BinReadNat0(buf: array<Byte>, p: PosRef) returns (r: Result<nat>)
    modifies p
    ensures Reads(DecNat0(buf[..], old(p.pos)), r, old(p.pos), p.pos)
  {
    hide Unsigned, DecUnsigned;
    var pos := p.pos;
    if pos >= buf.Length { return Short; }
    var code := SignedCode(buf[pos]);
    p.pos := pos + 1;
    if code >= 0 { r := Ok(code, pos + 1); }
    else if code == -2 { r := SafeBinReadNat016(buf, p); NextOfUnsigned(buf[..], pos + 1, 2); }
    else if code == -3 { r := SafeBinReadNat032(buf, p); NextOfUnsigned(buf[..], pos + 1, 4); }
    else if code == -4 { r := SafeBinReadNat064(buf, p); NextOfUnsigned(buf[..], pos + 1, 8); }
    else { p.pos := pos; r := Fail(Nat0Code, pos); }
  }

  lemma NextOfUnsigned(b: Bytes, pos: nat, k: nat)
    ensures DecUnsigned(b, pos, k).Ok? ==> DecUnsigned(b, pos, k).next == pos + k
    ensures !DecUnsigned(b, pos, k).Fail?
  {}

  /** `bin_read_string`. When the characters are missing or too many, `pos_ref` stays behind the length. */
  method BinReadString(buf: array<Byte>, p: PosRef) returns (r: Result<Bytes>)
    modifies p
    ensures r == DecString(buf[..], old(p.pos))
    ensures r.Ok? ==> p.pos == r.next
  {
    hide DecNat0;
    var startPos := p.pos;
    var n := BinReadNat0(buf, p);
    match n
    case Ok(len, _) =>
      if len > MAX_STRING { return Fail(StringTooLong, startPos); }
      var pos := p.pos;
      var next := pos + len;
      if next > buf.Length { return Short; }
      p.pos := next;
      return Ok(buf[pos..next], next);
    case Short => return Short;
    case Fail(e, at) => return Fail(e, at);
  }
}
