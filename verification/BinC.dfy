/** The C codecs of bin_prot (write_stubs.c, read_stubs.c): stores through `sptr`, casts between C's integer types, and
    cursors that move back on errors. They are proved against the same wire format as the ML codecs. */
module BinC {
  import opened BinCodec
  import opened BinMl
  import opened Octets

  // ----- casts of a two's complement platform -----

  /** The value of the low `k` bytes of `n` in a signed type of that width. */
  function CastSigned(n: int, k: nat): int {
    var u := n % Pow256(k);
    if 2 * u >= Pow256(k) then u - Pow256(k) else u
  }

  lemma {:induction false} LittleEndianModulo(n: int, c: int, k: nat)
    ensures LittleEndian(n + c * Pow256(k), k) == LittleEndian(n, k)
    decreases k
  {
    if k > 0 {
      var m := c * Pow256(k - 1);
      assert c * Pow256(k) == 256 * m;
      assert (n + 256 * m) / 256 == n / 256 + m && (n + 256 * m) % 256 == n % 256;
      LittleEndianModulo(n / 256, c, k - 1);
    }
  }

  /** A truncating cast keeps the bytes that are written. */
  lemma {:induction false} CastKeepsBytes(n: int, k: nat)
    ensures LittleEndian(CastSigned(n, k), k) == LittleEndian(n, k)
  {
    hide LittleEndian, Pow256;
    var p := Pow256(k);
    var q := n / p;
    assert n == q * p + n % p;
    if 2 * (n % p) >= p {
      LittleEndianModulo(n, -q - 1, k);
      assert (-q - 1) * p == -(q * p) - p;
    } else {
      LittleEndianModulo(n, -q, k);
      assert -q * p == -(q * p);
    }
  }

  // ----- writing -----

  /** `le16enc`, `le32enc` and `le64enc`: a copy of the little-endian representation. */
  method LeEnc(buf: array<Byte>, sptr: nat, n: int, k: nat)
    requires sptr + k <= buf.Length
    modifies buf
    ensures buf[..] == Patch(old(buf[..]), sptr, LittleEndian(n, k))
  {
    var s := LittleEndian(n, k);
    forall i | 0 <= i < k { buf[sptr + i] := s[i]; }
    assert buf[..] == Patch(old(buf[..]), sptr, s);
  }

  /** `do_write_int16`, `do_write_int32` and `do_write_int64`: code and a k-byte integer. */
  method DoWriteInt(buf: array<Byte>, sptr: nat, code: Byte, n: int, k: nat)
    requires sptr + 1 + k <= buf.Length
    modifies buf
    ensures buf[..] == Patch(old(buf[..]), sptr, [code] + LittleEndian(n, k))
  {
    hide LittleEndian;
    buf[sptr] := code;
    assert buf[..] == Patch(old(buf[..]), sptr, [code]);
    LeEnc(buf, sptr + 1, n, k);
    PatchTwice(old(buf[..]), sptr, [code], LittleEndian(n, k));
  }

  method DoWriteSmallInt(buf: array<Byte>, sptr: nat, n: int)
    requires sptr < buf.Length
    modifies buf
    ensures buf[..] == Patch(old(buf[..]), sptr, [n % 256])
  {
    buf[sptr] := n % 256;
    assert buf[..] == Patch(old(buf[..]), sptr, [n % 256]);
  }

  method CWriteSmallInt(buf: array<Byte>, sptr: nat, n: int) returns (r: Written)
    modifies buf
    ensures Wrote(old(buf[..]), buf[..], sptr, [n % 256], r)
  {
    if sptr >= buf.Length { return BufferShort; }
    DoWriteSmallInt(buf, sptr, n);
    return Next(sptr + 1);
  }

  method CWriteNegInt8(buf: array<Byte>, sptr: nat, n: int) returns (r: Written)
    modifies buf
    ensures Wrote(old(buf[..]), buf[..], sptr, [CODE_NEG_INT8] + LittleEndian(n, 1), r)
  {
    var next := sptr + 2;
    if next > buf.Length { return BufferShort; }
    buf[sptr] := CODE_NEG_INT8;
    buf[sptr + 1] := n % 256;
    assert LittleEndian(n, 1) == [n % 256] by { assert LittleEndian(n / 256, 0) == []; }
    assert buf[..] == Patch(old(buf[..]), sptr, [CODE_NEG_INT8] + LittleEndian(n, 1));
    return Next(next);
  }

  method CWriteInt16(buf: array<Byte>, sptr: nat, n: int) returns (r: Written)
    modifies buf
    ensures Wrote(old(buf[..]), buf[..], sptr, [CODE_INT16] + LittleEndian(n, 2), r)
  {
    var next := sptr + 3;
    if next > buf.Length { return BufferShort; }
    DoWriteInt(buf, sptr, CODE_INT16, n, 2);
    return Next(next);
  }

  method CWriteInt32(buf: array<Byte>, sptr: nat, n: int) returns (r: Written)
    modifies buf
    ensures Wrote(old(buf[..]), buf[..], sptr, [CODE_INT32] + LittleEndian(n, 4), r)
  {
    var next := sptr + 5;
    if next > buf.Length { return BufferShort; }
    DoWriteInt(buf, sptr, CODE_INT32, n, 4);
    return Next(next);
  }

  method CWriteCodeInt64(buf: array<Byte>, sptr: nat, n: int) returns (r: Written)
    modifies buf
    ensures Wrote(old(buf[..]), buf[..], sptr, [CODE_INT64] + LittleEndian(n, 8), r)
  {
    var next := sptr + 9;
    if next > buf.Length { return BufferShort; }
    DoWriteInt(buf, sptr, CODE_INT64, n, 8);
    return Next(next);
  }

  /** The argument is an unsigned long; the casts are those of the calls. */
  method CWriteIntNat0(buf: array<Byte>, sptr: nat, n: int) returns (r: Written)
    requires 0 <= n < TWO_64
    modifies buf
    ensures Wrote(old(buf[..]), buf[..], sptr, EncInt(n), r)
  {
    hide LittleEndian, CastSigned;
    CastKeepsBytes(n, 2); CastKeepsBytes(n, 4); CastKeepsBytes(n, 8);
    if n < 0x80 { r := CWriteSmallInt(buf, sptr, n); }
    else if n < 0x8000 { r := CWriteInt16(buf, sptr, CastSigned(n, 2)); }
    else if n >= 0x8000_0000 { r := CWriteCodeInt64(buf, sptr, CastSigned(n, 8)); }
    else { r := CWriteInt32(buf, sptr, CastSigned(n, 4)); }
  }

  method CWriteIntNegative(buf: array<Byte>, sptr: nat, n: int) returns (r: Written)
    requires -TWO_63 <= n < 0
    modifies buf
    ensures Wrote(old(buf[..]), buf[..], sptr, EncInt(n), r)
  {
    hide LittleEndian, CastSigned;
    CastKeepsBytes(n, 1); CastKeepsBytes(n, 2); CastKeepsBytes(n, 4);
    if n >= -0x80 { r := CWriteNegInt8(buf, sptr, CastSigned(n, 1)); }
    else if n >= -0x8000 { r := CWriteInt16(buf, sptr, CastSigned(n, 2)); }
    else if n < -0x8000_0000 { r := CWriteCodeInt64(buf, sptr, n); }
    else { r := CWriteInt32(buf, sptr, CastSigned(n, 4)); }
  }

  /** `write_int`, the writer of int, int32 and int64 alike. */
  method CWriteInt(buf: array<Byte>, sptr: nat, n: int) returns (r: Written)
    requires InKind(KInt64, n)
    modifies buf
    ensures Wrote(old(buf[..]), buf[..], sptr, EncInt(n), r)
  {
    if n >= 0 { r := CWriteIntNat0(buf, sptr, n); } else { r := CWriteIntNegative(buf, sptr, n); }
  }

  method CWriteNat0(buf: array<Byte>, sptr: nat, n: nat) returns (r: Written)
    requires n < TWO_64
    modifies buf
    ensures Wrote(old(buf[..]), buf[..], sptr, EncNat0(n), r)
  {
    hide LittleEndian, CastSigned;
    CastKeepsBytes(n, 2); CastKeepsBytes(n, 4); CastKeepsBytes(n, 8);
    if n < 0x80 { r := CWriteSmallInt(buf, sptr, n); }
    else if n < 0x1_0000 { r := CWriteInt16(buf, sptr, CastSigned(n, 2)); }
    else if n >= 0x1_0000_0000 { r := CWriteCodeInt64(buf, sptr, CastSigned(n, 8)); }
    else { r := CWriteInt32(buf, sptr, CastSigned(n, 4)); }
  }

  /** The copy loop for short strings, last character first. `len` is unsigned: it wraps when it passes zero. */
  method CopyBackward(buf: array<Byte>, dst: nat, str: Bytes)
    requires dst + |str| <= buf.Length && |str| < 20
    modifies buf
    ensures buf[..] == Patch(old(buf[..]), dst, str)
  {
    ghost var before := buf[..];
    var len := |str|;
    var test := len > 0;
    len := (len - 1) % TWO_64;
    if test {
      while true
        invariant 0 <= len < |str| && |buf[..]| == |before|
        invariant forall i :: 0 <= i < |before| ==>
                  buf[i] == if dst + len < i < dst + |str| then str[i - dst] else before[i]
        decreases len
      {
        buf[dst + len] := str[len];
        test := len != 0;
        len := (len - 1) % TWO_64;
        if !test { break; }
      }
      assert buf[..] == Patch(before, dst, str);
    } else {
      assert buf[..] == Patch(before, dst, str);
    }
  }

  /** The branches for strings of up to 127 characters: the shortest are copied by the loop. */
  method ShortString(buf: array<Byte>, sptr: nat, str: Bytes) returns (r: Written)
    requires |str| < 0x80
    modifies buf
    ensures Wrote(old(buf[..]), buf[..], sptr, [|str| as Byte] + str, r)
  {
    hide Patch;
    var len := |str|;
    var dst := sptr + 1;
    var next := dst + len;
    if next > buf.Length { return BufferShort; }
    DoWriteSmallInt(buf, sptr, len);
    if len < 0x14 { CopyBackward(buf, dst, str); } else { CopyBytes(buf, dst, str); }
    PatchTwice(old(buf[..]), sptr, [len % 256], str);
    return Next(next);
  }

  /** `write_string_stub`: nothing is stored unless everything fits. */
  method CWriteString(buf: array<Byte>, sptr: nat, str: Bytes) returns (r: Written)
    requires |str| <= MAX_STRING
    modifies buf
    ensures Wrote(old(buf[..]), buf[..], sptr, EncString(str), r)
  {
    hide LittleEndian, CastSigned;
    var len := |str|;
    if len < 0x80 { r := ShortString(buf, sptr, str); return; }
    if len < 0x1_0000 {
      r := LongString(buf, sptr, CODE_INT16, CastSigned(len, 2), 2, str);
      CastKeepsBytes(len, 2);
      return;
    }
    if len >= 0x1_0000_0000 {
      r := LongString(buf, sptr, CODE_INT64, len, 8, str);
    } else {
      r := LongString(buf, sptr, CODE_INT32, CastSigned(len, 4), 4, str);
      CastKeepsBytes(len, 4);
    }
  }

  /** The branches for long strings: code, k-byte length, characters. */
  method LongString(buf: array<Byte>, sptr: nat, code: Byte, len: int, k: nat, str: Bytes) returns (r: Written)
    modifies buf
    ensures Wrote(old(buf[..]), buf[..], sptr, [code] + LittleEndian(len, k) + str, r)
  {
    hide LittleEndian;
    var dst := sptr + 1 + k;
    var next := dst + |str|;
    if next > buf.Length { return BufferShort; }
    DoWriteInt(buf, sptr, code, len, k);
    CopyBytes(buf, dst, str);
    PatchTwice(old(buf[..]), sptr, [code] + LittleEndian(len, k), str);
    return Next(next);
  }

  // ----- reading -----

  /** `*sptr_ptr`. */
  class Cursor {
    var sptr: nat
    constructor (p: nat)
      ensures sptr == p
    {
      sptr := p;
    }
  }

  /** A C reader returns, raises `Buffer_short`, or raises an error without a position. */
  datatype CResult<+T> = Value(value: T) | CShort | Error(kind: ErrorKind)

  /** What the wrapper reports: on success and on errors the position is where the cursor was left. */
  function Report<T>(r: CResult<T>, sptr: nat): Result<T> {
    match r case Value(v) => Ok(v, sptr) case CShort => Short case Error(k) => Fail(k, sptr)
  }

  /** A signed k-byte field, after the check of the macro: `lo` and `hi` bound what it lets through; otherwise the
      cursor goes back to the code and `error` is raised. */
  method SafeRead(buf: array<Byte>, c: Cursor, k: nat, lo: int, hi: int, error: ErrorKind) returns (r: CResult<int>)
    requires c.sptr > 0
    modifies c
    ensures var d := DecSigned(buf[..], old(c.sptr), k);
            Report(r, c.sptr) == if d.Ok? && !(lo <= d.value <= hi) then Fail(error, old(c.sptr) - 1) else d
  {
    var sptr := c.sptr;
    var next := sptr + k;
    if next > buf.Length { return CShort; }
    var n := Signed(buf[sptr..next]);
    assert buf[..][sptr..next] == buf[sptr..next];
    if n < lo || n > hi {
      c.sptr := sptr - 1;
      return Error(error);
    }
    c.sptr := next;
    return Value(n);
  }

  /** The same for unsigned fields. */
  method SafeReadNat0(buf: array<Byte>, c: Cursor, k: nat, hi: int, error: ErrorKind) returns (r: CResult<nat>)
    requires c.sptr > 0
    modifies c
    ensures var d := DecUnsigned(buf[..], old(c.sptr), k);
            Report(r, c.sptr) == if d.Ok? && d.value > hi then Fail(error, old(c.sptr) - 1) else d
  {
    var sptr := c.sptr;
    var next := sptr + k;
    if next > buf.Length { return CShort; }
    var n := Unsigned(buf[sptr..next]);
    assert buf[..][sptr..next] == buf[sptr..next];
    if n > hi {
      c.sptr := sptr - 1;
      return Error(error);
    }
    c.sptr := next;
    return Value(n);
  }

  /** `safe_read_neg_int8`. */
  method SafeReadNegInt8(buf: array<Byte>, c: Cursor) returns (r: CResult<int>)
    requires c.sptr > 0
    modifies c
    ensures Report(r, c.sptr) ==
            if old(c.sptr) >= buf.Length then Short
            else if buf[old(c.sptr)] < 0x80 then Fail(NegInt8, old(c.sptr) - 1)
            else Ok(buf[old(c.sptr)] as int - 256, old(c.sptr) + 1)
  {
    var sptr := c.sptr;
    var next := sptr + 1;
    if next > buf.Length { return CShort; }
    var n := SignedCode(buf[sptr]);
    if n >= 0 {
      c.sptr := sptr - 1;
      return Error(NegInt8);
    }
    c.sptr := next;
    return Value(n);
  }

  /** A field of k bytes is within its type, so that a check of the full range lets everything through. */
  lemma {:induction false} FieldInRange(b: Bytes, pos: nat, k: nat)
    requires k == 2 || k == 4 || k == 8
    ensures var d := DecSigned(b, pos, k); d.Ok? ==> -TWO_63 <= d.value <= TWO_63 - 1
    ensures var d := DecUnsigned(b, pos, k); d.Ok? ==> d.value <= TWO_64 - 1
  {
    PowersOf256();
    if DecSigned(b, pos, k).Ok? {
      SignedRange(b, pos, k);
      UnsignedBound(b[pos..pos + k]);
    }
  }

  /** `read_int`, `read_int32` and `read_int64`: they differ in the check of 8-byte fields and in whether they take
      them. */
  method CReadInt(buf: array<Byte>, c: Cursor) returns (r: CResult<int>)
    modifies c
    ensures Report(r, c.sptr) == DecInt(KInt, buf[..], old(c.sptr))
  {
    hide Signed, DecSigned, DecUnsigned;
    var sptr := c.sptr;
    if sptr >= buf.Length { return CShort; }
    var code := SignedCode(buf[sptr]);
    c.sptr := sptr + 1;
    FieldInRange(buf[..], sptr + 1, 2); FieldInRange(buf[..], sptr + 1, 4);
    if code >= 0 { return Value(code); }
    if code == -2 { r := SafeRead(buf, c, 2, -TWO_63, TWO_63 - 1, IntCode); return; }
    if code == -1 { r := SafeReadNegInt8(buf, c); return; }
    if code == -3 { r := SafeRead(buf, c, 4, -TWO_63, TWO_63 - 1, IntCode); return; }
    if code == -4 { r := SafeRead(buf, c, 8, -0x4000_0000_0000_0000, 0x3fff_ffff_ffff_ffff, IntOverflow); return; }
    c.sptr := sptr;
    return Error(IntCode);
  }

  method CReadInt32(buf: array<Byte>, c: Cursor) returns (r: CResult<int>)
    modifies c
    ensures Report(r, c.sptr) == DecInt(KInt32, buf[..], old(c.sptr))
  {
    hide Signed, DecSigned, DecUnsigned;
    var sptr := c.sptr;
    if sptr >= buf.Length { return CShort; }
    var code := SignedCode(buf[sptr]);
    c.sptr := sptr + 1;
    FieldInRange(buf[..], sptr + 1, 2); FieldInRange(buf[..], sptr + 1, 4);
    if code >= 0 { return Value(code); }
    if code == -2 { r := SafeRead(buf, c, 2, -TWO_63, TWO_63 - 1, Int32Code); return; }
    if code == -1 { r := SafeReadNegInt8(buf, c); return; }
    if code == -3 { r := SafeRead(buf, c, 4, -TWO_63, TWO_63 - 1, Int32Code); return; }
    c.sptr := sptr;
    return Error(Int32Code);
  }

  method CReadInt64(buf: array<Byte>, c: Cursor) returns (r: CResult<int>)
    modifies c
    ensures Report(r, c.sptr) == DecInt(KInt64, buf[..], old(c.sptr))
  {
    hide Signed, DecSigned, DecUnsigned;
    var sptr := c.sptr;
    if sptr >= buf.Length { return CShort; }
    var code := SignedCode(buf[sptr]);
    c.sptr := sptr + 1;
    FieldInRange(buf[..], sptr + 1, 2); FieldInRange(buf[..], sptr + 1, 4); FieldInRange(buf[..], sptr + 1, 8);
    if code >= 0 { return Value(code); }
    if code == -2 { r := SafeRead(buf, c, 2, -TWO_63, TWO_63 - 1, Int64Code); return; }
    if code == -1 { r := SafeReadNegInt8(buf, c); return; }
    if code == -3 { r := SafeRead(buf, c, 4, -TWO_63, TWO_63 - 1, Int64Code); return; }
    if code == -4 { r := SafeRead(buf, c, 8, -TWO_63, TWO_63 - 1, Int64Code); return; }
    c.sptr := sptr;
    return Error(Int64Code);
  }

  method CReadNat0(buf: array<Byte>, c: Cursor) returns (r: CResult<nat>)
    modifies c
    ensures Report(r, c.sptr) == DecNat0(buf[..], old(c.sptr))
  {
    hide Signed, DecSigned, DecUnsigned;
    var sptr := c.sptr;
    if sptr >= buf.Length { return CShort; }
    var code := SignedCode(buf[sptr]);
    c.sptr := sptr + 1;
    FieldInRange(buf[..], sptr + 1, 2); FieldInRange(buf[..], sptr + 1, 4);
    if code >= 0 { return Value(code); }
    if code == -2 { r := SafeReadNat0(buf, c, 2, TWO_64 - 1, Nat0Code); return; }
    if code == -3 { r := SafeReadNat0(buf, c, 4, TWO_64 - 1, Nat0Code); return; }
    if code == -4 { r := SafeReadNat0(buf, c, 8, 0x3fff_ffff_ffff_ffff, Nat0Overflow); return; }
    c.sptr := sptr;
    return Error(Nat0Code);
  }

  /** `read_string_stub`: too long a string moves the cursor back to its start. */
  method CReadString(buf: array<Byte>, c: Cursor) returns (r: CResult<Bytes>)
    modifies c
    ensures Report(r, c.sptr) == DecString(buf[..], old(c.sptr))
  {
    hide DecNat0;
    var start := c.sptr;
    var n := CReadNat0(buf, c);
    match n
    case Value(len) =>
      var sptr := c.sptr;
      var next := sptr + len;
      if len > MAX_STRING {
        c.sptr := start;
        return Error(StringTooLong);
      }
      if next > buf.Length { return CShort; }
      c.sptr := next;
      return Value(buf[sptr..next]);
    case CShort => return CShort;
    case Error(e) => return Error(e);
  }
}
