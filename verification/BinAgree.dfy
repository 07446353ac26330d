/** The two sets of codecs against each other: readers on every buffer, writers on equal buffers, and either writer with
    either reader through one buffer. */
module BinAgree {
  import opened BinC
  import opened BinCodec
  import opened BinMl
  import opened Octets

  // ----- readers -----

  /** On every buffer and position the ML and the C reader of a type report the same: value and next position,
      `Buffer_short`, or the same error at the same position. */
  method ReadersAgree(kind: IntKind, buf: array<Byte>, pos: nat) returns (ml: Result<int>, c: Result<int>)
    ensures ml == DecInt(kind, buf[..], pos) && c == ml
  {
    hide DecInt;
    var p := new PosRef(pos);
    var cursor := new Cursor(pos);
    var r;
    match kind {
      case KInt => ml := BinReadInt(buf, p); r := CReadInt(buf, cursor);
      case KInt32 => ml := BinReadInt32(buf, p); r := CReadInt32(buf, cursor);
      case KInt64 => ml := BinReadInt64(buf, p); r := CReadInt64(buf, cursor);
    }
    c := Report(r, cursor.sptr);
  }

  /** The same for natural numbers. */
  method Nat0ReadersAgree(buf: array<Byte>, pos: nat) returns (ml: Result<nat>, c: Result<nat>)
    ensures ml == DecNat0(buf[..], pos) && c == ml
  {
    hide DecNat0;
    var p := new PosRef(pos);
    ml := BinReadNat0(buf, p);
    var cursor := new Cursor(pos);
    var r := CReadNat0(buf, cursor);
    c := Report(r, cursor.sptr);
  }

  /** The same for strings. */
  method StringReadersAgree(buf: array<Byte>, pos: nat) returns (ml: Result<Bytes>, c: Result<Bytes>)
    ensures ml == DecString(buf[..], pos) && c == ml
  {
    hide DecString;
    var p := new PosRef(pos);
    ml := BinReadString(buf, p);
    var cursor := new Cursor(pos);
    var r := CReadString(buf, cursor);
    c := Report(r, cursor.sptr);
  }

  // ----- writers -----

  /** On equal buffers the two writers of an integer type store the same encoding, or both report a short buffer and
      store nothing. */
  method IntWritersAgree(kind: IntKind, buf: array<Byte>, cBuf: array<Byte>, pos: nat, n: int)
    returns (ml: Written, c: Written)
    requires buf != cBuf && buf[..] == cBuf[..] && InKind(kind, n)
    modifies buf, cBuf
    ensures Wrote(old(buf[..]), buf[..], pos, EncInt(n), ml)
    ensures c == ml && cBuf[..] == buf[..]
  {
    hide EncInt;
    c := CWriteInt(cBuf, pos, n);
    ml := MlWriteInt(kind, buf, pos, n);
  }

  /** The same for natural numbers. */
  method Nat0WritersAgree(buf: array<Byte>, cBuf: array<Byte>, pos: nat, n: nat) returns (ml: Written, c: Written)
    requires buf != cBuf && buf[..] == cBuf[..] && n < TWO_62
    modifies buf, cBuf
    ensures Wrote(old(buf[..]), buf[..], pos, EncNat0(n), ml)
    ensures c == ml && cBuf[..] == buf[..]
  {
    hide EncNat0;
    c := CWriteNat0(cBuf, pos, n);
    ml := BinWriteNat0(buf, pos, n);
  }

  /** The ML writer of an integer type. */
  method MlWriteInt(kind: IntKind, buf: array<Byte>, pos: nat, n: int) returns (r: Written)
    requires InKind(kind, n)
    modifies buf
    ensures Wrote(old(buf[..]), buf[..], pos, EncInt(n), r)
  {
    if kind == KInt64 { r := BinWriteInt64(buf, pos, n); } else { r := BinWriteInt(buf, pos, n); }
  }

  /** On equal buffers the two string writers store the encoding together, or report a short buffer together. When they
      fail the C writer has stored nothing, and the ML writer the length if that fits. */
  method StringWritersAgree(buf: array<Byte>, cBuf: array<Byte>, pos: nat, str: Bytes) returns (ml: Written, c: Written)
    requires buf != cBuf && buf[..] == cBuf[..] && |str| <= MAX_STRING
    modifies buf, cBuf
    ensures ml == if pos + |EncString(str)| <= buf.Length then Next(pos + |EncString(str)|) else BufferShort
    ensures c == ml
    ensures c.Next? ==> cBuf[..] == buf[..] == Patch(old(buf[..]), pos, EncString(str))
    ensures c.BufferShort? ==> cBuf[..] == old(cBuf[..])
    ensures c.BufferShort? ==>
              buf[..] == if pos + |EncNat0(|str|)| <= buf.Length then Patch(old(buf[..]), pos, EncNat0(|str|))
                         else old(buf[..])
  {
    hide EncNat0, EncString;
    c := CWriteString(cBuf, pos, str);
    ml := BinWriteString(buf, pos, str);
  }

  // ----- writing, then reading -----

  /** What a writer stored occurs in the buffer, with anything around it. */
  lemma PatchOccurs(b: Bytes, pos: nat, w: Bytes)
    requires pos + |w| <= |b|
    ensures Occurs(Patch(b, pos, w), pos, w)
  {}

  /** An integer written by either implementation is read back by either, which stops where the writer did. */
  method IntThroughBuffer(kind: IntKind, buf: array<Byte>, pos: nat, n: int, byC: bool)
    returns (w: Written, ml: Result<int>, c: Result<int>)
    requires InKind(kind, n)
    modifies buf
    ensures w == if pos + |EncInt(n)| <= buf.Length then Next(pos + |EncInt(n)|) else BufferShort
    ensures w.Next? ==> ml == c == Ok(n, w.pos)
    ensures w.Next? ==> forall i :: 0 <= i < pos || w.pos <= i < buf.Length ==> buf[i] == old(buf[i])
    ensures w.BufferShort? ==> buf[..] == old(buf[..])
  {
    hide EncInt, DecInt, Occurs;
    if byC { w := CWriteInt(buf, pos, n); } else { w := MlWriteInt(kind, buf, pos, n); }
    if w.Next? {
      PatchOccurs(old(buf[..]), pos, EncInt(n));
      IntRoundTrip(kind, n, buf[..], pos);
    }
    ml, c := ReadersAgree(kind, buf, pos);
  }

  /** The same for a natural number. */
  method Nat0ThroughBuffer(buf: array<Byte>, pos: nat, n: nat, byC: bool)
    returns (w: Written, ml: Result<nat>, c: Result<nat>)
    requires n < TWO_62
    modifies buf
    ensures w == if pos + |EncNat0(n)| <= buf.Length then Next(pos + |EncNat0(n)|) else BufferShort
    ensures w.Next? ==> ml == c == Ok(n, w.pos)
    ensures w.Next? ==> forall i :: 0 <= i < pos || w.pos <= i < buf.Length ==> buf[i] == old(buf[i])
    ensures w.BufferShort? ==> buf[..] == old(buf[..])
  {
    hide EncNat0, DecNat0, Occurs;
    if byC { w := CWriteNat0(buf, pos, n); } else { w := BinWriteNat0(buf, pos, n); }
    if w.Next? {
      PatchOccurs(old(buf[..]), pos, EncNat0(n));
      Nat0RoundTrip(n, buf[..], pos);
    }
    ml, c := Nat0ReadersAgree(buf, pos);
  }

  /** The same for a string. */
  method StringThroughBuffer(buf: array<Byte>, pos: nat, str: Bytes, byC: bool)
    returns (w: Written, ml: Result<Bytes>, c: Result<Bytes>)
    requires |str| <= MAX_STRING
    modifies buf
    ensures w == if pos + |EncString(str)| <= buf.Length then Next(pos + |EncString(str)|) else BufferShort
    ensures w.Next? ==> ml == c == Ok(str, w.pos)
    ensures w.Next? ==> forall i :: 0 <= i < pos || w.pos <= i < buf.Length ==> buf[i] == old(buf[i])
  {
    hide EncString, EncNat0, DecString, Occurs;
    if byC { w := CWriteString(buf, pos, str); } else { w := BinWriteString(buf, pos, str); }
    if w.Next? {
      PatchOccurs(old(buf[..]), pos, EncString(str));
      StringRoundTrip(str, buf[..], pos);
    }
    ml, c := StringReadersAgree(buf, pos);
  }
}
