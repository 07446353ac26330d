/** The list and array codecs in ML (read_ml.ml, write_ml.ml, size.ml): loops around an element codec, here the
    generated one of any type, proved against what the generator's model takes them to be. */
module BinLists {
  import opened BinCodec
  import opened BinMl
  import opened BinTypes
  import opened Octets
  import opened Sequences
  import opened BinWrite
  import opened BinRead
  import opened BinTheorems

  // ----- reading -----

  /** `bin_read_el`. */
  method ReadEl(env: Env, t: Type, buf: array<Byte>, p: PosRef) returns (r: Result<Value>)
    requires WfEnv(env) && WfType(env, t) && p.pos <= buf.Length
    modifies p
    ensures r == Read(env, t, buf[..], old(p.pos)) && Within(r, old(p.pos), buf[..])
    ensures p.pos == if r.Ok? then r.next else old(p.pos)
  {
    r := Read(env, t, buf[..], p.pos);
    if r.Ok? { p.pos := r.next; }
  }

  /** What remains to be read, behind elements already there. */
  function Behind(front: seq<Value>, r: Result<seq<Value>>): Result<seq<Value>> {
    match r case Ok(vs, q) => Ok(front + vs, q) case Short => Short case Fail(e, at) => Fail(e, at)
  }

  lemma {:induction false} ReadOneMore(env: Env, t: Type, n: nat, b: Bytes, pos: nat, front: seq<Value>)
    requires WfEnv(env) && WfType(env, t) && pos <= |b| && n > 0
    ensures match Read(env, t, b, pos)
            case Ok(v, p) => Behind(front, ReadN(env, t, n, b, pos)) == Behind(front + [v], ReadN(env, t, n - 1, b, p))
            case Short => ReadN(env, t, n, b, pos) == Short
            case Fail(e, at) => ReadN(env, t, n, b, pos) == Fail(e, at)
  {
    hide WfEnv, WfType, Read;
    match Read(env, t, b, pos)
    case Ok(v, p) =>
      if ReadN(env, t, n - 1, b, p).Ok? {
        var vs := ReadN(env, t, n - 1, b, p).value;
        assert front + ([v] + vs) == (front + [v]) + vs;
      }
    case _ =>
  }

  /** `bin_read_n_rev_list`: the elements, last one first. */
  method ReadNRevList(env: Env, t: Type, buf: array<Byte>, p: PosRef, len: nat) returns (r: Result<seq<Value>>)
    requires WfEnv(env) && WfType(env, t) && p.pos <= buf.Length
    modifies p
    ensures match ReadN(env, t, len, buf[..], old(p.pos))
            case Ok(vs, q) => r.Ok? && Reversed(r.value) == vs && r.next == q && p.pos == q
            case Short => r == Short
            case Fail(e, at) => r == Fail(e, at)
  {
    hide WfEnv, WfType, Read, ReadN;
    var n, acc := len, [];
    ghost var all := ReadN(env, t, len, buf[..], p.pos);
    NothingInFront(all);
    while n != 0
      invariant 0 <= n <= len && p.pos <= buf.Length
      invariant all == Behind(Reversed(acc), ReadN(env, t, n, buf[..], p.pos))
      decreases n
    {
      ReadOneMore(env, t, n, buf[..], p.pos, Reversed(acc));
      var el := ReadEl(env, t, buf, p);
      match el {
        case Ok(v, _) =>
          ReversedCons(v, acc);
          acc := [v] + acc;
          n := n - 1;
        case Short => return Short;
        case Fail(e, at) => return Fail(e, at);
      }
    }
    ReadNone(env, t, buf[..], p.pos);
    assert Reversed(acc) + [] == Reversed(acc);
    return Ok(acc, p.pos);
  }

  lemma {:induction false} NothingInFront(r: Result<seq<Value>>)
    ensures Behind(Reversed([]), r) == r && Behind([], r) == r
  {
    if r.Ok? { assert [] + r.value == r.value; }
  }

  lemma ReadNone(env: Env, t: Type, b: Bytes, pos: nat)
    requires WfEnv(env) && WfType(env, t) && pos <= |b|
    ensures ReadN(env, t, 0, b, pos) == Ok([], pos)
  {}

  method BinReadList(env: Env, t: Type, buf: array<Byte>, p: PosRef) returns (r: Result<Value>)
    requires WfEnv(env) && WfType(env, t) && p.pos <= buf.Length
    modifies p
    ensures r == Read(env, TList(t), buf[..], old(p.pos))
    ensures r.Ok? ==> p.pos == r.next
  {
    hide WfEnv, ReadN, DecNat0, DecString;
    Nat0Within(buf[..], p.pos);
    var n := BinReadNat0(buf, p);
    match n
    case Ok(len, _) =>
      var rev := ReadNRevList(env, t, buf, p, len);
      match rev {
        case Ok(vs, q) => return Ok(VList(Reversed(vs)), q);
        case Short => return Short;
        case Fail(e, at) => return Fail(e, at);
      }
    case Short => return Short;
    case Fail(e, at) => return Fail(e, at);
  }

  /** The array is filled with its first element and then overwritten from the second on. */
  method BinReadArray(env: Env, t: Type, buf: array<Byte>, p: PosRef) returns (r: Result<Value>)
    requires WfEnv(env) && WfType(env, t) && p.pos <= buf.Length
    modifies p
    ensures r == Read(env, TArray(t), buf[..], old(p.pos))
    ensures r.Ok? ==> p.pos == r.next
  {
    hide WfEnv, ReadN, DecNat0, DecString, ReadFloatArray;
    var startPos := p.pos;
    Nat0Within(buf[..], p.pos);
    if t == TFloat { FloatArrayReadsGenerically(env, buf[..], p.pos); }
    var n := BinReadNat0(buf, p);
    match n
    case Ok(len, _) =>
      if len == 0 { return Ok(VArray([]), p.pos); }
      if len > MAX_ARRAY { return Fail(ArrayTooLong, startPos); }
      var els := ReadElements(env, t, buf, p, len);
      match els {
        case Ok(vs, q) => return Ok(VArray(vs), q);
        case Short => return Short;
        case Fail(e, at) => return Fail(e, at);
      }
    case Short => return Short;
    case Fail(e, at) => return Fail(e, at);
  }

  method ReadElements(env: Env, t: Type, buf: array<Byte>, p: PosRef, len: nat) returns (r: Result<seq<Value>>)
    requires WfEnv(env) && WfType(env, t) && p.pos <= buf.Length && len > 0
    modifies p
    ensures r == ReadN(env, t, len, buf[..], old(p.pos))
    ensures r.Ok? ==> p.pos == r.next
  {
    hide WfEnv, WfType, Read, ReadN;
    ghost var all := ReadN(env, t, len, buf[..], p.pos);
    NothingInFront(all);
    ReadOneMore(env, t, len, buf[..], p.pos, []);
    var first := ReadEl(env, t, buf, p);
    if !first.Ok? { return if first.Short? then Short else Fail(first.error, first.at); }
    var res := new Value[len](_ => first.value);
    assert res[..1] == [] + [first.value];
    for i := 1 to len
      invariant p.pos <= buf.Length
      invariant all == Behind(res[..i], ReadN(env, t, len - i, buf[..], p.pos))
    {
      ReadOneMore(env, t, len - i, buf[..], p.pos, res[..i]);
      var el := ReadEl(env, t, buf, p);
      if !el.Ok? { return if el.Short? then Short else Fail(el.error, el.at); }
      ghost var front := res[..i];
      res[i] := el.value;
      assert res[..i + 1] == front + [el.value];
    }
    ReadNone(env, t, buf[..], p.pos);
    assert res[..len] + [] == res[..];
    return Ok(res[..], p.pos);
  }

  // ----- writing -----

  /** `bin_write_el`. Should it fail, nothing before its position is touched. */
  method WriteEl(env: Env, t: Type, buf: array<Byte>, pos: nat, v: Value) returns (r: Written)
    requires WfEnv(env) && WfType(env, t) && HasType(env, t, v)
    modifies buf
    ensures Wrote(old(buf[..]), buf[..], pos, Write(env, t, v), r)
  {
    var w := Write(env, t, v);
    if pos + |w| > buf.Length { return BufferShort; }
    forall i | 0 <= i < |w| { buf[pos + i] := w[i]; }
    assert buf[..] == Patch(old(buf[..]), pos, w);
    return Next(pos + |w|);
  }

  /** A write of several parts: all of it, or `Buffer_short` with nothing changed before the start. */
  predicate WroteParts(before: Bytes, after: Bytes, pos: nat, w: Bytes, r: Written) {
    |after| == |before| &&
    if pos + |w| <= |before| then r == Next(pos + |w|) && after == Patch(before, pos, w)
    else r == BufferShort && forall i :: 0 <= i < pos && i < |before| ==> after[i] == before[i]
  }

  lemma {:induction false} MoreParts(b0: Bytes, b1: Bytes, b2: Bytes, pos: nat, v: Bytes, w: Bytes, r: Written)
    requires pos + |v| <= |b0| && b1 == Patch(b0, pos, v) && WroteParts(b1, b2, pos + |v|, w, r)
    ensures WroteParts(b0, b2, pos, v + w, r)
  {
    if pos + |v + w| <= |b0| { PatchTwice(b0, pos, v, w); }
  }

  /** `bin_write_array_loop`, and the loop of `bin_write_list`. */
  method WriteElements(env: Env, t: Type, buf: array<Byte>, elsPos: nat, vs: seq<Value>) returns (r: Written)
    requires WfEnv(env) && WfType(env, t) && forall i :: 0 <= i < |vs| ==> HasType(env, t, vs[i])
    requires elsPos <= buf.Length
    modifies buf
    ensures WroteParts(old(buf[..]), buf[..], elsPos, WriteElts(env, t, vs), r)
  {
    hide WfEnv, WfType, HasType, Write, WriteElts, Patch;
    var elsPosRef := elsPos;
    ghost var before := buf[..];
    ghost var done: Bytes := [];
    PatchNothing(before, elsPos);
    NoElements(env, t, []);
    for i := 0 to |vs|
      invariant elsPosRef == elsPos + |done| <= buf.Length && buf[..] == Patch(before, elsPos, done)
      invariant WriteElts(env, t, vs) == done + WriteElts(env, t, vs[i..])
    {
      ghost var b1 := buf[..];
      var w := WriteEl(env, t, buf, elsPosRef, vs[i]);
      OneElement(env, t, vs[i..]);
      assert vs[i..][0] == vs[i] && vs[i..][1..] == vs[i + 1..];
      assert done + (Write(env, t, vs[i]) + WriteElts(env, t, vs[i + 1..])) ==
             (done + Write(env, t, vs[i])) + WriteElts(env, t, vs[i + 1..]);
      if w.BufferShort? { return BufferShort; }
      PatchTwice(before, elsPos, done, Write(env, t, vs[i]));
      done := done + Write(env, t, vs[i]);
      elsPosRef := w.pos;
    }
    NoElements(env, t, vs[|vs|..]);
    assert done + [] == done;
    return Next(elsPosRef);
  }

  lemma PatchNothing(b: Bytes, pos: nat)
    requires pos <= |b|
    ensures Patch(b, pos, []) == b
  {}

  lemma {:induction false} OneElement(env: Env, t: Type, vs: seq<Value>)
    requires WfEnv(env) && WfType(env, t) && vs != [] && forall i :: 0 <= i < |vs| ==> HasType(env, t, vs[i])
    ensures WriteElts(env, t, vs) == Write(env, t, vs[0]) + WriteElts(env, t, vs[1..])
  {
    hide WfEnv, WfType, HasType, Write;
  }

  /** `bin_write_list` and `bin_write_array`. */
  method BinWriteSequence(env: Env, t: Type, buf: array<Byte>, pos: nat, vs: seq<Value>) returns (r: Written)
    requires WfEnv(env) && WfType(env, t) && |vs| < TWO_62 && forall i :: 0 <= i < |vs| ==> HasType(env, t, vs[i])
    modifies buf
    ensures WroteParts(old(buf[..]), buf[..], pos, EncNat0(|vs|) + WriteElts(env, t, vs), r)
  {
    hide WfEnv, WfType, HasType, Write, WriteElts, EncNat0;
    var n := BinWriteNat0(buf, pos, |vs|);
    if n.BufferShort? { return BufferShort; }
    ghost var b1 := buf[..];
    r := WriteElements(env, t, buf, n.pos, vs);
    MoreParts(old(buf[..]), b1, buf[..], pos, EncNat0(|vs|), WriteElts(env, t, vs), r);
  }

  // ----- sizes -----

  /** `bin_size_array`: the total in a reference, one element after the other. */
  method BinSizeArray(env: Env, t: Type, vs: seq<Value>) returns (total: nat)
    requires WfEnv(env) && WfType(env, t) && forall i :: 0 <= i < |vs| ==> HasType(env, t, vs[i])
    ensures total == |EncNat0(|vs|) + WriteElts(env, t, vs)|
  {
    hide WfEnv, WfType, HasType, Write, WriteElts, EncNat0, Size;
    total := SizeNat0(|vs|);
    ghost var all := |WriteElts(env, t, vs)|;
    for i := 0 to |vs|
      invariant total + |WriteElts(env, t, vs[i..])| == SizeNat0(|vs|) + all
    {
      OneElement(env, t, vs[i..]);
      assert vs[i..][0] == vs[i] && vs[i..][1..] == vs[i + 1..];
      SizeIsLength(env, t, vs[i]);
      total := total + Size(env, t, vs[i]);
    }
    NoElements(env, t, vs[|vs|..]);
  }
}
