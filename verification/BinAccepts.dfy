/** What the generated readers accept. */
module BinAccepts {
  import opened BinCodec
  import opened BinTypes
  import opened BinWrite
  import opened BinRead
  import opened BinTheorems
  import opened Octets
  import opened Options

  // Values of the type, from at least as many bytes as the writer would use.

  /** The value read has the type, and the bytes read could hold what the writer makes of it. */
  ghost predicate Typed(env: Env, ty: Type, pos: nat, r: Result<Value>)
    requires WfEnv(env) && WfType(env, ty)
  {
    r.Ok? ==> HasType(env, ty, r.value) && pos + |Write(env, ty, r.value)| <= r.next
  }

  lemma {:induction false} ReadTyped(env: Env, ty: Type, b: Bytes, pos: nat)
    requires WfEnv(env) && WfType(env, ty) && pos <= |b|
    ensures Typed(env, ty, pos, Read(env, ty, b, pos))
    decreases 2 * (|b| - pos), Level(ty), 2, ty
  {
    match ty
    case TInt => IntTyped(env, b, pos);
    case TNat0 => IntTyped(env, b, pos);
    case TInt32 => IntTyped(env, b, pos);
    case TInt64 => IntTyped(env, b, pos);
    case TString => StringTyped(env, b, pos);
    case TList(t) =>
      Nat0Within(b, pos);
      var len := DecNat0(b, pos);
      if len.Ok? && ReadN(env, t, len.value, b, len.next).Ok? {
        ReadNTyped(env, t, len.value, b, len.next);
        ListTyped(env, t, b, pos);
      }
    case TArray(t) =>
      Nat0Within(b, pos);
      FloatArrayReadsGenerically(env, b, pos);
      var len := DecNat0(b, pos);
      if len.Ok? && len.value > 0 && ReadN(env, t, len.value, b, len.next).Ok? {
        ReadNTyped(env, t, len.value, b, len.next);
      }
      ArrayTyped(env, t, b, pos);
    case TOption(t) => if pos + 1 < |b| || (pos < |b| && b[pos] == 1) { ReadTyped(env, t, b, pos + 1); }
    case TTuple(ts) => ReadArgsTyped(env, ts, b, pos);
    case TNamed(n) => ReadDefTyped(env, n, b, pos);
    case TVariant(rows) => ReadVariantTyped(env, rows, b, pos);
    case _ =>
  }

  ghost predicate EltsTyped(env: Env, t: Type, n: nat, pos: nat, r: Result<seq<Value>>)
    requires WfEnv(env) && WfType(env, t)
  {
    r.Ok? ==>
      |r.value| == n && (forall i :: 0 <= i < n ==> HasType(env, t, r.value[i])) &&
      pos + |WriteElts(env, t, r.value)| <= r.next
  }

  lemma {:induction false} ReadNTyped(env: Env, t: Type, n: nat, b: Bytes, pos: nat)
    requires WfEnv(env) && WfType(env, t) && pos <= |b|
    ensures EltsTyped(env, t, n, pos, ReadN(env, t, n, b, pos))
    decreases 2 * (|b| - pos) + 1, 0, 0, n
  {
    hide WfEnv, WfType, HasType, Write, Read;
    if n > 0 {
      ReadTyped(env, t, b, pos);
      var first := Read(env, t, b, pos);
      if first.Ok? { ReadNTyped(env, t, n - 1, b, first.next); }
    }
  }

  lemma {:induction false} ReadArgsTyped(env: Env, ts: seq<Type>, b: Bytes, pos: nat)
    requires WfEnv(env) && WfTypes(env, ts) && pos <= |b|
    ensures var r := ReadArgs(env, ts, b, pos);
            r.Ok? ==> HaveTypes(env, ts, r.value) && pos + |WriteArgs(env, ts, r.value)| <= r.next
    decreases 2 * (|b| - pos), LevelAll(ts), 2, ts
  {
    hide WfEnv, WfType, HasType, Write, Read;
    if ts != [] {
      ReadTyped(env, ts[0], b, pos);
      var first := Read(env, ts[0], b, pos);
      if first.Ok? { ReadArgsTyped(env, ts[1..], b, first.next); }
    }
  }

  lemma {:induction false} ReadDefTyped(env: Env, n: nat, b: Bytes, pos: nat)
    requires WfEnv(env) && n < |env| && pos <= |b|
    ensures var r := ReadDef(env, n, b, pos);
            r.Ok? ==> DefHasType(env, n, r.value) && pos + |WriteDef(env, n, r.value)| <= r.next
    decreases 2 * (|b| - pos), n + 1, 0
  {
    assert WfDef(env, n);
    match env[n]
    case Alias(ty) => ReadTyped(env, ty, b, pos);
    case Sum(alts) => ReadSumTyped(env, n, alts, b, pos);
    case Record(ts) => ReadArgsTyped(env, ts, b, pos);
    case Variants(rows) => ReadVariantTyped(env, rows, b, pos);
  }

  lemma {:induction false} ReadSumTyped(env: Env, n: nat, alts: seq<seq<Type>>, b: Bytes, pos: nat)
    requires WfEnv(env) && n < |env| && env[n] == Sum(alts) && pos <= |b| && |alts| <= 0x1_0000
    requires forall i :: 0 <= i < |alts| ==> WfTypes(env, alts[i])
    ensures var r := ReadSum(env, n, alts, b, pos);
            r.Ok? ==> DefHasType(env, n, r.value) && pos + |WriteDef(env, n, r.value)| <= r.next
    decreases 2 * (|b| - pos), 0, 0
  {
    var tag := DecUnsigned(b, pos, TagWidth(|alts|));
    if tag.Ok? && tag.value < |alts| { ReadArgsTyped(env, alts[tag.value], b, tag.next); }
  }

  lemma {:induction false} ReadVariantTyped(env: Env, rows: seq<Row>, b: Bytes, pos: nat)
    requires WfEnv(env) && WfRows(env, rows) && pos <= |b|
    ensures var r := ReadVariant(env, rows, b, pos);
            r.Ok? ==> VariantHasType(env, rows, r.value) && pos + |WriteRows(env, rows, r.value)| <= r.next
    decreases 2 * (|b| - pos), RowsLevel(rows), 1
  {
    var tag := ReadTag(b, pos);
    if tag.Ok? {
      VariantCodeSelectsFirst(env, rows, tag.value, b, tag.next);
      var row := FindRow(env, rows, tag.value);
      if row.Some? && row.value.arg.Some? { ReadTyped(env, row.value.arg.value, b, tag.next); }
      var r := ReadVariant(env, rows, b, pos);
      if r.Ok? { RowsWriteTagged(env, rows, r.value); }
    }
  }

  // ----- types without components -----

  lemma {:induction false} IntTyped(env: Env, b: Bytes, pos: nat)
    requires WfEnv(env) && pos <= |b|
    ensures Typed(env, TInt, pos, Read(env, TInt, b, pos)) && Typed(env, TNat0, pos, Read(env, TNat0, b, pos))
    ensures Typed(env, TInt32, pos, Read(env, TInt32, b, pos)) && Typed(env, TInt64, pos, Read(env, TInt64, b, pos))
  {
    hide EncInt, EncNat0, DecInt, DecNat0, WfEnv;
    if DecInt(KInt, b, pos).Ok? { IntShortest(KInt, b, pos); }
    if DecInt(KInt32, b, pos).Ok? { IntShortest(KInt32, b, pos); }
    if DecInt(KInt64, b, pos).Ok? { IntShortest(KInt64, b, pos); }
    if DecNat0(b, pos).Ok? { Nat0Shortest(b, pos); }
  }

  lemma {:induction false} StringTyped(env: Env, b: Bytes, pos: nat)
    requires WfEnv(env) && pos <= |b|
    ensures Typed(env, TString, pos, Read(env, TString, b, pos))
  {
    hide EncNat0, DecNat0, WfEnv;
    if DecNat0(b, pos).Ok? { Nat0Shortest(b, pos); }
  }

  lemma {:induction false} ListTyped(env: Env, t: Type, b: Bytes, pos: nat)
    requires WfEnv(env) && WfType(env, t) && pos <= |b| && DecNat0(b, pos).Ok? && DecNat0(b, pos).next <= |b|
    requires var len := DecNat0(b, pos); EltsTyped(env, t, len.value, len.next, ReadN(env, t, len.value, b, len.next))
    ensures Typed(env, TList(t), pos, Read(env, TList(t), b, pos))
  {
    hide EncNat0, DecNat0, WfEnv, ReadN, WriteElts;
    Nat0Shortest(b, pos);
  }

  lemma {:induction false} ArrayTyped(env: Env, t: Type, b: Bytes, pos: nat)
    requires WfEnv(env) && WfType(env, t) && pos <= |b|
    requires DecNat0(b, pos).Ok? ==> DecNat0(b, pos).next <= |b|
    requires ReadFloatArray(b, pos) == ReadGenericFloatArray(env, b, pos)
    requires var len := DecNat0(b, pos);
             len.Ok? && len.value > 0 ==>
               EltsTyped(env, t, len.value, len.next, ReadN(env, t, len.value, b, len.next))
    ensures Typed(env, TArray(t), pos, Read(env, TArray(t), b, pos))
  {
    hide EncNat0, DecNat0, WfEnv, ReadN, WriteElts, FloatBlock;
    if DecNat0(b, pos).Ok? { Nat0Shortest(b, pos); }
    NoElements(env, t, []);
    var r := Read(env, TArray(t), b, pos);
    if r.Ok? && t == TFloat {
      assert forall i :: 0 <= i < |r.value.vs| ==> HasType(env, TFloat, r.value.vs[i]) && r.value.vs[i].VFloat?;
      FloatArrayWritesGenerically(env, r.value.vs);
    }
  }

  /** A reader gives only values of its type; they take at most the bytes that were read, and the writer's bytes are
      read back as the same value. */
  lemma {:induction false} AcceptedIsWritable(env: Env, ty: Type, b: Bytes, pos: nat, b': Bytes, pos': nat)
    requires WfEnv(env) && WfType(env, ty) && pos <= |b| && Read(env, ty, b, pos).Ok?
    ensures var r := Read(env, ty, b, pos);
            && HasType(env, ty, r.value) && pos + Size(env, ty, r.value) <= r.next <= |b|
            && (Occurs(b', pos', Write(env, ty, r.value)) ==>
                  pos' <= |b'| && Read(env, ty, b', pos') == Ok(r.value, pos' + Size(env, ty, r.value)))
  {
    hide Read, Write, Size, HasType, Occurs;
    ReadTyped(env, ty, b, pos);
    var v := Read(env, ty, b, pos).value;
    SizeIsLength(env, ty, v);
    if Occurs(b', pos', Write(env, ty, v)) { RoundTrip(env, ty, v, b', pos'); }
  }
}
