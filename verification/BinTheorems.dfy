/** The generated code is correct. */
module BinTheorems {
  import opened BinCodec
  import opened BinTypes
  import opened Octets
  import opened Options
  import opened BinWrite
  import opened BinRead

  // Sizes are lengths, variant code finds the first matching row, and the reader of every type inverts its writer.

  // ----- sizes -----

  lemma {:induction false} SizeIsLength(env: Env, ty: Type, v: Value)
    requires WfEnv(env) && WfType(env, ty) && HasType(env, ty, v)
    ensures Size(env, ty, v) == |Write(env, ty, v)|
    decreases v, Level(ty), 2
  {
    match ty
    case TList(t) => SizeOfElts(env, t, v.vs, SizeNat0(|v.vs|));
    case TArray(t) =>
      if t == TFloat {
        assert forall i :: 0 <= i < |v.vs| ==> HasType(env, t, v.vs[i]);
        SizeOfFloats(v.vs);
      } else {
        SizeOfElts(env, t, v.vs, SizeNat0(|v.vs|));
      }
    case TOption(t) => if v.VSome? { SizeIsLength(env, t, v.v); }
    case TTuple(ts) => SizeOfArgs(env, ts, v.vs, 0);
    case TNamed(n) => SizeOfDef(env, n, v);
    case TVariant(rows) => SizeOfRows(env, rows, v);
    case _ =>
  }

  lemma {:induction false} SizeOfElts(env: Env, t: Type, vs: seq<Value>, acc: nat)
    requires WfEnv(env) && WfType(env, t) && forall i :: 0 <= i < |vs| ==> HasType(env, t, vs[i])
    ensures SizeElts(env, t, vs, acc) == acc + |WriteElts(env, t, vs)|
    decreases vs
  {
    hide WfEnv, WfType, HasType, Write, Size;
    if vs != [] {
      SizeIsLength(env, t, vs[0]);
      SizeOfElts(env, t, vs[1..], acc + Size(env, t, vs[0]));
    }
  }

  lemma {:induction false} SizeOfFloats(vs: seq<Value>)
    requires forall i :: 0 <= i < |vs| ==> vs[i].VFloat? && |vs[i].bits| == 8
    ensures |FloatBlock(vs)| == 8 * |vs|
  {
    if vs != [] { SizeOfFloats(vs[1..]); }
  }

  lemma {:induction false} SizeOfArgs(env: Env, ts: seq<Type>, vs: seq<Value>, acc: nat)
    requires WfEnv(env) && WfTypes(env, ts) && HaveTypes(env, ts, vs)
    ensures SizeArgs(env, ts, vs, acc) == acc + |WriteArgs(env, ts, vs)|
    decreases vs
  {
    hide WfEnv, WfType, HasType, Write, Size;
    if ts != [] {
      SizeIsLength(env, ts[0], vs[0]);
      SizeOfArgs(env, ts[1..], vs[1..], acc + Size(env, ts[0], vs[0]));
    }
  }

  lemma {:induction false} SizeOfDef(env: Env, n: nat, v: Value)
    requires WfEnv(env) && n < |env| && DefHasType(env, n, v)
    ensures SizeDef(env, n, v) == |WriteDef(env, n, v)|
    decreases v, n + 1, 0
  {
    assert WfDef(env, n);
    match env[n]
    case Alias(ty) => SizeIsLength(env, ty, v);
    case Sum(alts) => SizeOfArgs(env, alts[v.alt], v.args, TagWidth(|alts|));
    case Record(ts) => SizeOfArgs(env, ts, v.vs, 0);
    case Variants(rows) => SizeOfRows(env, rows, v);
  }

  lemma {:induction false} SizeOfRows(env: Env, rows: seq<Row>, v: Value)
    requires WfEnv(env) && WfRows(env, rows) && VariantHasType(env, rows, v)
    ensures SizeRows(env, rows, v) == |WriteRows(env, rows, v)|
    decreases v, RowsLevel(rows), 1, |rows|
  {
    FirstRowAccepts(env, rows, v);
    if RowAccepts(env, rows[0], v) {
      match rows[0]
      case Atom(tag) => SizeOfAtom(env, rows[1..], v);
      case Of(tag, arg) => SizeIsLength(env, arg, v.arg);
      case Inherit(n) => InheritedHasType(env, n, v); SizeOfDef(env, n, v);
    } else {
      SizeOfRows(env, rows[1..], v);
    }
  }

  /** Whichever row the sizer takes for a bare tag, it answers 4. */
  lemma {:induction false} SizeOfAtom(env: Env, rows: seq<Row>, v: Value)
    requires WfEnv(env) && WfRows(env, rows) && v.VTag?
    ensures SizeAtom(env, rows, v) == 4
    decreases v, RowsLevel(rows), 1, |rows|
  {
    if rows != [] {
      var row := rows[0];
      assert WfRow(env, row);
      if row.Inherit? && RowAccepts(env, row, v) && VariantHasType(env, RowsOf(env, row.def), v) {
        InheritedHasType(env, row.def, v);
        SizeOfDef(env, row.def, v);
        BareTagIsFour(env, row.def, v);
      } else {
        SizeOfAtom(env, rows[1..], v);
      }
    }
  }

  lemma {:induction false} BareTagIsFour(env: Env, n: nat, v: Value)
    requires WfEnv(env) && n < |env| && IsVariant(env, n) && v.VTag? && DefHasType(env, n, v)
    ensures |WriteDef(env, n, v)| == 4
    decreases n + 1, 0
  {
    assert WfDef(env, n);
    match env[n]
    case Variants(rows) => BareTagRows(env, rows, v);
    case Alias(TNamed(m)) => BareTagIsFour(env, m, v);
  }

  lemma {:induction false} BareTagRows(env: Env, rows: seq<Row>, v: Value)
    requires WfEnv(env) && WfRows(env, rows) && v.VTag? && VariantHasType(env, rows, v)
    ensures |WriteRows(env, rows, v)| == 4
    decreases RowsLevel(rows), 1, |rows|
  {
    FirstRowAccepts(env, rows, v);
    if !RowAccepts(env, rows[0], v) {
      BareTagRows(env, rows[1..], v);
    } else if rows[0].Inherit? {
      InheritedHasType(env, rows[0].def, v);
      BareTagIsFour(env, rows[0].def, v);
    }
  }

  // ----- variant code -----

  /** The meaning of a leaf row at a position; `fallback` when there is none. */
  function LeafOutcome(env: Env, leaf: Option<Leaf>, b: Bytes, pos: nat, fallback: Outcome): Outcome
    requires WfEnv(env) && pos <= |b|
    requires leaf.Some? && leaf.value.arg.Some? ==> WfType(env, leaf.value.arg.value)
  {
    match leaf
    case None => fallback
    case Some(Leaf(tag, None)) => Done(Ok(VTag(tag), pos))
    case Some(Leaf(tag, Some(arg))) => Done(ReadTagged(env, tag, arg, b, pos))
  }

  lemma {:induction false} FindRowAppend(env: Env, r: seq<Row>, s: seq<Row>, tag: nat)
    requires WfEnv(env) && WfRows(env, r) && WfRows(env, s)
    ensures WfRows(env, r + s)
    ensures FindRow(env, r + s, tag) ==
            if FindRow(env, r, tag).Some? then FindRow(env, r, tag) else FindRow(env, s, tag)
  {
    FlattenAppend(env, r, s);
    FindAppend(Flatten(env, r), Flatten(env, s), tag);
  }

  /** The code built right to left tries its rows left to right, inherited ones depth first, then what was there. */
  lemma {:induction false} GenerateTriesInOrder(env: Env, next: Next, rows: seq<Row>, vint: nat, b: Bytes, pos: nat)
    requires WfEnv(env) && WfNext(env, next) && WfRows(env, rows) && pos <= |b|
    ensures WfCode(env, Generate(next, rows)) && WfCode(env, Finish(next))
    ensures Eval(env, Generate(next, rows), vint, b, pos) ==
            LeafOutcome(env, FindRow(env, rows, vint), b, pos, Eval(env, Finish(next), vint, b, pos))
    decreases RowsLevel(rows), |rows|
  {
    RowsLevelBounds(rows);
    GenerateWf(env, next, rows, Max(RowsLevel(rows), NextLevel(next)));
    if rows != [] {
      var k := |rows| - 1;
      var row, front := rows[k], rows[..k];
      assert rows == front + [row];
      FrontLevel(front, row);
      AddRowWf(env, next, row, Max(RowsLevel(rows), NextLevel(next)));
      GenerateTriesInOrder(env, AddRow(next, row), front, vint, b, pos);
      FindRowAppend(env, front, [row], vint);
      assert WfRow(env, row);
      if row.Inherit? {
        InheritedTriesInOrder(env, row.def, vint, b, pos);
        InheritedRow(env, next, row, vint, b, pos);
      } else {
        LeafRow(env, next, row, vint, b, pos);
      }
    }
  }

  lemma {:induction false} FrontLevel(front: seq<Row>, row: Row)
    ensures RowsLevel(front) <= RowsLevel(front + [row])
    ensures row.Inherit? ==> row.def + 1 <= RowsLevel(front + [row])
  {
    if front == [] {
      assert front + [row] == [row];
    } else {
      assert (front + [row])[1..] == front[1..] + [row] && (front + [row])[0] == front[0];
      FrontLevel(front[1..], row);
    }
  }

  /** The tag reader of a variant definition, or of an alias of one, tries that definition's rows. */
  lemma {:induction false} InheritedTriesInOrder(env: Env, n: nat, vint: nat, b: Bytes, pos: nat)
    requires WfEnv(env) && n < |env| && IsVariant(env, n) && pos <= |b|
    ensures EvalDef(env, n, vint, b, pos) == LeafOutcome(env, FindRow(env, RowsOf(env, n), vint), b, pos, NoMatch(pos))
    decreases n + 1, 0
  {
    assert WfDef(env, n);
    match env[n]
    case Variants(rows) => GenerateTriesInOrder(env, Nothing, rows, vint, b, pos);
    case Alias(TNamed(m)) => InheritedTriesInOrder(env, m, vint, b, pos);
  }

  lemma {:induction false} OneRow(env: Env, row: Row, vint: nat)
    requires WfEnv(env) && WfRow(env, row)
    ensures WfRows(env, [row])
    ensures row.Atom? ==> FindRow(env, [row], vint) == if row.tag == vint then Some(Leaf(vint, None)) else None
    ensures row.Of? ==> FindRow(env, [row], vint) == if row.tag == vint then Some(Leaf(vint, Some(row.arg))) else None
    ensures row.Inherit? ==> FindRow(env, [row], vint) == FindRow(env, RowsOf(env, row.def), vint)
  {
    assert [row][1..] == [] && Flatten(env, []) == [] && Find([], vint) == None;
    match row
    case Atom(tag) =>
      assert Flatten(env, [row]) == [Leaf(tag, None)];
      assert [Leaf(tag, None)][1..] == [];
    case Of(tag, arg) =>
      assert Flatten(env, [row]) == [Leaf(tag, Some(arg))];
      assert [Leaf(tag, Some(arg))][1..] == [];
    case Inherit(n) =>
      assert Flatten(env, [row]) == Flatten(env, RowsOf(env, n));
  }

  /** What a case in front of the code does. */
  lemma {:induction false} FrontCase(env: Env, next: Next, c: Case, vint: nat, b: Bytes, pos: nat)
    requires WfEnv(env) && WfNext(env, next) && !c.Default? && WfCase(env, c) && pos <= |b|
    ensures WfNext(env, AddCase(next, c)) && WfCode(env, Finish(AddCase(next, c))) && WfCode(env, Finish(next))
    ensures Eval(env, Finish(AddCase(next, c)), vint, b, pos) ==
            if c.tag != vint then Eval(env, Finish(next), vint, b, pos)
            else if c.CaseAtom? then Done(Ok(VTag(c.tag), pos)) else Done(ReadTagged(env, c.tag, c.arg, b, pos))
  {
    AddCaseWf(env, next, c);
    match next
    case Matches(cs) =>
      assert ([c] + cs)[0] == c && ([c] + cs)[1..] == cs;
    case Expr(code) =>
      DefaultLast(env, c, code, vint, b, pos);
    case Nothing =>
      DefaultLast(env, c, RaiseNoMatch, vint, b, pos);
  }

  lemma {:induction false} DefaultLast(env: Env, c: Case, code: Code, vint: nat, b: Bytes, pos: nat)
    requires WfEnv(env) && !c.Default? && WfCase(env, c) && WfCode(env, code) && pos <= |b|
    ensures WfCases(env, [c, Default(code)])
    ensures c.tag != vint ==> EvalCases(env, [c, Default(code)], vint, b, pos) == Eval(env, code, vint, b, pos)
  {
    TwoCases(env, c, code);
    var cs := [c, Default(code)];
    assert cs[1..] == [Default(code)] && cs[1..][1..] == [];
    assert EvalCases(env, cs[1..], vint, b, pos) == Eval(env, code, vint, b, pos);
  }

  lemma {:induction false} LeafRow(env: Env, next: Next, row: Row, vint: nat, b: Bytes, pos: nat)
    requires WfEnv(env) && WfNext(env, next) && WfRow(env, row) && !row.Inherit? && pos <= |b|
    ensures WfRows(env, [row])
    ensures WfNext(env, AddRow(next, row)) && WfCode(env, Finish(AddRow(next, row))) && WfCode(env, Finish(next))
    ensures Eval(env, Finish(AddRow(next, row)), vint, b, pos) ==
            LeafOutcome(env, FindRow(env, [row], vint), b, pos, Eval(env, Finish(next), vint, b, pos))
  {
    hide Flatten, Find, Eval;
    OneRow(env, row, vint);
    FrontCase(env, next, if row.Atom? then CaseAtom(row.tag) else CaseOf(row.tag, row.arg), vint, b, pos);
  }

  lemma {:induction false} InheritedRow(env: Env, next: Next, row: Row, vint: nat, b: Bytes, pos: nat)
    requires WfEnv(env) && WfNext(env, next) && WfRow(env, row) && row.Inherit? && pos <= |b|
    requires WfNext(env, AddRow(next, row)) && WfCode(env, Finish(AddRow(next, row))) && WfCode(env, Finish(next))
    requires EvalDef(env, row.def, vint, b, pos) ==
             LeafOutcome(env, FindRow(env, RowsOf(env, row.def), vint), b, pos, NoMatch(pos))
    ensures WfRows(env, [row])
    ensures Eval(env, Finish(AddRow(next, row)), vint, b, pos) ==
            LeafOutcome(env, FindRow(env, [row], vint), b, pos, Eval(env, Finish(next), vint, b, pos))
  {
    hide Flatten, Find, EvalDef;
    OneRow(env, row, vint);
  }

  /** The generated variant reader selects the first row with the tag, left to right and depth first. */
  lemma {:induction false} VariantCodeSelectsFirst(env: Env, rows: seq<Row>, vint: nat, b: Bytes, pos: nat)
    requires WfEnv(env) && WfRows(env, rows) && pos <= |b|
    ensures WfCode(env, VariantCode(rows))
    ensures Eval(env, VariantCode(rows), vint, b, pos) ==
            LeafOutcome(env, FindRow(env, rows, vint), b, pos, NoMatch(pos))
  {
    GenerateTriesInOrder(env, Nothing, rows, vint, b, pos);
  }

  // ----- round trips -----

  /** A variant value is written as its tag and the argument of the first row with that tag, however deep. */
  function TaggedBytes(env: Env, rows: seq<Row>, v: Value): Bytes
    requires WfEnv(env) && WfRows(env, rows) && VariantHasType(env, rows, v)
  {
    WriteTag(v.tag) + if v.VTag? then [] else Write(env, FindRow(env, rows, v.tag).value.arg.value, v.arg)
  }

  lemma {:induction false} RowsWriteTagged(env: Env, rows: seq<Row>, v: Value)
    requires WfEnv(env) && WfRows(env, rows) && VariantHasType(env, rows, v)
    ensures WriteRows(env, rows, v) == TaggedBytes(env, rows, v)
    decreases RowsLevel(rows), 1, |rows|
  {
    FirstRowAccepts(env, rows, v);
    if !RowAccepts(env, rows[0], v) {
      RowsWriteTagged(env, rows[1..], v);
    } else if rows[0].Inherit? {
      InheritedHasType(env, rows[0].def, v);
      DefWritesTagged(env, rows[0].def, v);
    }
  }

  lemma {:induction false} DefWritesTagged(env: Env, n: nat, v: Value)
    requires WfEnv(env) && n < |env| && IsVariant(env, n) && VariantHasType(env, RowsOf(env, n), v)
    ensures DefHasType(env, n, v) && WriteDef(env, n, v) == TaggedBytes(env, RowsOf(env, n), v)
    decreases n + 1, 0
  {
    assert WfDef(env, n);
    match env[n]
    case Variants(rows) => RowsWriteTagged(env, rows, v);
    case Alias(TNamed(m)) => DefWritesTagged(env, m, v);
  }

  /** Types without components. */
  predicate IsBase(ty: Type) {
    !ty.TList? && !ty.TArray? && !ty.TOption? && !ty.TTuple? && !ty.TNamed? && !ty.TVariant?
  }

  lemma {:induction false} RoundTripBase(env: Env, ty: Type, v: Value, b: Bytes, pos: nat)
    requires IsBase(ty) && WfEnv(env) && HasType(env, ty, v) && Occurs(b, pos, Write(env, ty, v))
    ensures pos <= |b| && Read(env, ty, b, pos) == Ok(v, pos + |Write(env, ty, v)|)
  {
    hide EncInt, EncNat0, DecInt, DecNat0, EncString, DecString, DecUnsigned, WfEnv, Occurs;
    OccursInside(b, pos, Write(env, ty, v));
    match ty
    case TUnit => OccursOne(b, pos, 0);
    case TBool => OccursOne(b, pos, if v.b then 1 else 0);
    case TChar => OccursOne(b, pos, v.c);
    case TInt => IntRoundTrip(KInt, v.n, b, pos);
    case TNat0 => Nat0RoundTrip(v.n, b, pos);
    case TInt32 => IntRoundTrip(KInt32, v.n, b, pos);
    case TInt64 => IntRoundTrip(KInt64, v.n, b, pos);
    case TFloat => OccursSlice(b, pos, v.bits);
    case TString => StringRoundTrip(v.s, b, pos);
  }

  /** Reading what was written gives the value back and stops where the writer stopped, whatever surrounds it. */
  lemma {:induction false} RoundTrip(env: Env, ty: Type, v: Value, b: Bytes, pos: nat)
    requires WfEnv(env) && WfType(env, ty) && HasType(env, ty, v) && Occurs(b, pos, Write(env, ty, v))
    ensures pos <= |b| && Read(env, ty, b, pos) == Ok(v, pos + |Write(env, ty, v)|)
    decreases v, Level(ty), 2
  {
    hide EncNat0, DecNat0, WfEnv, Occurs, ReadFloatArray, WriteFloatArray, ReadN, WriteElts, ReadArgs, WriteArgs;
    OccursInside(b, pos, Write(env, ty, v));
    match ty
    case TList(t) => RoundTripList(env, t, v, b, pos);
    case TArray(t) => RoundTripArray(env, t, v, b, pos);
    case TOption(t) =>
      if v.VNone? {
        OccursOne(b, pos, 0);
      } else {
        OccursHead(b, pos, 1, Write(env, t, v.v));
        RoundTrip(env, t, v.v, b, pos + 1);
      }
    case TTuple(ts) => RoundTripArgs(env, ts, v.vs, b, pos);
    case TNamed(n) => RoundTripDef(env, n, v, b, pos);
    case TVariant(rows) => RoundTripVariant(env, rows, v, b, pos);
    case _ => RoundTripBase(env, ty, v, b, pos);
  }

  lemma {:induction false} RoundTripList(env: Env, t: Type, v: Value, b: Bytes, pos: nat)
    requires WfEnv(env) && WfType(env, TList(t)) && HasType(env, TList(t), v) && Occurs(b, pos, Write(env, TList(t), v))
    ensures pos <= |b| && Read(env, TList(t), b, pos) == Ok(v, pos + |Write(env, TList(t), v)|)
    decreases v, 0, 1
  {
    hide EncNat0, DecNat0, DecString, WfEnv, Occurs, ReadN, WriteElts;
    OccursInside(b, pos, Write(env, TList(t), v));
    OccursSplit(b, pos, EncNat0(|v.vs|), WriteElts(env, t, v.vs));
    Nat0RoundTrip(|v.vs|, b, pos);
    RoundTripElts(env, t, v.vs, b, pos + |EncNat0(|v.vs|)|);
  }

  lemma {:induction false} RoundTripArray(env: Env, t: Type, v: Value, b: Bytes, pos: nat)
    requires WfEnv(env) && WfType(env, TArray(t)) && HasType(env, TArray(t), v) &&
             Occurs(b, pos, Write(env, TArray(t), v))
    ensures pos <= |b| && Read(env, TArray(t), b, pos) == Ok(v, pos + |Write(env, TArray(t), v)|)
    decreases v, 0, 1
  {
    hide EncNat0, DecNat0, DecString, WfEnv, Occurs, ReadN, WriteElts, ReadFloatArray, WriteFloatArray;
    OccursInside(b, pos, Write(env, TArray(t), v));
    assert forall i :: 0 <= i < |v.vs| ==> HasType(env, t, v.vs[i]);
    if t == TFloat {
      RoundTripFloats(v.vs, b, pos);
    } else {
      OccursSplit(b, pos, EncNat0(|v.vs|), WriteElts(env, t, v.vs));
      Nat0RoundTrip(|v.vs|, b, pos);
      RoundTripElts(env, t, v.vs, b, pos + |EncNat0(|v.vs|)|);
      NoElements(env, t, v.vs);
    }
  }

  lemma NoElements(env: Env, t: Type, vs: seq<Value>)
    requires WfEnv(env) && WfType(env, t) && forall i :: 0 <= i < |vs| ==> HasType(env, t, vs[i])
    ensures |vs| == 0 ==> WriteElts(env, t, vs) == []
  {}

  lemma OccursSlice(b: Bytes, pos: nat, w: Bytes)
    requires Occurs(b, pos, w)
    ensures Field(b, pos, |w|) == Ok(w, pos + |w|)
  {}

  lemma {:induction false} RoundTripElts(env: Env, t: Type, vs: seq<Value>, b: Bytes, pos: nat)
    requires WfEnv(env) && WfType(env, t) && forall i :: 0 <= i < |vs| ==> HasType(env, t, vs[i])
    requires Occurs(b, pos, WriteElts(env, t, vs))
    ensures pos <= |b| && ReadN(env, t, |vs|, b, pos) == Ok(vs, pos + |WriteElts(env, t, vs)|)
    decreases vs
  {
    hide WfEnv, WfType, HasType, Write, Read;
    OccursInside(b, pos, WriteElts(env, t, vs));
    if vs != [] {
      OccursSplit(b, pos, Write(env, t, vs[0]), WriteElts(env, t, vs[1..]));
      RoundTrip(env, t, vs[0], b, pos);
      RoundTripElts(env, t, vs[1..], b, pos + |Write(env, t, vs[0])|);
      assert vs == [vs[0]] + vs[1..];
    }
  }

  lemma {:induction false} RoundTripArgs(env: Env, ts: seq<Type>, vs: seq<Value>, b: Bytes, pos: nat)
    requires WfEnv(env) && WfTypes(env, ts) && HaveTypes(env, ts, vs) && Occurs(b, pos, WriteArgs(env, ts, vs))
    ensures pos <= |b| && ReadArgs(env, ts, b, pos) == Ok(vs, pos + |WriteArgs(env, ts, vs)|)
    decreases vs
  {
    hide WfEnv, WfType, HasType, Write, Read;
    OccursInside(b, pos, WriteArgs(env, ts, vs));
    if ts != [] {
      OccursSplit(b, pos, Write(env, ts[0], vs[0]), WriteArgs(env, ts[1..], vs[1..]));
      RoundTrip(env, ts[0], vs[0], b, pos);
      RoundTripArgs(env, ts[1..], vs[1..], b, pos + |Write(env, ts[0], vs[0])|);
      assert vs == [vs[0]] + vs[1..];
    }
  }

  lemma {:induction false} RoundTripDef(env: Env, n: nat, v: Value, b: Bytes, pos: nat)
    requires WfEnv(env) && n < |env| && DefHasType(env, n, v) && Occurs(b, pos, WriteDef(env, n, v))
    ensures pos <= |b| && ReadDef(env, n, b, pos) == Ok(v, pos + |WriteDef(env, n, v)|)
    decreases v, n + 1, 0
  {
    hide HaveTypes, Write, Read, HasType, DecUnsigned, Occurs, WriteArgs, ReadArgs;
    assert WfDef(env, n);
    OccursInside(b, pos, WriteDef(env, n, v));
    match env[n]
    case Alias(ty) => RoundTrip(env, ty, v, b, pos);
    case Sum(alts) =>
      var width := TagWidth(|alts|);
      OccursSplit(b, pos, LittleEndian(v.alt, width), WriteArgs(env, alts[v.alt], v.args));
      PowersOf256();
      UnsignedAt(v.alt, width, b, pos);
      RoundTripArgs(env, alts[v.alt], v.args, b, pos + width);
    case Record(ts) => RoundTripArgs(env, ts, v.vs, b, pos);
    case Variants(rows) => RoundTripVariant(env, rows, v, b, pos);
  }

  lemma {:induction false} RoundTripVariant(env: Env, rows: seq<Row>, v: Value, b: Bytes, pos: nat)
    requires WfEnv(env) && WfRows(env, rows) && VariantHasType(env, rows, v) && Occurs(b, pos, WriteRows(env, rows, v))
    ensures pos <= |b| && ReadVariant(env, rows, b, pos) == Ok(v, pos + |WriteRows(env, rows, v)|)
    decreases v, RowsLevel(rows), 1
  {
    hide WfEnv, WfRows, Write, Read, HasType, DecUnsigned, Occurs, Eval, WriteRows, Flatten, Find;
    RowsWriteTagged(env, rows, v);
    OccursInside(b, pos, WriteRows(env, rows, v));
    PowersOf256();
    var leaf := FindRow(env, rows, v.tag);
    VariantCodeSelectsFirst(env, rows, v.tag, b, pos + 4);
    if v.VTag? {
      assert TaggedBytes(env, rows, v) == WriteTag(v.tag);
      UnsignedAt(v.tag, 4, b, pos);
    } else {
      OccursSplit(b, pos, WriteTag(v.tag), Write(env, leaf.value.arg.value, v.arg));
      UnsignedAt(v.tag, 4, b, pos);
      RoundTrip(env, leaf.value.arg.value, v.arg, b, pos + 4);
    }
  }

  // ----- the special case for arrays of floats -----

  /** The block writer stores what the generic array writer would. */
  lemma {:induction false} FloatArrayWritesGenerically(env: Env, vs: seq<Value>)
    requires WfEnv(env) && forall i :: 0 <= i < |vs| ==> HasType(env, TFloat, vs[i]) && vs[i].VFloat?
    ensures WriteFloatArray(vs) == EncNat0(|vs|) + WriteElts(env, TFloat, vs)
  {
    FloatBlockIsElts(env, vs);
  }

  lemma {:induction false} FloatBlockIsElts(env: Env, vs: seq<Value>)
    requires WfEnv(env) && forall i :: 0 <= i < |vs| ==> HasType(env, TFloat, vs[i]) && vs[i].VFloat?
    ensures FloatBlock(vs) == WriteElts(env, TFloat, vs)
  {
    if vs != [] { FloatBlockIsElts(env, vs[1..]); }
  }

  /** The array reader without the special case. */
  function ReadGenericFloatArray(env: Env, b: Bytes, pos: nat): Result<Value>
    requires WfEnv(env) && pos <= |b|
  {
    Nat0Within(b, pos);
    match DecNat0(b, pos)
    case Ok(len, p) =>
      if len == 0 then Ok(VArray([]), p)
      else if len > MAX_ARRAY then Fail(ArrayTooLong, pos)
      else
        (match ReadN(env, TFloat, len, b, p)
         case Ok(vs, q) => Ok(VArray(vs), q)
         case Short => Short
         case Fail(e, at) => Fail(e, at))
    case Short => Short
    case Fail(e, at) => Fail(e, at)
  }

  /** The block reader agrees with the generic array reader on every buffer. */
  lemma {:induction false} FloatArrayReadsGenerically(env: Env, b: Bytes, pos: nat)
    requires WfEnv(env) && pos <= |b|
    ensures ReadFloatArray(b, pos) == ReadGenericFloatArray(env, b, pos)
  {
    hide DecNat0, DecString, WfEnv;
    Nat0Within(b, pos);
    match DecNat0(b, pos)
    case Ok(len, p) => BlockIsElements(env, len, b, p);
    case _ =>
  }

  lemma {:induction false} BlockIsElements(env: Env, n: nat, b: Bytes, pos: nat)
    requires WfEnv(env) && pos <= |b|
    ensures ReadN(env, TFloat, n, b, pos) ==
            if pos + 8 * n > |b| then Short else Ok(Floats(b[pos..pos + 8 * n], n), pos + 8 * n)
    decreases n
  {
    hide WfEnv;
    if n > 0 && pos + 8 <= |b| {
      BlockIsElements(env, n - 1, b, pos + 8);
      if pos + 8 * n <= |b| {
        var s := b[pos..pos + 8 * n];
        assert s[..8] == b[pos..pos + 8] && s[8..] == b[pos + 8..pos + 8 + 8 * (n - 1)];
      }
    }
  }

  lemma {:induction false} RoundTripFloats(vs: seq<Value>, b: Bytes, pos: nat)
    requires |vs| <= MAX_ARRAY && forall i :: 0 <= i < |vs| ==> vs[i].VFloat? && |vs[i].bits| == 8
    requires Occurs(b, pos, WriteFloatArray(vs))
    ensures ReadFloatArray(b, pos) == Ok(VArray(vs), pos + |WriteFloatArray(vs)|)
  {
    hide EncNat0, DecNat0, DecString;
    OccursSplit(b, pos, EncNat0(|vs|), FloatBlock(vs));
    Nat0RoundTrip(|vs|, b, pos);
    SizeOfFloats(vs);
    FloatsOfBlock(vs);
  }

  lemma {:induction false} FloatsOfBlock(vs: seq<Value>)
    requires forall i :: 0 <= i < |vs| ==> vs[i].VFloat? && |vs[i].bits| == 8
    ensures |FloatBlock(vs)| == 8 * |vs| && Floats(FloatBlock(vs), |vs|) == vs
  {
    if vs != [] {
      FloatsOfBlock(vs[1..]);
      assert FloatBlock(vs)[..8] == vs[0].bits && FloatBlock(vs)[8..] == FloatBlock(vs[1..]);
    }
  }

  /** The generated sizer, writer and reader of any type agree on any value, whatever comes before and after it. */
  lemma {:induction false} GeneratedCodeIsCorrect(env: Env, ty: Type, v: Value, b: Bytes, pos: nat)
    requires WfEnv(env) && WfType(env, ty) && HasType(env, ty, v) && Occurs(b, pos, Write(env, ty, v))
    ensures pos <= |b| && Read(env, ty, b, pos) == Ok(v, pos + Size(env, ty, v))
  {
    hide *;
    RoundTrip(env, ty, v, b, pos);
    SizeIsLength(env, ty, v);
  }
}
