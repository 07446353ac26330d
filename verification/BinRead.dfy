/** The generated readers of every type, on any buffer. */
module BinRead {
  import opened BinCodec
  import opened BinTypes
  import opened Octets

  // The code built for polymorphic variants, its evaluation, and the readers of every other type. Reading never passes
  // the end of the buffer, and it terminates on every input.

  // ----- the code of a variant reader -----

  /** `match variant_of_int vint with ...`, `try call with No_variant_match -> ...`, a bare call of an inherited
      type's tag reader, and `raise No_variant_match`. */
  datatype Code =
    | CheckVint(cases: seq<Case>)
    | TryNext(call: nat, next: Code)
    | Call(call: nat)
    | RaiseNoMatch

  datatype Case = CaseAtom(tag: nat) | CaseOf(tag: nat, arg: Type) | Default(code: Code)

  /** What has been built so far, from the right. */
  datatype Next = Matches(cases: seq<Case>) | Expr(code: Code) | Nothing

  function CodeLevel(c: Code): nat {
    match c
    case CheckVint(cases) => CasesLevel(cases)
    case TryNext(n, next) => Max(n + 1, CodeLevel(next))
    case Call(n) => n + 1
    case RaiseNoMatch => 0
  }

  function CasesLevel(cs: seq<Case>): nat {
    if cs == [] then 0 else Max(CaseLevel(cs[0]), CasesLevel(cs[1..]))
  }

  function CaseLevel(c: Case): nat {
    match c case Default(code) => CodeLevel(code) case _ => 0
  }

  /** The number of constructors, for termination. */
  function CodeSize(c: Code): nat {
    match c
    case CheckVint(cases) => 1 + CasesSize(cases)
    case TryNext(_, next) => 1 + CodeSize(next)
    case _ => 0
  }

  function CasesSize(cs: seq<Case>): nat {
    if cs == [] then 0 else 1 + CaseSize(cs[0]) + CasesSize(cs[1..])
  }

  function CaseSize(c: Case): nat {
    match c case Default(code) => CodeSize(code) case _ => 0
  }

  predicate WfCode(env: Env, c: Code) {
    match c
    case CheckVint(cases) => WfCases(env, cases)
    case TryNext(n, next) => n < |env| && WfCode(env, next)
    case Call(n) => n < |env|
    case RaiseNoMatch => true
  }

  predicate WfCases(env: Env, cs: seq<Case>) {
    cs == [] || (WfCase(env, cs[0]) && WfCases(env, cs[1..]))
  }

  predicate WfCase(env: Env, c: Case) {
    match c
    case CaseAtom(_) => true
    case CaseOf(_, arg) => WfType(env, arg)
    case Default(code) => WfCode(env, code)
  }

  function NextLevel(next: Next): nat {
    match next case Matches(cs) => CasesLevel(cs) case Expr(c) => CodeLevel(c) case Nothing => 0
  }

  predicate WfNext(env: Env, next: Next) {
    match next case Matches(cs) => WfCases(env, cs) case Expr(c) => WfCode(env, c) case Nothing => true
  }

  /** The finished code for what has been built. */
  function Finish(next: Next): Code {
    match next case Matches(cs) => CheckVint(cs) case Expr(c) => c case Nothing => RaiseNoMatch
  }

  /** `add_mc`: one more match case in front. */
  function AddCase(next: Next, c: Case): Next {
    match next
    case Matches(cs) => Matches([c] + cs)
    case Expr(code) => Matches([c, Default(code)])
    case Nothing => Matches([c, Default(RaiseNoMatch)])
  }

  /** One row in front of what has been built. */
  function AddRow(next: Next, row: Row): Next {
    match row
    case Atom(tag) => AddCase(next, CaseAtom(tag))
    case Of(tag, arg) => AddCase(next, CaseOf(tag, arg))
    case Inherit(n) =>
      match next
      case Matches(cs) => Expr(TryNext(n, CheckVint(cs)))
      case Expr(code) => Expr(TryNext(n, code))
      case Nothing => Expr(Call(n))
  }

  /** `loop_many` over the rows, last row first. */
  function Generate(next: Next, rows: seq<Row>): Code
    decreases |rows|
  {
    if rows == [] then Finish(next) else Generate(AddRow(next, rows[|rows| - 1]), rows[..|rows| - 1])
  }

  function VariantCode(rows: seq<Row>): Code { Generate(Nothing, rows) }

  lemma {:induction false} AddRowWf(env: Env, next: Next, row: Row, level: nat)
    requires WfNext(env, next) && WfRow(env, row)
    requires NextLevel(next) <= level && (row.Inherit? ==> row.def + 1 <= level)
    ensures WfNext(env, AddRow(next, row)) && NextLevel(AddRow(next, row)) <= level
  {
    match row
    case Atom(tag) => AddCaseWf(env, next, CaseAtom(tag));
    case Of(tag, arg) => AddCaseWf(env, next, CaseOf(tag, arg));
    case Inherit(n) =>
      if next.Matches? { assert CodeLevel(CheckVint(next.cases)) == CasesLevel(next.cases); }
  }

  lemma {:induction false} AddCaseWf(env: Env, next: Next, c: Case)
    requires WfNext(env, next) && !c.Default? && WfCase(env, c)
    ensures WfNext(env, AddCase(next, c)) && NextLevel(AddCase(next, c)) == NextLevel(next)
  {
    assert CaseLevel(c) == 0;
    match next
    case Matches(cs) => assert ([c] + cs)[0] == c && ([c] + cs)[1..] == cs;
    case Expr(code) => TwoCases(env, c, code);
    case Nothing => TwoCases(env, c, RaiseNoMatch);
  }

  lemma {:induction false} TwoCases(env: Env, c: Case, code: Code)
    requires !c.Default?
    ensures CasesLevel([c, Default(code)]) == CodeLevel(code)
    ensures WfCases(env, [c, Default(code)]) <==> WfCase(env, c) && WfCode(env, code)
  {
    var cs := [c, Default(code)];
    assert cs[1..] == [Default(code)] && cs[1..][1..] == [];
    assert CasesLevel(cs[1..]) == Max(CodeLevel(code), CasesLevel([]));
    assert WfCases(env, cs[1..]) <==> WfCode(env, code) && WfCases(env, []);
  }

  lemma {:induction false} RowsLevelBounds(rows: seq<Row>)
    ensures forall i :: 0 <= i < |rows| && rows[i].Inherit? ==> rows[i].def + 1 <= RowsLevel(rows)
  {
    if rows != [] { RowsLevelBounds(rows[1..]); }
  }

  lemma {:induction false} GenerateWf(env: Env, next: Next, rows: seq<Row>, level: nat)
    requires WfNext(env, next) && WfRows(env, rows) && NextLevel(next) <= level
    requires forall i :: 0 <= i < |rows| && rows[i].Inherit? ==> rows[i].def + 1 <= level
    ensures WfCode(env, Generate(next, rows)) && CodeLevel(Generate(next, rows)) <= level
    decreases |rows|
  {
    if rows != [] {
      var row := rows[|rows| - 1];
      AddRowWf(env, next, row, level);
      GenerateWf(env, AddRow(next, row), rows[..|rows| - 1], level);
    }
  }

  /** The generated code names only defined types, and only those the rows inherit from. */
  lemma {:induction false} VariantCodeWf(env: Env, rows: seq<Row>)
    requires WfRows(env, rows)
    ensures WfCode(env, VariantCode(rows)) && CodeLevel(VariantCode(rows)) <= RowsLevel(rows)
  {
    RowsLevelBounds(rows);
    GenerateWf(env, Nothing, rows, RowsLevel(rows));
  }

  // ----- evaluation -----

  /** What a tag reader does: finish, one way or the other, or raise `No_variant_match` with the position reached. */
  datatype Outcome = Done(result: Result<Value>) | NoMatch(at: nat)

  function Lift<T>(r: Result<T>, wrap: T -> Value): Result<Value> {
    match r case Ok(v, next) => Ok(wrap(v), next) case Short => Short case Fail(e, at) => Fail(e, at)
  }

  predicate Within<T>(r: Result<T>, pos: nat, b: Bytes) {
    r.Ok? ==> pos <= r.next <= |b|
  }

  /** `bin_read_<type>_`. */
  function Read(env: Env, ty: Type, b: Bytes, pos: nat): (r: Result<Value>)
    requires WfEnv(env) && WfType(env, ty) && pos <= |b|
    ensures Within(r, pos, b)
    decreases 2 * (|b| - pos), Level(ty), 2, ty
  {
    match ty
    case TUnit => if pos >= |b| then Short else if b[pos] == 0 then Ok(VUnit, pos + 1) else Fail(UnitCode, pos)
    case TBool =>
      if pos >= |b| then Short else if b[pos] <= 1 then Ok(VBool(b[pos] == 1), pos + 1) else Fail(BoolCode, pos)
    case TChar => if pos >= |b| then Short else Ok(VChar(b[pos]), pos + 1)
    case TInt => ReadInt(KInt, b, pos)
    case TNat0 => Nat0Within(b, pos); Lift(DecNat0(b, pos), (n: nat) => VInt(n))
    case TInt32 => ReadInt(KInt32, b, pos)
    case TInt64 => ReadInt(KInt64, b, pos)
    case TFloat => Lift(Field(b, pos, 8), s => VFloat(s))
    case TString => Nat0Within(b, pos); Lift(DecString(b, pos), s => VString(s))
    case TList(t) =>
      Nat0Within(b, pos);
      (match DecNat0(b, pos)
       case Ok(len, p) =>
         (match ReadN(env, t, len, b, p)
          case Ok(vs, q) => Ok(VList(vs), q)
          case Short => Short
          case Fail(e, at) => Fail(e, at))
       case Short => Short
       case Fail(e, at) => Fail(e, at))
    case TArray(t) =>
      Nat0Within(b, pos);
      if t == TFloat then ReadFloatArray(b, pos) else
        (match DecNat0(b, pos)
         case Ok(len, p) =>
           if len == 0 then Ok(VArray([]), p)
           else if len > MAX_ARRAY then Fail(ArrayTooLong, pos)
           else
             (match ReadN(env, t, len, b, p)
              case Ok(vs, q) => Ok(VArray(vs), q)
              case Short => Short
              case Fail(e, at) => Fail(e, at))
         case Short => Short
         case Fail(e, at) => Fail(e, at))
    case TOption(t) =>
      if pos >= |b| then Short
      else if b[pos] == 0 then Ok(VNone, pos + 1)
      else if b[pos] == 1 then
        (match Read(env, t, b, pos + 1) case Ok(v, q) => Ok(VSome(v), q) case Short => Short
          case Fail(e, at) => Fail(e, at))
      else Fail(OptionCode, pos)
    case TTuple(ts) =>
      (match ReadArgs(env, ts, b, pos) case Ok(vs, q) => Ok(VTuple(vs), q) case Short => Short
        case Fail(e, at) => Fail(e, at))
    case TNamed(n) => ReadDef(env, n, b, pos)
    case TVariant(rows) => ReadVariant(env, rows, b, pos)
  }

  function ReadInt(kind: IntKind, b: Bytes, pos: nat): (r: Result<Value>)
    requires pos <= |b|
    ensures Within(r, pos, b)
  {
    if DecInt(kind, b, pos).Ok? then IntShortest(kind, b, pos); Lift(DecInt(kind, b, pos), n => VInt(n))
    else Lift(DecInt(kind, b, pos), n => VInt(n))
  }

  lemma {:induction false} Nat0Within(b: Bytes, pos: nat)
    ensures DecNat0(b, pos).Ok? ==> pos < DecNat0(b, pos).next <= |b|
    ensures DecString(b, pos).Ok? ==> pos < DecString(b, pos).next <= |b|
  {
    if DecNat0(b, pos).Ok? { Nat0Shortest(b, pos); }
  }

  /** `bin_read_n_rev_list` followed by the reversal, and the loop of the array reader: `n` elements in order. */
  function ReadN(env: Env, t: Type, n: nat, b: Bytes, pos: nat): (r: Result<seq<Value>>)
    requires WfEnv(env) && WfType(env, t) && pos <= |b|
    ensures Within(r, pos, b)
    decreases 2 * (|b| - pos) + 1, 0, 0, n
  {
    if n == 0 then Ok([], pos) else
      match Read(env, t, b, pos)
      case Ok(v, p) =>
        (match ReadN(env, t, n - 1, b, p)
         case Ok(vs, q) => Ok([v] + vs, q)
         case Short => Short
         case Fail(e, at) => Fail(e, at))
      case Short => Short
      case Fail(e, at) => Fail(e, at)
  }

  /** `bin_read_float_array`: the length and one block. */
  function ReadFloatArray(b: Bytes, pos: nat): (r: Result<Value>)
    ensures Within(r, pos, b)
  {
    Nat0Within(b, pos);
    match DecNat0(b, pos)
    case Ok(len, p) =>
      if len == 0 then Ok(VArray([]), p)
      else if len > MAX_ARRAY then Fail(ArrayTooLong, pos)
      else if p + 8 * len > |b| then Short
      else Ok(VArray(Floats(b[p..p + 8 * len], len)), p + 8 * len)
    case Short => Short
    case Fail(e, at) => Fail(e, at)
  }

  function Floats(s: Bytes, n: nat): (vs: seq<Value>)
    requires |s| == 8 * n
    ensures |vs| == n
  {
    if n == 0 then [] else [VFloat(s[..8])] + Floats(s[8..], n - 1)
  }

  /** The `let v1 = ... and v2 = ...` of tuples, records and constructor arguments, in order. */
  function ReadArgs(env: Env, ts: seq<Type>, b: Bytes, pos: nat): (r: Result<seq<Value>>)
    requires WfEnv(env) && WfTypes(env, ts) && pos <= |b|
    ensures Within(r, pos, b)
    decreases 2 * (|b| - pos), LevelAll(ts), 2, ts
  {
    if ts == [] then Ok([], pos) else
      match Read(env, ts[0], b, pos)
      case Ok(v, p) =>
        (match ReadArgs(env, ts[1..], b, p)
         case Ok(vs, q) => Ok([v] + vs, q)
         case Short => Short
         case Fail(e, at) => Fail(e, at))
      case Short => Short
      case Fail(e, at) => Fail(e, at)
  }

  /** `bin_read_<name>_` of a type definition. */
  function ReadDef(env: Env, n: nat, b: Bytes, pos: nat): (r: Result<Value>)
    requires WfEnv(env) && n < |env| && pos <= |b|
    ensures Within(r, pos, b)
    decreases 2 * (|b| - pos), n + 1, 0
  {
    assert WfDef(env, n);
    match env[n]
    case Alias(ty) => Read(env, ty, b, pos)
    case Sum(alts) => ReadSum(env, n, alts, b, pos)
    case Record(ts) =>
      (match ReadArgs(env, ts, b, pos) case Ok(vs, q) => Ok(VTuple(vs), q) case Short => Short
        case Fail(e, at) => Fail(e, at))
    case Variants(rows) => ReadVariant(env, rows, b, pos)
  }

  function ReadSum(env: Env, n: nat, alts: seq<seq<Type>>, b: Bytes, pos: nat): (r: Result<Value>)
    requires WfEnv(env) && pos <= |b| && |alts| <= 0x1_0000
    requires forall i :: 0 <= i < |alts| ==> WfTypes(env, alts[i])
    ensures Within(r, pos, b)
    decreases 2 * (|b| - pos), 0, 0
  {
    match DecUnsigned(b, pos, TagWidth(|alts|))
    case Ok(i, p) =>
      if i >= |alts| then Fail(SumTag(n), p)
      else (match ReadArgs(env, alts[i], b, p) case Ok(vs, q) => Ok(VCon(i, vs), q) case Short => Short
        case Fail(e, at) => Fail(e, at))
    case Short => Short
    case Fail(e, at) => Fail(e, at)
  }

  /** The 4-byte tag; an even number is no tag. */
  function ReadTag(b: Bytes, pos: nat): (r: Result<nat>)
    ensures r.Ok? ==> r.next == pos + 4 <= |b|
  {
    var r := DecUnsigned(b, pos, 4);
    if r.Ok? && r.value % 2 == 0 then Fail(VariantTag, pos) else r
  }

  /** A complete variant reader: tag, then the code; `No_variant_match` becomes an error at the tag. */
  function ReadVariant(env: Env, rows: seq<Row>, b: Bytes, pos: nat): (r: Result<Value>)
    requires WfEnv(env) && WfRows(env, rows) && pos <= |b|
    ensures Within(r, pos, b)
    decreases 2 * (|b| - pos), RowsLevel(rows), 1
  {
    match ReadTag(b, pos)
    case Ok(vint, p) =>
      VariantCodeWf(env, rows);
      (match Eval(env, VariantCode(rows), vint, b, p)
       case Done(r) => r
       case NoMatch(at) => Fail(VariantError, at - 4))
    case Short => Short
    case Fail(e, at) => Fail(e, at)
  }

  predicate Sound(o: Outcome, pos: nat, b: Bytes) {
    match o case Done(r) => Within(r, pos, b) case NoMatch(at) => at == pos
  }

  /** Evaluation of variant code after the tag. `No_variant_match` escapes only at the position where it started:
      no byte of an argument has been consumed. */
  function Eval(env: Env, code: Code, vint: nat, b: Bytes, pos: nat): (o: Outcome)
    requires WfEnv(env) && WfCode(env, code) && pos <= |b|
    ensures Sound(o, pos, b)
    decreases 2 * (|b| - pos) + 1, CodeLevel(code), 1, CodeSize(code)
  {
    match code
    case CheckVint(cases) => EvalCases(env, cases, vint, b, pos)
    case TryNext(n, next) =>
      (match EvalDef(env, n, vint, b, pos)
       case NoMatch(at) => Eval(env, next, vint, b, at)
       case Done(r) => Done(r))
    case Call(n) => EvalDef(env, n, vint, b, pos)
    case RaiseNoMatch => NoMatch(pos)
  }

  function EvalCases(env: Env, cases: seq<Case>, vint: nat, b: Bytes, pos: nat): (o: Outcome)
    requires WfEnv(env) && WfCases(env, cases) && pos <= |b|
    ensures Sound(o, pos, b)
    decreases 2 * (|b| - pos) + 1, CasesLevel(cases), 1, CasesSize(cases)
  {
    if cases == [] then NoMatch(pos) else
      assert WfCase(env, cases[0]);
      match cases[0]
      case CaseAtom(tag) => if vint == tag then Done(Ok(VTag(tag), pos)) else EvalCases(env, cases[1..], vint, b, pos)
      case CaseOf(tag, arg) =>
        if vint == tag then Done(ReadTagged(env, tag, arg, b, pos)) else EvalCases(env, cases[1..], vint, b, pos)
      case Default(code) =>
        assert CaseSize(cases[0]) == CodeSize(code) && CaseLevel(cases[0]) == CodeLevel(code);
        Eval(env, code, vint, b, pos)
  }

  function ReadTagged(env: Env, tag: nat, arg: Type, b: Bytes, pos: nat): (r: Result<Value>)
    requires WfEnv(env) && WfType(env, arg) && pos <= |b|
    ensures Within(r, pos, b)
    decreases 2 * (|b| - pos) + 1, 0, 0
  {
    match Read(env, arg, b, pos) case Ok(v, q) => Ok(VTagged(tag, v), q) case Short => Short
      case Fail(e, at) => Fail(e, at)
  }

  /** `bin_read_<name>__`: the tag reader of a definition. Only variants and their aliases have a real one. */
  function EvalDef(env: Env, n: nat, vint: nat, b: Bytes, pos: nat): (o: Outcome)
    requires WfEnv(env) && n < |env| && pos <= |b|
    ensures Sound(o, pos, b)
    decreases 2 * (|b| - pos) + 1, n + 1, 0
  {
    assert WfDef(env, n);
    match env[n]
    case Variants(rows) => VariantCodeWf(env, rows); Eval(env, VariantCode(rows), vint, b, pos)
    case Alias(TNamed(m)) => assert Level(TNamed(m)) == m + 1; EvalDef(env, m, vint, b, pos)
    case _ => Done(Fail(VariantWrongType, pos))
  }
}
