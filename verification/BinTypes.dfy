/** Types and values of the bin_prot generator. */
module BinTypes {
  import opened BinCodec
  import opened Octets
  import opened Options

  // The closed types it accepts, the definitions they name, and typing.

  /** Type expressions. `TNamed(n)` is the n-th type definition. */
  datatype Type =
    | TUnit | TBool | TChar | TInt | TNat0 | TInt32 | TInt64 | TFloat | TString
    | TList(elt: Type) | TArray(elt: Type) | TOption(elt: Type)
    | TTuple(elts: seq<Type>)
    | TNamed(def: nat)
    | TVariant(rows: seq<Row>)

  /** A row of a polymorphic variant. Tags are the 32-bit representations of their hashes. */
  datatype Row = Atom(tag: nat) | Of(tag: nat, arg: Type) | Inherit(def: nat)

  datatype Def =
    | Alias(ty: Type)
    | Sum(alts: seq<seq<Type>>)
    | Record(fields: seq<Type>)
    | Variants(rows: seq<Row>)

  type Env = seq<Def>

  datatype Value =
    | VUnit | VBool(b: bool) | VChar(c: Byte) | VInt(n: int) | VFloat(bits: Bytes) | VString(s: Bytes)
    | VList(vs: seq<Value>) | VArray(vs: seq<Value>) | VNone | VSome(v: Value)
    | VTuple(vs: seq<Value>)
    | VCon(alt: nat, args: seq<Value>)
    | VTag(tag: nat) | VTagged(tag: nat, arg: Value)

  // ----- well-formed environments -----

  function Max(a: nat, b: nat): nat { if a > b then a else b }

  /** One more than the largest definition that a value of the type starts with, before any byte that is the
      type's own: through aliases, tuples, records and inherited rows. */
  function Level(ty: Type): nat {
    match ty
    case TNamed(n) => n + 1
    case TTuple(ts) => LevelAll(ts)
    case TVariant(rows) => RowsLevel(rows)
    case _ => 0
  }

  function LevelAll(ts: seq<Type>): nat {
    if ts == [] then 0 else Max(Level(ts[0]), LevelAll(ts[1..]))
  }

  function RowsLevel(rows: seq<Row>): nat {
    if rows == [] then 0 else Max(if rows[0].Inherit? then rows[0].def + 1 else 0, RowsLevel(rows[1..]))
  }

  /** All names are defined, inherited rows come from variant types, and tags are immediate (odd) 32-bit values. */
  predicate WfType(env: Env, ty: Type) {
    match ty
    case TList(t) => WfType(env, t)
    case TArray(t) => WfType(env, t)
    case TOption(t) => WfType(env, t)
    case TTuple(ts) => ts != [] && WfTypes(env, ts)
    case TNamed(n) => n < |env|
    case TVariant(rows) => WfRows(env, rows)
    case _ => true
  }

  predicate WfTypes(env: Env, ts: seq<Type>) {
    forall i :: 0 <= i < |ts| ==> WfType(env, ts[i])
  }

  predicate WfRows(env: Env, rows: seq<Row>) {
    forall i :: 0 <= i < |rows| ==> WfRow(env, rows[i])
  }

  predicate WfRow(env: Env, row: Row) {
    match row
    case Atom(tag) => WfTag(tag)
    case Of(tag, arg) => WfTag(tag) && WfType(env, arg)
    case Inherit(n) => n < |env| && IsVariant(env, n)
  }

  /** A variant definition, or an alias of one. */
  predicate IsVariant(env: Env, n: nat)
    requires n < |env|
  {
    match env[n]
    case Variants(_) => true
    case Alias(TNamed(m)) => m < n && IsVariant(env, m)
    case _ => false
  }

  predicate WfTag(tag: nat) { tag < 0x1_0000_0000 && tag % 2 == 1 }

  /** The compiler's own restrictions. Aliases, records and inherited rows do not run in circles: their definitions
      are numbered so that they start with earlier ones only. Sums may refer to any definition. */
  predicate WfDef(env: Env, n: nat)
    requires n < |env|
  {
    match env[n]
    case Alias(ty) => WfType(env, ty) && Level(ty) <= n
    case Sum(alts) => 1 <= |alts| <= 0x1_0000 && forall i :: 0 <= i < |alts| ==> WfTypes(env, alts[i])
    case Record(ts) => ts != [] && WfTypes(env, ts) && LevelAll(ts) <= n
    case Variants(rows) => WfRows(env, rows) && RowsLevel(rows) <= n
  }

  predicate WfEnv(env: Env) {
    forall n: nat :: n < |env| ==> WfDef(env, n)
  }

  /** The bytes that the number of a constructor takes. */
  function TagWidth(alts: nat): nat { if alts <= 0x100 then 1 else 2 }

  // ----- rows, flattened -----

  /** The tag of one leaf row, and its argument type if it has one. */
  datatype Leaf = Leaf(tag: nat, arg: Option<Type>)

  /** The rows behind a name: those of a variant definition, possibly through aliases; none for any other type. */
  function RowsOf(env: Env, n: nat): (rows: seq<Row>)
    requires WfEnv(env) && n < |env|
    ensures WfRows(env, rows) && RowsLevel(rows) <= n
  {
    assert WfDef(env, n);
    match env[n]
    case Variants(rows) => rows
    case Alias(TNamed(m)) => assert Level(TNamed(m)) == m + 1; RowsOf(env, m)
    case _ => []
  }

  /** All leaf rows, left to right and depth first. */
  function Flatten(env: Env, rows: seq<Row>): (leaves: seq<Leaf>)
    requires WfEnv(env) && WfRows(env, rows)
    decreases RowsLevel(rows), |rows|
  {
    if rows == [] then [] else LeavesOf(env, rows[0]) + Flatten(env, rows[1..])
  }

  function LeavesOf(env: Env, row: Row): (leaves: seq<Leaf>)
    requires WfEnv(env) && WfRow(env, row)
    decreases if row.Inherit? then row.def + 1 else 0, 0
  {
    match row
    case Atom(tag) => [Leaf(tag, None)]
    case Of(tag, arg) => [Leaf(tag, Some(arg))]
    case Inherit(n) => Flatten(env, RowsOf(env, n))
  }

  lemma {:induction false} FlattenAppend(env: Env, r: seq<Row>, s: seq<Row>)
    requires WfEnv(env) && WfRows(env, r) && WfRows(env, s)
    ensures WfRows(env, r + s) && Flatten(env, r + s) == Flatten(env, r) + Flatten(env, s)
    decreases |r|
  {
    if r == [] {
      assert r + s == s;
    } else {
      hide WfRow, WfEnv, LeavesOf, RowsLevel;
      assert (r + s)[1..] == r[1..] + s && (r + s)[0] == r[0];
      FlattenAppend(env, r[1..], s);
    }
  }

  /** The first leaf with the given tag. */
  function Find(leaves: seq<Leaf>, tag: nat): (r: Option<Leaf>)
    ensures r.Some? ==> r.value in leaves && r.value.tag == tag
  {
    if leaves == [] then None else if leaves[0].tag == tag then Some(leaves[0]) else Find(leaves[1..], tag)
  }

  lemma {:induction false} FindAppend(a: seq<Leaf>, b: seq<Leaf>, tag: nat)
    ensures Find(a + b, tag) == if Find(a, tag).Some? then Find(a, tag) else Find(b, tag)
  {
    if a == [] {
      assert a + b == b;
    } else {
      assert (a + b)[1..] == a[1..] + b;
      FindAppend(a[1..], b, tag);
    }
  }

  predicate WfLeaves(env: Env, leaves: seq<Leaf>) {
    forall i :: 0 <= i < |leaves| ==>
      WfTag(leaves[i].tag) && (leaves[i].arg.Some? ==> WfType(env, leaves[i].arg.value))
  }

  lemma {:induction false} FlattenWf(env: Env, rows: seq<Row>)
    requires WfEnv(env) && WfRows(env, rows)
    ensures WfLeaves(env, Flatten(env, rows))
    decreases RowsLevel(rows), |rows|
  {
    if rows != [] {
      assert WfRow(env, rows[0]);
      FlattenWf(env, rows[1..]);
      if rows[0].Inherit? { FlattenWf(env, RowsOf(env, rows[0].def)); }
    }
  }

  function FindRow(env: Env, rows: seq<Row>, tag: nat): (r: Option<Leaf>)
    requires WfEnv(env) && WfRows(env, rows)
    ensures r.Some? ==> r.value.tag == tag && WfTag(tag) && (r.value.arg.Some? ==> WfType(env, r.value.arg.value))
  {
    FlattenWf(env, rows);
    Find(Flatten(env, rows), tag)
  }

  // ----- typing -----

  predicate HasType(env: Env, ty: Type, v: Value)
    requires WfEnv(env) && WfType(env, ty)
    decreases v, Level(ty), 1
  {
    match ty
    case TUnit => v.VUnit?
    case TBool => v.VBool?
    case TChar => v.VChar?
    case TInt => v.VInt? && InKind(KInt, v.n)
    case TNat0 => v.VInt? && 0 <= v.n < TWO_62
    case TInt32 => v.VInt? && InKind(KInt32, v.n)
    case TInt64 => v.VInt? && InKind(KInt64, v.n)
    case TFloat => v.VFloat? && |v.bits| == 8
    case TString => v.VString? && |v.s| <= MAX_STRING
    case TList(t) => v.VList? && |v.vs| < TWO_62 && forall i :: 0 <= i < |v.vs| ==> HasType(env, t, v.vs[i])
    case TArray(t) => v.VArray? && |v.vs| <= MAX_ARRAY && forall i :: 0 <= i < |v.vs| ==> HasType(env, t, v.vs[i])
    case TOption(t) => v.VNone? || (v.VSome? && HasType(env, t, v.v))
    case TTuple(ts) => v.VTuple? && HaveTypes(env, ts, v.vs)
    case TNamed(n) => DefHasType(env, n, v)
    case TVariant(rows) => VariantHasType(env, rows, v)
  }

  predicate HaveTypes(env: Env, ts: seq<Type>, vs: seq<Value>)
    requires WfEnv(env) && WfTypes(env, ts)
    decreases vs
  {
    |ts| == |vs| && (ts != [] ==> HasType(env, ts[0], vs[0]) && HaveTypes(env, ts[1..], vs[1..]))
  }

  predicate DefHasType(env: Env, n: nat, v: Value)
    requires WfEnv(env) && n < |env|
    decreases v, n + 1, 0
  {
    assert WfDef(env, n);
    match env[n]
    case Alias(ty) => HasType(env, ty, v)
    case Sum(alts) => v.VCon? && v.alt < |alts| && HaveTypes(env, alts[v.alt], v.args)
    case Record(ts) => v.VTuple? && HaveTypes(env, ts, v.vs)
    case Variants(rows) => VariantHasType(env, rows, v)
  }

  /** The first row with the value's tag decides its type. */
  predicate VariantHasType(env: Env, rows: seq<Row>, v: Value)
    requires WfEnv(env) && WfRows(env, rows)
    decreases v, RowsLevel(rows), 0
  {
    (v.VTag? && FindRow(env, rows, v.tag) == Some(Leaf(v.tag, None))) ||
    (v.VTagged? &&
     var r := FindRow(env, rows, v.tag);
     r.Some? && r.value.arg.Some? && HasType(env, r.value.arg.value, v.arg))
  }
}
