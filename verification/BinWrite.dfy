/** What the generated writers and sizers compute, type by type as pa_bin_prot.ml builds them. */
module BinWrite {
  import opened BinCodec
  import opened BinTypes
  import opened Octets
  import opened Options

  /** `bin_write_variant_tag`. */
  function WriteTag(tag: nat): (w: Bytes)
    ensures |w| == 4
  {
    LittleEndian(tag, 4)
  }

  /** The pattern `#t` of an inherited row: it accepts the constructors of the named type. */
  predicate Accepts(leaves: seq<Leaf>, v: Value) {
    exists i :: 0 <= i < |leaves| && ((v.VTag? && leaves[i] == Leaf(v.tag, None)) ||
                                     (v.VTagged? && leaves[i].tag == v.tag && leaves[i].arg.Some?))
  }

  predicate RowAccepts(env: Env, row: Row, v: Value)
    requires WfEnv(env) && WfRow(env, row)
  {
    match row
    case Atom(tag) => v == VTag(tag)
    case Of(tag, _) => v.VTagged? && v.tag == tag
    case Inherit(n) => Accepts(Flatten(env, RowsOf(env, n)), v)
  }

  lemma {:induction false} FindAccepted(leaves: seq<Leaf>, v: Value)
    requires (v.VTag? || v.VTagged?) && Accepts(leaves, v)
    ensures Find(leaves, v.tag).Some?
  {
    if leaves[0].tag != v.tag {
      assert Accepts(leaves[1..], v) by {
        var i :| 0 <= i < |leaves| && ((v.VTag? && leaves[i] == Leaf(v.tag, None)) ||
                                       (v.VTagged? && leaves[i].tag == v.tag && leaves[i].arg.Some?));
        assert leaves[1..][i - 1] == leaves[i];
      }
      FindAccepted(leaves[1..], v);
    }
  }

  /** The row of the first leaf with the value's tag is the first row whose pattern accepts the value. */
  lemma {:induction false} FirstRowAccepts(env: Env, rows: seq<Row>, v: Value)
    requires WfEnv(env) && WfRows(env, rows) && VariantHasType(env, rows, v)
    ensures rows != [] && WfRow(env, rows[0])
    ensures !RowAccepts(env, rows[0], v) ==> VariantHasType(env, rows[1..], v)
    ensures RowAccepts(env, rows[0], v) && rows[0].Inherit? ==> VariantHasType(env, RowsOf(env, rows[0].def), v)
    ensures RowAccepts(env, rows[0], v) && rows[0].Of? ==> HasType(env, rows[0].arg, v.arg)
    ensures !RowAccepts(env, rows[0], v) ==> FindRow(env, rows, v.tag) == FindRow(env, rows[1..], v.tag)
    ensures RowAccepts(env, rows[0], v) && rows[0].Inherit? ==>
              FindRow(env, rows, v.tag) == FindRow(env, RowsOf(env, rows[0].def), v.tag)
    ensures RowAccepts(env, rows[0], v) && rows[0].Of? ==>
            FindRow(env, rows, v.tag) == Some(Leaf(v.tag, Some(rows[0].arg)))
  {
    assert rows != [] by { assert Find([], v.tag) == None; }
    assert WfRow(env, rows[0]);
    var inner, rest := LeavesOf(env, rows[0]), Flatten(env, rows[1..]);
    assert Flatten(env, rows) == inner + rest;
    FindAppend(inner, rest, v.tag);
    if rows[0].Inherit? {
      if Accepts(inner, v) {
        FindAccepted(inner, v);
      } else if Find(inner, v.tag).Some? {
        FoundIsAccepted(inner, v);
      }
    } else {
      assert inner[1..] == [] && Find(inner[1..], v.tag) == None;
    }
  }

  lemma {:induction false} FoundIsAccepted(leaves: seq<Leaf>, v: Value)
    requires v.VTag? || v.VTagged?
    ensures v.VTag? && Find(leaves, v.tag) == Some(Leaf(v.tag, None)) ==> Accepts(leaves, v)
    ensures v.VTagged? && Find(leaves, v.tag).Some? && Find(leaves, v.tag).value.arg.Some? ==> Accepts(leaves, v)
  {
    if Find(leaves, v.tag).Some? {
      var l := Find(leaves, v.tag).value;
      assert l in leaves;
      var i :| 0 <= i < |leaves| && leaves[i] == l;
    }
  }

  /** A name whose rows type a value is a variant definition or an alias of one. */
  lemma {:induction false} InheritedHasType(env: Env, n: nat, v: Value)
    requires WfEnv(env) && n < |env| && VariantHasType(env, RowsOf(env, n), v)
    ensures DefHasType(env, n, v)
    decreases n
  {
    assert WfDef(env, n);
    match env[n]
    case Variants(rows) =>
    case Alias(TNamed(m)) =>
      assert Level(TNamed(m)) == m + 1;
      InheritedHasType(env, m, v);
    case _ =>
  }

  // ----- writers -----

  /** `bin_write_<type>_` of a value, as the bytes it stores. */
  function Write(env: Env, ty: Type, v: Value): Bytes
    requires WfEnv(env) && WfType(env, ty) && HasType(env, ty, v)
    decreases v, Level(ty), 2
  {
    match ty
    case TUnit => [0]
    case TBool => [if v.b then 1 else 0]
    case TChar => [v.c]
    case TInt => EncInt(v.n)
    case TNat0 => EncNat0(v.n)
    case TInt32 => EncInt(v.n)
    case TInt64 => EncInt(v.n)
    case TFloat => v.bits
    case TString => EncString(v.s)
    case TList(t) => EncNat0(|v.vs|) + WriteElts(env, t, v.vs)
    case TArray(t) =>
      assert forall i :: 0 <= i < |v.vs| ==> HasType(env, t, v.vs[i]);
      if t == TFloat then WriteFloatArray(v.vs) else EncNat0(|v.vs|) + WriteElts(env, t, v.vs)
    case TOption(t) => if v.VNone? then [0] else [1] + Write(env, t, v.v)
    case TTuple(ts) => WriteArgs(env, ts, v.vs)
    case TNamed(n) => WriteDef(env, n, v)
    case TVariant(rows) => WriteRows(env, rows, v)
  }

  /** The loop of the list and array writers. */
  function WriteElts(env: Env, t: Type, vs: seq<Value>): Bytes
    requires WfEnv(env) && WfType(env, t) && forall i :: 0 <= i < |vs| ==> HasType(env, t, vs[i])
    decreases vs
  {
    if vs == [] then [] else Write(env, t, vs[0]) + WriteElts(env, t, vs[1..])
  }

  /** `bin_write_float_array`: the length and one block of 8-byte floats. */
  function WriteFloatArray(vs: seq<Value>): Bytes
    requires forall i :: 0 <= i < |vs| ==> vs[i].VFloat?
  {
    EncNat0(|vs|) + FloatBlock(vs)
  }

  function FloatBlock(vs: seq<Value>): Bytes
    requires forall i :: 0 <= i < |vs| ==> vs[i].VFloat?
  {
    if vs == [] then [] else vs[0].bits + FloatBlock(vs[1..])
  }

  /** Components in order, each writer starting where the one before stopped. */
  function WriteArgs(env: Env, ts: seq<Type>, vs: seq<Value>): Bytes
    requires WfEnv(env) && WfTypes(env, ts) && HaveTypes(env, ts, vs)
    decreases vs
  {
    if ts == [] then [] else Write(env, ts[0], vs[0]) + WriteArgs(env, ts[1..], vs[1..])
  }

  function WriteDef(env: Env, n: nat, v: Value): Bytes
    requires WfEnv(env) && n < |env| && DefHasType(env, n, v)
    decreases v, n + 1, 0
  {
    assert WfDef(env, n);
    match env[n]
    case Alias(ty) => Write(env, ty, v)
    case Sum(alts) => LittleEndian(v.alt, TagWidth(|alts|)) + WriteArgs(env, alts[v.alt], v.args)
    case Record(ts) => WriteArgs(env, ts, v.vs)
    case Variants(rows) => WriteRows(env, rows, v)
  }

  /** The match over the rows of a variant: the first pattern that accepts the value writes it. */
  function WriteRows(env: Env, rows: seq<Row>, v: Value): Bytes
    requires WfEnv(env) && WfRows(env, rows) && VariantHasType(env, rows, v)
    decreases v, RowsLevel(rows), 1, |rows|
  {
    FirstRowAccepts(env, rows, v);
    if RowAccepts(env, rows[0], v) then
      match rows[0]
      case Atom(tag) => WriteTag(tag)
      case Of(tag, arg) => WriteTag(tag) + Write(env, arg, v.arg)
      case Inherit(n) => InheritedHasType(env, n, v); WriteDef(env, n, v)
    else WriteRows(env, rows[1..], v)
  }

  // ----- sizers -----

  /** `bin_size_<type>`. */
  function Size(env: Env, ty: Type, v: Value): nat
    requires WfEnv(env) && WfType(env, ty) && HasType(env, ty, v)
    decreases v, Level(ty), 2
  {
    match ty
    case TUnit => 1
    case TBool => 1
    case TChar => 1
    case TInt => SizeInt(v.n)
    case TNat0 => SizeNat0(v.n)
    case TInt32 => SizeInt(v.n)
    case TInt64 => SizeInt(v.n)
    case TFloat => 8
    case TString => SizeNat0(|v.s|) + |v.s|
    case TList(t) => SizeElts(env, t, v.vs, SizeNat0(|v.vs|))
    case TArray(t) => if t == TFloat then SizeNat0(|v.vs|) + 8 * |v.vs| else SizeElts(env, t, v.vs, SizeNat0(|v.vs|))
    case TOption(t) => if v.VNone? then 1 else 1 + Size(env, t, v.v)
    case TTuple(ts) => SizeArgs(env, ts, v.vs, 0)
    case TNamed(n) => SizeDef(env, n, v)
    case TVariant(rows) => SizeRows(env, rows, v)
  }

  /** The loop of the list and array sizers, with its accumulator. */
  function SizeElts(env: Env, t: Type, vs: seq<Value>, acc: nat): nat
    requires WfEnv(env) && WfType(env, t) && forall i :: 0 <= i < |vs| ==> HasType(env, t, vs[i])
    decreases vs
  {
    if vs == [] then acc else SizeElts(env, t, vs[1..], acc + Size(env, t, vs[0]))
  }

  /** The generated `let size = size + ... in` chain. */
  function SizeArgs(env: Env, ts: seq<Type>, vs: seq<Value>, size: nat): nat
    requires WfEnv(env) && WfTypes(env, ts) && HaveTypes(env, ts, vs)
    decreases vs
  {
    if ts == [] then size else SizeArgs(env, ts[1..], vs[1..], size + Size(env, ts[0], vs[0]))
  }

  /** A sum without arguments falls through to the default case: the tag alone. */
  function SizeDef(env: Env, n: nat, v: Value): nat
    requires WfEnv(env) && n < |env| && DefHasType(env, n, v)
    decreases v, n + 1, 0
  {
    assert WfDef(env, n);
    match env[n]
    case Alias(ty) => Size(env, ty, v)
    case Sum(alts) => if alts[v.alt] == [] then TagWidth(|alts|)
      else SizeArgs(env, alts[v.alt], v.args, TagWidth(|alts|))
    case Record(ts) => SizeArgs(env, ts, v.vs, 0)
    case Variants(rows) => SizeRows(env, rows, v)
  }

  /** The sizer of a variant: rows with arguments and inherited rows are matched in order; what they leave is an
      atom of this very type, of size 4. */
  function SizeRows(env: Env, rows: seq<Row>, v: Value): nat
    requires WfEnv(env) && WfRows(env, rows) && VariantHasType(env, rows, v)
    decreases v, RowsLevel(rows), 1, |rows|
  {
    FirstRowAccepts(env, rows, v);
    if rows[0].Atom? then
      if RowAccepts(env, rows[0], v) then SizeAtom(env, rows[1..], v) else SizeRows(env, rows[1..], v)
    else if RowAccepts(env, rows[0], v) then
      match rows[0]
      case Of(tag, arg) => Size(env, arg, v.arg) + 4
      case Inherit(n) => InheritedHasType(env, n, v); SizeDef(env, n, v)
    else SizeRows(env, rows[1..], v)
  }

  /** An atom of the type itself may also be accepted by a later inherited row, which the sizer tries first. (The
      typing test only matters for a type that gives one tag two shapes, which the compiler rejects.) */
  function SizeAtom(env: Env, rows: seq<Row>, v: Value): nat
    requires WfEnv(env) && WfRows(env, rows) && v.VTag?
    decreases v, RowsLevel(rows), 1, |rows|
  {
    if rows == [] then 4 else
      assert WfRow(env, rows[0]);
      if rows[0].Inherit? && RowAccepts(env, rows[0], v) && VariantHasType(env, RowsOf(env, rows[0].def), v) then
        InheritedHasType(env, rows[0].def, v); SizeDef(env, rows[0].def, v)
      else SizeAtom(env, rows[1..], v)
  }
}
