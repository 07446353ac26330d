/** The comparisons that pa_compare.ml generates. */
module Compare {
  import opened Options

  // What they compute, and that they are total preorders whenever the comparisons of base types are.

  /** `TyBase(b)` is the b-th type with a comparison of its own: base types, abstract types and type variables. */
  datatype Ty =
    | TyUnit | TyBase(base: nat) | TyNamed(def: nat)
    | TyRef(elt: Ty) | TyOption(elt: Ty) | TyList(elt: Ty) | TyArray(elt: Ty)
    | TyTuple(elts: seq<Ty>)

  /** The alternatives of a sum, nested as the parser left them. */
  datatype Alts = Con(con: nat, args: seq<Ty>) | Bar(left: Alts, right: Alts)

  datatype Def = Alias(ty: Ty) | Record(fields: seq<Ty>) | Sum(alts: Alts)

  type Env = seq<Def>

  datatype Value =
    | VUnit | VBase(n: int) | VRef(contents: Value) | VNone | VSome(v: Value)
    | VList(vs: seq<Value>) | VArray(vs: seq<Value>) | VTuple(vs: seq<Value>) | VCon(con: nat, args: seq<Value>)

  // ----- typing -----

  /** Constructors and their arguments, in the order of declaration. */
  function Constructors(alts: Alts): (cs: seq<(nat, seq<Ty>)>)
    ensures cs != []
  {
    match alts case Con(c, args) => [(c, args)] case Bar(l, r) => Constructors(l) + Constructors(r)
  }

  /** The place of a constructor in the declaration, or the number of constructors. */
  function Place(cs: seq<(nat, seq<Ty>)>, c: nat): (i: nat)
    ensures i <= |cs|
    ensures i < |cs| ==> cs[i].0 == c
    ensures forall j :: 0 <= j < i ==> cs[j].0 != c
  {
    if cs == [] then 0 else if cs[0].0 == c then 0 else 1 + Place(cs[1..], c)
  }

  function Level(ty: Ty): nat { if ty.TyNamed? then ty.def + 1 else 0 }

  predicate WfTy(env: Env, ty: Ty) {
    match ty
    case TyNamed(n) => n < |env|
    case TyRef(t) => WfTy(env, t)
    case TyOption(t) => WfTy(env, t)
    case TyList(t) => WfTy(env, t)
    case TyArray(t) => WfTy(env, t)
    case TyTuple(ts) => WfTys(env, ts)
    case _ => true
  }

  predicate WfTys(env: Env, ts: seq<Ty>) { forall i :: 0 <= i < |ts| ==> WfTy(env, ts[i]) }

  /** Names are defined, aliases do not run in circles, and constructors are different. */
  predicate WfDef(env: Env, n: nat)
    requires n < |env|
  {
    match env[n]
    case Alias(ty) => WfTy(env, ty) && Level(ty) <= n
    case Record(ts) => WfTys(env, ts)
    case Sum(alts) => WfAlts(env, alts)
  }

  predicate WfAlts(env: Env, alts: Alts) {
    var cs := Constructors(alts);
    (forall i :: 0 <= i < |cs| ==> WfTys(env, cs[i].1)) &&
    forall i, j :: 0 <= i < j < |cs| ==> cs[i].0 != cs[j].0
  }

  predicate WfEnv(env: Env) { forall n: nat :: n < |env| ==> WfDef(env, n) }

  predicate HasType(env: Env, ty: Ty, v: Value)
    requires WfEnv(env) && WfTy(env, ty)
    decreases v, Level(ty)
  {
    match ty
    case TyUnit => v.VUnit?
    case TyBase(_) => v.VBase?
    case TyRef(t) => v.VRef? && HasType(env, t, v.contents)
    case TyOption(t) => v.VNone? || (v.VSome? && HasType(env, t, v.v))
    case TyList(t) => v.VList? && AllOf(env, t, v.vs)
    case TyArray(t) => v.VArray? && AllOf(env, t, v.vs)
    case TyTuple(ts) => v.VTuple? && HaveTypes(env, ts, v.vs)
    case TyNamed(n) =>
      assert WfDef(env, n);
      match env[n]
      case Alias(t) => HasType(env, t, v)
      case Record(ts) => v.VTuple? && HaveTypes(env, ts, v.vs)
      case Sum(alts) =>
        v.VCon? && var cs := Constructors(alts);
        var i := Place(cs, v.con);
        i < |cs| && HaveTypes(env, cs[i].1, v.args)
  }

  predicate AllOf(env: Env, t: Ty, vs: seq<Value>)
    requires WfEnv(env) && WfTy(env, t)
    decreases vs
  {
    vs != [] ==> HasType(env, t, vs[0]) && AllOf(env, t, vs[1..])
  }

  predicate HaveTypes(env: Env, ts: seq<Ty>, vs: seq<Value>)
    requires WfEnv(env) && WfTys(env, ts)
    decreases vs
  {
    |ts| == |vs| && (ts != [] ==> HasType(env, ts[0], vs[0]) && HaveTypes(env, ts[1..], vs[1..]))
  }

  // ----- the match over the constructors of a sum -----

  /** One generated case: the same constructor on both sides, or the constructor on one side and anything on the
      other. */
  datatype Case = Both(con: nat, args: seq<Ty>) | LeftIs(con: nat) | RightIs(con: nat)

  /** `branches_of_sum`. The rightmost alternative needs no cases for other constructors. */
  function BranchesOfSum(rightmost: bool, alts: Alts): seq<Case> {
    match alts
    case Con(c, args) => if rightmost then [Both(c, args)] else [Both(c, args), LeftIs(c), RightIs(c)]
    case Bar(l, r) => BranchesOfSum(false, l) + BranchesOfSum(rightmost, r)
  }

  datatype Action = CompareArgs(args: seq<Ty>) | Answer(n: int)

  /** The first case that matches a pair of constructors; none is a match failure. */
  function Select(cases: seq<Case>, a: nat, b: nat): Option<Action> {
    if cases == [] then None else
      match cases[0]
      case Both(c, args) => if a == c && b == c then Some(CompareArgs(args)) else Select(cases[1..], a, b)
      case LeftIs(c) => if a == c then Some(Answer(-1)) else Select(cases[1..], a, b)
      case RightIs(c) => if b == c then Some(Answer(1)) else Select(cases[1..], a, b)
  }

  lemma {:induction false} SelectAppend(s: seq<Case>, t: seq<Case>, a: nat, b: nat)
    ensures Select(s + t, a, b) == if Select(s, a, b).Some? then Select(s, a, b) else Select(t, a, b)
  {
    if s == [] {
      assert s + t == t;
    } else {
      assert (s + t)[1..] == s[1..] + t;
      SelectAppend(s[1..], t, a, b);
    }
  }

  /** The order of declaration: what the cases for some constructors say about a pair. */
  function ByDeclaration(cs: seq<(nat, seq<Ty>)>, a: nat, b: nat): Option<Action> {
    var i, j := Place(cs, a), Place(cs, b);
    if i == |cs| && j == |cs| then None
    else if i == j then Some(CompareArgs(cs[i].1))
    else Some(Answer(if i < j then -1 else 1))
  }

  lemma {:induction false} PlaceAppend(s: seq<(nat, seq<Ty>)>, t: seq<(nat, seq<Ty>)>, c: nat)
    ensures Place(s + t, c) == if Place(s, c) < |s| then Place(s, c) else |s| + Place(t, c)
  {
    if s == [] {
      assert s + t == t;
    } else {
      assert (s + t)[1..] == s[1..] + t;
      PlaceAppend(s[1..], t, c);
    }
  }

  lemma {:induction false} ByDeclarationAppend(s: seq<(nat, seq<Ty>)>, t: seq<(nat, seq<Ty>)>, a: nat, b: nat)
    ensures ByDeclaration(s + t, a, b) ==
            if ByDeclaration(s, a, b).Some? then ByDeclaration(s, a, b) else ByDeclaration(t, a, b)
  {
    hide Place;
    PlaceAppend(s, t, a);
    PlaceAppend(s, t, b);
  }

  lemma {:induction false} SelectFirst(x: Case, rest: seq<Case>, a: nat, b: nat)
    ensures Select([x] + rest, a, b) ==
            if x.Both? && a == x.con && b == x.con then Some(CompareArgs(x.args))
            else if x.LeftIs? && a == x.con then Some(Answer(-1))
            else if x.RightIs? && b == x.con then Some(Answer(1))
            else Select(rest, a, b)
  {
    assert ([x] + rest)[1..] == rest;
  }

  lemma {:induction false} OneConstructor(c: nat, args: seq<Ty>, a: nat, b: nat)
    ensures Select([Both(c, args), LeftIs(c), RightIs(c)], a, b) == ByDeclaration([(c, args)], a, b)
  {
    assert [(c, args)][1..] == [];
    SelectFirst(Both(c, args), [LeftIs(c), RightIs(c)], a, b);
    SelectFirst(LeftIs(c), [RightIs(c)], a, b);
    SelectFirst(RightIs(c), [], a, b);
    assert [Both(c, args)] + [LeftIs(c), RightIs(c)] == [Both(c, args), LeftIs(c), RightIs(c)];
    assert [LeftIs(c)] + [RightIs(c)] == [LeftIs(c), RightIs(c)] && [RightIs(c)] + [] == [RightIs(c)];
  }

  /** The cases of alternatives that are not rightmost decide every pair with one of their constructors on either
      side. */
  lemma {:induction false} BranchesDecide(alts: Alts, a: nat, b: nat)
    ensures Select(BranchesOfSum(false, alts), a, b) == ByDeclaration(Constructors(alts), a, b)
  {
    match alts
    case Con(c, args) => OneConstructor(c, args, a, b);
    case Bar(l, r) =>
      hide ByDeclaration, Select;
      BranchesDecide(l, a, b);
      BranchesDecide(r, a, b);
      SelectAppend(BranchesOfSum(false, l), BranchesOfSum(false, r), a, b);
      ByDeclarationAppend(Constructors(l), Constructors(r), a, b);
  }

  /** The generated match is exhaustive and orders constructors by declaration, however the alternatives are nested. */
  lemma {:induction false} SumIsOrdered(alts: Alts, a: nat, b: nat)
    requires Place(Constructors(alts), a) < |Constructors(alts)| && Place(Constructors(alts), b) < |Constructors(alts)|
    ensures Select(BranchesOfSum(true, alts), a, b) == ByDeclaration(Constructors(alts), a, b)
    ensures Select(BranchesOfSum(true, alts), a, b).Some?
  {
    match alts
    case Con(c, args) => assert Constructors(alts)[1..] == [];
    case Bar(l, r) =>
      BranchesDecide(l, a, b);
      SelectAppend(BranchesOfSum(false, l), BranchesOfSum(true, r), a, b);
      ByDeclarationAppend(Constructors(l), Constructors(r), a, b);
      PlaceAppend(Constructors(l), Constructors(r), a);
      PlaceAppend(Constructors(l), Constructors(r), b);
      if Place(Constructors(l), a) == |Constructors(l)| && Place(Constructors(l), b) == |Constructors(l)| {
        SumIsOrdered(r, a, b);
      }
  }

  // ----- the generated comparison -----

  /** The comparisons of base types, and physical equality. */
  datatype Prims = Prims(compare: (nat, int, int) -> int, same: (Value, Value) -> bool)

  function CompareInts(a: int, b: int): int { if a < b then -1 else if a > b then 1 else 0 }

  /** `compare_of_ty`, `compare_applied` and the comparison of a definition. Sums, records and arrays first look whether
      both sides are physically the same. */
  function Cmp(p: Prims, env: Env, ty: Ty, a: Value, b: Value): int
    requires WfEnv(env) && WfTy(env, ty) && HasType(env, ty, a) && HasType(env, ty, b)
    decreases a, Level(ty)
  {
    match ty
    case TyUnit => 0
    case TyBase(t) => p.compare(t, a.n, b.n)
    case TyRef(t) => Cmp(p, env, t, a.contents, b.contents)
    case TyOption(t) =>
      if a.VNone? then (if b.VNone? then 0 else 1)
      else if b.VNone? then -1
      else Cmp(p, env, t, a.v, b.v)
    case TyList(t) => CmpList(p, env, t, a.vs, b.vs)
    case TyArray(t) =>
      if p.same(a, b) then 0 else
        var ret := CompareInts(|a.vs|, |b.vs|);
        if ret != 0 then ret else CmpElements(p, env, t, a.vs, b.vs)
    case TyTuple(ts) => ChainIf(p, env, ts, a.vs, b.vs)
    case TyNamed(n) =>
      assert WfDef(env, n);
      match env[n]
      case Alias(t) => Cmp(p, env, t, a, b)
      case Record(ts) => if p.same(a, b) then 0 else ChainIf(p, env, ts, a.vs, b.vs)
      case Sum(alts) =>
        if p.same(a, b) then 0 else
          SumIsOrdered(alts, a.con, b.con);
          match Select(BranchesOfSum(true, alts), a.con, b.con).value
          case Answer(n) => n
          case CompareArgs(ts) => ChainIf(p, env, ts, a.args, b.args)
  }

  /** The loop of `compare_list`. */
  function CmpList(p: Prims, env: Env, t: Ty, a: seq<Value>, b: seq<Value>): int
    requires WfEnv(env) && WfTy(env, t) && AllOf(env, t, a) && AllOf(env, t, b)
    decreases a
  {
    if a == [] then (if b == [] then 0 else -1)
    else if b == [] then 1
    else var n := Cmp(p, env, t, a[0], b[0]); if n == 0 then CmpList(p, env, t, a[1..], b[1..]) else n
  }

  /** The loop of `compare_array`, for equal lengths. */
  function CmpElements(p: Prims, env: Env, t: Ty, a: seq<Value>, b: seq<Value>): int
    requires WfEnv(env) && WfTy(env, t) && |a| == |b| && AllOf(env, t, a) && AllOf(env, t, b)
    decreases a
  {
    if a == [] then 0 else
      var res := Cmp(p, env, t, a[0], b[0]);
      if res != 0 then res else CmpElements(p, env, t, a[1..], b[1..])
  }

  /** `chain_if`: the first component that differs; nothing to compare for a constructor without arguments. */
  function ChainIf(p: Prims, env: Env, ts: seq<Ty>, a: seq<Value>, b: seq<Value>): int
    requires WfEnv(env) && WfTys(env, ts) && HaveTypes(env, ts, a) && HaveTypes(env, ts, b)
    decreases a
  {
    if ts == [] then 0 else
      var ret := Cmp(p, env, ts[0], a[0], b[0]);
      if ret != 0 then ret else ChainIf(p, env, ts[1..], a[1..], b[1..])
  }

  // ----- total preorders -----

  function Sign(n: int): int { if n < 0 then -1 else if n > 0 then 1 else 0 }

  /** Three comparisons along a chain: never upwards, and strict when one step is. */
  predicate Chained(ab: int, bc: int, ac: int) {
    ab <= 0 && bc <= 0 ==> ac <= 0 && (ab < 0 || bc < 0 ==> ac < 0)
  }

  /** The comparisons of base types are total preorders, and what is physically equal is equal. */
  ghost predicate Good(p: Prims) {
    (forall t: nat, x: int :: p.compare(t, x, x) == 0) &&
    (forall t: nat, x: int, y: int :: Sign(p.compare(t, x, y)) == -Sign(p.compare(t, y, x))) &&
    (forall t: nat, x: int, y: int, z: int ::
      p.compare(t, x, y) <= 0 && p.compare(t, y, z) <= 0 ==> p.compare(t, x, z) <= 0) &&
    forall v: Value, w: Value :: p.same(v, w) ==> v == w
  }

  lemma {:induction false} BaseChained(p: Prims, t: nat, x: int, y: int, z: int)
    requires Good(p)
    ensures Chained(p.compare(t, x, y), p.compare(t, y, z), p.compare(t, x, z))
  {
    var ab, bc, ac := p.compare(t, x, y), p.compare(t, y, z), p.compare(t, x, z);
    assert Sign(ab) == -Sign(p.compare(t, y, x)) && Sign(bc) == -Sign(p.compare(t, z, y)) &&
           Sign(ac) == -Sign(p.compare(t, z, x));
    if ab <= 0 && bc <= 0 && ac == 0 {
      assert p.compare(t, z, x) <= 0;
      assert p.compare(t, y, x) <= 0;
      assert p.compare(t, z, y) <= 0;
    }
  }

  // reflexivity

  lemma {:induction false} Reflexive(p: Prims, env: Env, ty: Ty, v: Value)
    requires Good(p) && WfEnv(env) && WfTy(env, ty) && HasType(env, ty, v)
    ensures Cmp(p, env, ty, v, v) == 0
    decreases v, Level(ty)
  {
    hide Good;
    match ty
    case TyUnit =>
    case TyBase(t) => BaseReflexive(p, t, v.n);
    case TyRef(t) => Reflexive(p, env, t, v.contents);
    case TyOption(t) => if v.VSome? { Reflexive(p, env, t, v.v); }
    case TyList(t) => ReflexiveElements(p, env, t, v.vs);
    case TyArray(t) => ReflexiveElements(p, env, t, v.vs);
    case TyTuple(ts) => ReflexiveChain(p, env, ts, v.vs);
    case TyNamed(n) =>
      assert WfDef(env, n);
      match env[n]
      case Alias(t) => Reflexive(p, env, t, v);
      case Record(ts) => ReflexiveChain(p, env, ts, v.vs);
      case Sum(alts) =>
        SumIsOrdered(alts, v.con, v.con);
        ReflexiveChain(p, env, Constructors(alts)[Place(Constructors(alts), v.con)].1, v.args);
  }

  lemma BaseReflexive(p: Prims, t: nat, x: int)
    requires Good(p)
    ensures p.compare(t, x, x) == 0
  {}

  lemma {:induction false} ReflexiveElements(p: Prims, env: Env, t: Ty, vs: seq<Value>)
    requires Good(p) && WfEnv(env) && WfTy(env, t) && AllOf(env, t, vs)
    ensures CmpList(p, env, t, vs, vs) == 0 && CmpElements(p, env, t, vs, vs) == 0
    decreases vs
  {
    hide Good, WfEnv, WfTy, HasType, Cmp;
    if vs != [] {
      Reflexive(p, env, t, vs[0]);
      ReflexiveElements(p, env, t, vs[1..]);
    }
  }

  lemma {:induction false} ReflexiveChain(p: Prims, env: Env, ts: seq<Ty>, vs: seq<Value>)
    requires Good(p) && WfEnv(env) && WfTys(env, ts) && HaveTypes(env, ts, vs)
    ensures ChainIf(p, env, ts, vs, vs) == 0
    decreases vs
  {
    hide Good, WfEnv, WfTy, HasType, Cmp;
    if ts != [] {
      Reflexive(p, env, ts[0], vs[0]);
      ReflexiveChain(p, env, ts[1..], vs[1..]);
    }
  }

  // antisymmetry of signs

  lemma {:induction false} Antisymmetric(p: Prims, env: Env, ty: Ty, a: Value, b: Value)
    requires Good(p) && WfEnv(env) && WfTy(env, ty) && HasType(env, ty, a) && HasType(env, ty, b)
    ensures Sign(Cmp(p, env, ty, a, b)) == -Sign(Cmp(p, env, ty, b, a))
    decreases a, Level(ty)
  {
    if a == b {
      Reflexive(p, env, ty, a);
    } else {
      NotSame(p, a, b);
      NotSame(p, b, a);
      hide Good;
      match ty
      case TyUnit =>
      case TyBase(t) => BaseAntisymmetric(p, t, a.n, b.n);
      case TyRef(t) => Antisymmetric(p, env, t, a.contents, b.contents);
      case TyOption(t) => if a.VSome? && b.VSome? { Antisymmetric(p, env, t, a.v, b.v); }
      case TyList(t) => AntisymmetricList(p, env, t, a.vs, b.vs);
      case TyArray(t) => if |a.vs| == |b.vs| { AntisymmetricElements(p, env, t, a.vs, b.vs); }
      case TyTuple(ts) => AntisymmetricChain(p, env, ts, a.vs, b.vs);
      case TyNamed(n) => AntisymmetricNamed(p, env, n, a, b);
    }
  }

  lemma {:induction false} AntisymmetricNamed(p: Prims, env: Env, n: nat, a: Value, b: Value)
    requires Good(p) && WfEnv(env) && n < |env| && HasType(env, TyNamed(n), a) && HasType(env, TyNamed(n), b)
    requires !p.same(a, b) && !p.same(b, a)
    ensures Sign(Cmp(p, env, TyNamed(n), a, b)) == -Sign(Cmp(p, env, TyNamed(n), b, a))
    decreases a, n + 1, 0
  {
    hide Good, ChainIf, HaveTypes;
    assert WfDef(env, n);
    match env[n]
    case Alias(t) => Antisymmetric(p, env, t, a, b);
    case Record(ts) => AntisymmetricChain(p, env, ts, a.vs, b.vs);
    case Sum(alts) =>
      SumIsOrdered(alts, a.con, b.con);
      SumIsOrdered(alts, b.con, a.con);
      if a.con == b.con {
        AntisymmetricChain(p, env, Constructors(alts)[Place(Constructors(alts), a.con)].1, a.args, b.args);
      }
  }

  lemma NotSame(p: Prims, a: Value, b: Value)
    requires Good(p) && a != b
    ensures !p.same(a, b)
  {}

  lemma BaseAntisymmetric(p: Prims, t: nat, x: int, y: int)
    requires Good(p)
    ensures Sign(p.compare(t, x, y)) == -Sign(p.compare(t, y, x))
  {}

  lemma {:induction false} AntisymmetricList(p: Prims, env: Env, t: Ty, a: seq<Value>, b: seq<Value>)
    requires Good(p) && WfEnv(env) && WfTy(env, t) && AllOf(env, t, a) && AllOf(env, t, b)
    ensures Sign(CmpList(p, env, t, a, b)) == -Sign(CmpList(p, env, t, b, a))
    decreases a
  {
    hide Good, WfEnv, WfTy, HasType, Cmp;
    if a != [] && b != [] {
      Antisymmetric(p, env, t, a[0], b[0]);
      AntisymmetricList(p, env, t, a[1..], b[1..]);
    }
  }

  lemma {:induction false} AntisymmetricElements(p: Prims, env: Env, t: Ty, a: seq<Value>, b: seq<Value>)
    requires Good(p) && WfEnv(env) && WfTy(env, t) && |a| == |b| && AllOf(env, t, a) && AllOf(env, t, b)
    ensures Sign(CmpElements(p, env, t, a, b)) == -Sign(CmpElements(p, env, t, b, a))
    decreases a
  {
    hide Good, WfEnv, WfTy, HasType, Cmp;
    if a != [] {
      Antisymmetric(p, env, t, a[0], b[0]);
      AntisymmetricElements(p, env, t, a[1..], b[1..]);
    }
  }

  lemma {:induction false} AntisymmetricChain(p: Prims, env: Env, ts: seq<Ty>, a: seq<Value>, b: seq<Value>)
    requires Good(p) && WfEnv(env) && WfTys(env, ts) && HaveTypes(env, ts, a) && HaveTypes(env, ts, b)
    ensures Sign(ChainIf(p, env, ts, a, b)) == -Sign(ChainIf(p, env, ts, b, a))
    decreases a
  {
    hide Good, WfEnv, WfTy, HasType, Cmp;
    if ts != [] {
      Antisymmetric(p, env, ts[0], a[0], b[0]);
      AntisymmetricChain(p, env, ts[1..], a[1..], b[1..]);
    }
  }

  // transitivity

  lemma {:induction false} Transitive(p: Prims, env: Env, ty: Ty, a: Value, b: Value, c: Value)
    requires Good(p) && WfEnv(env) && WfTy(env, ty) && HasType(env, ty, a) && HasType(env, ty, b) && HasType(env, ty, c)
    ensures Chained(Cmp(p, env, ty, a, b), Cmp(p, env, ty, b, c), Cmp(p, env, ty, a, c))
    decreases a, Level(ty)
  {
    hide WfEnv, WfTy, HasType, Cmp, Good;
    if a == b {
      Reflexive(p, env, ty, a);
    } else if b == c {
      Reflexive(p, env, ty, b);
    } else if a == c {
      Reflexive(p, env, ty, a);
      Antisymmetric(p, env, ty, a, b);
    } else {
      NotSame(p, a, b);
      NotSame(p, b, c);
      NotSame(p, a, c);
      TransitiveDifferent(p, env, ty, a, b, c);
    }
  }

  lemma {:induction false} TransitiveDifferent(p: Prims, env: Env, ty: Ty, a: Value, b: Value, c: Value)
    requires Good(p) && WfEnv(env) && WfTy(env, ty) && HasType(env, ty, a) && HasType(env, ty, b) && HasType(env, ty, c)
    requires !p.same(a, b) && !p.same(b, c) && !p.same(a, c)
    ensures Chained(Cmp(p, env, ty, a, b), Cmp(p, env, ty, b, c), Cmp(p, env, ty, a, c))
    decreases a, Level(ty), 1
  {
    hide Good, ChainIf, HaveTypes, CmpList, CmpElements;
    match ty
    case TyUnit =>
    case TyBase(t) => BaseChained(p, t, a.n, b.n, c.n);
    case TyRef(t) => Transitive(p, env, t, a.contents, b.contents, c.contents);
    case TyOption(t) => if a.VSome? && b.VSome? && c.VSome? { Transitive(p, env, t, a.v, b.v, c.v); }
    case TyList(t) => TransitiveList(p, env, t, a.vs, b.vs, c.vs);
    case TyArray(t) => if |a.vs| == |b.vs| == |c.vs| { TransitiveElements(p, env, t, a.vs, b.vs, c.vs); }
    case TyTuple(ts) => TransitiveChain(p, env, ts, a.vs, b.vs, c.vs);
    case TyNamed(n) => TransitiveNamed(p, env, n, a, b, c);
  }

  lemma {:induction false} TransitiveNamed(p: Prims, env: Env, n: nat, a: Value, b: Value, c: Value)
    requires Good(p) && WfEnv(env) && n < |env|
    requires HasType(env, TyNamed(n), a) && HasType(env, TyNamed(n), b) && HasType(env, TyNamed(n), c)
    requires !p.same(a, b) && !p.same(b, c) && !p.same(a, c)
    ensures Chained(Cmp(p, env, TyNamed(n), a, b), Cmp(p, env, TyNamed(n), b, c), Cmp(p, env, TyNamed(n), a, c))
    decreases a, n + 1, 0
  {
    hide Good, ChainIf, HaveTypes;
    assert WfDef(env, n);
    match env[n]
    case Alias(t) => Transitive(p, env, t, a, b, c);
    case Record(ts) => TransitiveChain(p, env, ts, a.vs, b.vs, c.vs);
    case Sum(alts) =>
      SumIsOrdered(alts, a.con, b.con);
      SumIsOrdered(alts, b.con, c.con);
      SumIsOrdered(alts, a.con, c.con);
      if a.con == b.con == c.con {
        TransitiveChain(p, env, Constructors(alts)[Place(Constructors(alts), a.con)].1, a.args, b.args, c.args);
      }
  }

  lemma {:induction false} TransitiveList(p: Prims, env: Env, t: Ty, a: seq<Value>, b: seq<Value>, c: seq<Value>)
    requires Good(p) && WfEnv(env) && WfTy(env, t) && AllOf(env, t, a) && AllOf(env, t, b) && AllOf(env, t, c)
    ensures Chained(CmpList(p, env, t, a, b), CmpList(p, env, t, b, c), CmpList(p, env, t, a, c))
    decreases a
  {
    hide Good, WfEnv, WfTy, HasType, Cmp;
    if a != [] && b != [] && c != [] {
      Transitive(p, env, t, a[0], b[0], c[0]);
      TransitiveList(p, env, t, a[1..], b[1..], c[1..]);
    }
  }

  lemma {:induction false} TransitiveElements(p: Prims, env: Env, t: Ty, a: seq<Value>, b: seq<Value>, c: seq<Value>)
    requires Good(p) && WfEnv(env) && WfTy(env, t) && |a| == |b| == |c|
    requires AllOf(env, t, a) && AllOf(env, t, b) && AllOf(env, t, c)
    ensures Chained(CmpElements(p, env, t, a, b), CmpElements(p, env, t, b, c), CmpElements(p, env, t, a, c))
    decreases a
  {
    hide Good, WfEnv, WfTy, HasType, Cmp;
    if a != [] {
      Transitive(p, env, t, a[0], b[0], c[0]);
      TransitiveElements(p, env, t, a[1..], b[1..], c[1..]);
    }
  }

  lemma {:induction false} TransitiveChain(p: Prims, env: Env, ts: seq<Ty>, a: seq<Value>, b: seq<Value>, c: seq<Value>)
    requires Good(p) && WfEnv(env) && WfTys(env, ts)
    requires HaveTypes(env, ts, a) && HaveTypes(env, ts, b) && HaveTypes(env, ts, c)
    ensures Chained(ChainIf(p, env, ts, a, b), ChainIf(p, env, ts, b, c), ChainIf(p, env, ts, a, c))
    decreases a
  {
    hide Good, WfEnv, WfTy, HasType, Cmp;
    if ts != [] {
      Transitive(p, env, ts[0], a[0], b[0], c[0]);
      TransitiveChain(p, env, ts[1..], a[1..], b[1..], c[1..]);
    }
  }

  /** The generated comparison of every type is a total preorder. */
  lemma {:induction false} TotalPreorder(p: Prims, env: Env, ty: Ty, a: Value, b: Value, c: Value)
    requires Good(p) && WfEnv(env) && WfTy(env, ty) && HasType(env, ty, a) && HasType(env, ty, b) && HasType(env, ty, c)
    ensures Cmp(p, env, ty, a, a) == 0
    ensures Sign(Cmp(p, env, ty, a, b)) == -Sign(Cmp(p, env, ty, b, a))
    ensures Cmp(p, env, ty, a, b) <= 0 && Cmp(p, env, ty, b, c) <= 0 ==> Cmp(p, env, ty, a, c) <= 0
  {
    hide WfEnv, WfTy, HasType, Cmp, Good;
    Reflexive(p, env, ty, a);
    Antisymmetric(p, env, ty, a, b);
    Transitive(p, env, ty, a, b, c);
  }

  // ----- the shortcuts for physical equality -----

  /** Whatever two runs know about physical equality, they compute the same. */
  lemma {:induction false} ShortcutsInvisible(p: Prims, q: Prims, env: Env, ty: Ty, a: Value, b: Value)
    requires Good(p) && Good(q) && p.compare == q.compare
    requires WfEnv(env) && WfTy(env, ty) && HasType(env, ty, a) && HasType(env, ty, b)
    ensures Cmp(p, env, ty, a, b) == Cmp(q, env, ty, a, b)
    decreases a, Level(ty)
  {
    if a == b {
      Reflexive(p, env, ty, a);
      Reflexive(q, env, ty, a);
    } else {
      NotSame(p, a, b);
      NotSame(q, a, b);
      hide Good, CmpList, CmpElements, ChainIf;
      match ty
      case TyRef(t) => ShortcutsInvisible(p, q, env, t, a.contents, b.contents);
      case TyOption(t) => if a.VSome? && b.VSome? { ShortcutsInvisible(p, q, env, t, a.v, b.v); }
      case TyList(t) => ShortcutsInList(p, q, env, t, a.vs, b.vs);
      case TyArray(t) => if |a.vs| == |b.vs| { ShortcutsInElements(p, q, env, t, a.vs, b.vs); }
      case TyTuple(ts) => ShortcutsInChain(p, q, env, ts, a.vs, b.vs);
      case TyNamed(n) =>
        assert WfDef(env, n);
        match env[n] {
           case Alias(t) => ShortcutsInvisible(p, q, env, t, a, b);
           case Record(ts) => ShortcutsInChain(p, q, env, ts, a.vs, b.vs);
           case Sum(alts) =>
             SumIsOrdered(alts, a.con, b.con);
             if a.con == b.con {
               ShortcutsInChain(p, q, env, Constructors(alts)[Place(Constructors(alts), a.con)].1, a.args, b.args);
             }
         }
      case _ =>
    }
  }

  lemma {:induction false} ShortcutsInList(p: Prims, q: Prims, env: Env, t: Ty, a: seq<Value>, b: seq<Value>)
    requires Good(p) && Good(q) && p.compare == q.compare
    requires WfEnv(env) && WfTy(env, t) && AllOf(env, t, a) && AllOf(env, t, b)
    ensures CmpList(p, env, t, a, b) == CmpList(q, env, t, a, b)
    decreases a
  {
    hide Good, WfEnv, WfTy, HasType, Cmp;
    if a != [] && b != [] {
      ShortcutsInvisible(p, q, env, t, a[0], b[0]);
      ShortcutsInList(p, q, env, t, a[1..], b[1..]);
    }
  }

  lemma {:induction false} ShortcutsInElements(p: Prims, q: Prims, env: Env, t: Ty, a: seq<Value>, b: seq<Value>)
    requires Good(p) && Good(q) && p.compare == q.compare
    requires WfEnv(env) && WfTy(env, t) && |a| == |b| && AllOf(env, t, a) && AllOf(env, t, b)
    ensures CmpElements(p, env, t, a, b) == CmpElements(q, env, t, a, b)
    decreases a
  {
    hide Good, WfEnv, WfTy, HasType, Cmp;
    if a != [] {
      ShortcutsInvisible(p, q, env, t, a[0], b[0]);
      ShortcutsInElements(p, q, env, t, a[1..], b[1..]);
    }
  }

  lemma {:induction false} ShortcutsInChain(p: Prims, q: Prims, env: Env, ts: seq<Ty>, a: seq<Value>, b: seq<Value>)
    requires Good(p) && Good(q) && p.compare == q.compare
    requires WfEnv(env) && WfTys(env, ts) && HaveTypes(env, ts, a) && HaveTypes(env, ts, b)
    ensures ChainIf(p, env, ts, a, b) == ChainIf(q, env, ts, a, b)
    decreases a
  {
    hide Good, WfEnv, WfTy, HasType, Cmp;
    if ts != [] {
      ShortcutsInvisible(p, q, env, ts[0], a[0], b[0]);
      ShortcutsInChain(p, q, env, ts[1..], a[1..], b[1..]);
    }
  }
}
